/** What the bytes mean, independently of how they are read back: the Protocol Buffers encoding of
    varints, words, keys, scalars, map entries and whole messages, and what the encoder refuses. */
module WireFormat {
  import opened Basics
  import opened Wire
  import opened Schema
  import opened Codec
  import opened SchemaEvolution
  import opened RoundTrip

  // ---------- varints and words ----------

  function Pow128(i: nat): (r: nat)
    ensures r >= 1
  {
    if i == 0 then 1 else 128 * Pow128(i - 1)
  }

  /** The number that a byte sequence stands for, seven bits a byte, least significant group first. */
  function Groups(b: seq<Byte>): nat {
    if b == [] then 0 else b[0] as int % 128 + 128 * Groups(b[1..])
  }

  /** A varint: the number in groups of seven bits, all bytes but the last with the top bit set, and no
      more bytes than needed. */
  lemma {:induction false} VarintMeans(v: nat)
    ensures Groups(PutUvarint(v)) == v
    ensures var b := PutUvarint(v);
            (forall i :: 0 <= i < |b| - 1 ==> b[i] >= 128) && b[|b| - 1] < 128 && (|b| > 1 ==> b[|b| - 1] > 0)
    decreases v
  {
    if v >= 128 {
      VarintMeans(v / 128);
      var b := PutUvarint(v);
      assert b[1..] == PutUvarint(v / 128);
      forall i | 0 <= i < |b| - 1 ensures b[i] >= 128 {
        if i > 0 { assert b[i] == b[1..][i - 1]; }
      }
      assert b[|b| - 1] == b[1..][|b| - 2];
    } else {
      assert PutUvarint(v)[1..] == [];
    }
  }

  /** A word: byte i holds the bits from 8 i on, the least significant byte first. */
  lemma {:induction false} WordMeans(width: nat, v: nat, i: nat)
    requires i < width
    ensures PutFixed(width, v)[i] == v / Pow256(i) % 256
    decreases i
  {
    if i > 0 {
      WordMeans(width - 1, v / 256, i - 1);
      assert PutFixed(width, v)[i] == PutFixed(width - 1, v / 256)[i - 1];
      DivDiv(v, 256, Pow256(i - 1));
    }
  }

  lemma DivDiv(v: nat, a: nat, b: nat)
    requires a > 0 && b > 0
    ensures a * b > 0 && v / a / b == v / (a * b)
  {
    Positive(a, b);
    var x := v / a;
    var q, r := x / b, x % b;
    assert x == b * q + r && v == a * x + v % a;
    Distribute(a, b * q, r);
    Regroup(a, b, q);
    Remainder(a, b, r, v % a);
    DivUnique(a * b, v, q, a * r + v % a);
  }

  lemma Regroup(a: int, b: int, c: int)
    ensures a * (b * c) == (a * b) * c
  {
  }

  lemma Remainder(a: nat, b: nat, r: nat, s: nat)
    requires r < b && s < a
    ensures 0 <= a * r + s < a * b
  {
    Distribute(a, r, b - r);
    Distribute(a, 1, b - r - 1);
    AtLeastZero(a, b - r - 1);
    AtLeastZero(a, r);
  }

  lemma AtLeastZero(a: nat, b: nat)
    ensures a * b >= 0
  {
  }

  // ---------- keys and scalars ----------

  /** A record starts with its key, eight times the field number plus the wire type: 0 for varints, 1 and 5
      for words of eight and four bytes, 2 for what carries its length. */
  lemma KeyMeans(id: nat, p: Payload)
    requires id < TWO_61
    ensures var w := match p case Varint(_) => 0 case Fixed64(_) => 1 case Delim(_) => 2 case Fixed32(_) => 5;
            var n := |Record(id, p)| - |p.Bytes()|;
            n > 0 && Groups(Record(id, p)[..n]) == id * 8 + w && Record(id, p)[n..] == p.Bytes()
  {
    VarintMeans(Key(id, p.WireType()));
    var k := PutUvarint(Key(id, p.WireType()));
    assert Record(id, p)[..|k|] == k && Record(id, p)[|k|..] == p.Bytes();
  }

  /** How each kind of scalar is written: varints for booleans and unsigned integers, zig-zag varints for
      signed ones, and words of four or eight bytes, in two's complement, for the fixed kinds and floats. */
  lemma ScalarMeans(k: Kind, n: int)
    requires NumOk(k, n)
    ensures var p := NumPayload(k, n);
            && (k in {Bool, Uint32, Uint64} ==> p == Varint(n))
            && (k in {Int32, Int64} ==> p == Varint(if n >= 0 then 2 * n else -2 * n - 1))
            && (k in {Sfixed32, Ufixed32, Float32} ==> p == Fixed32(if n >= 0 then n else n + 0x1_0000_0000))
            && (k in {Sfixed64, Ufixed64, Float64} ==> p == Fixed64(if n >= 0 then n else n + 0x1_0000_0000_0000_0000))
  {
    if k == Sfixed32 { Wraps32(n); }
    if k == Sfixed64 { Wraps64(n); }
  }

  // ---------- map entries ----------

  /** A map entry is a message with the key in field 1 and the value in field 2. */
  function EntryFields(k: Ty, t: Ty): seq<Field> {
    [Field(1, false, true, k), Field(2, false, true, t)]
  }

  lemma EntryIsMessage(env: Env, k: Ty, t: Ty, e: Entry)
    requires Typed(env, k, e.key) && Typed(env, t, e.val)
    ensures TypedFields(env, EntryFields(k, t), [e.key, e.val])
    ensures EntryBytes(env, k, t, e) == FieldBytes(env, EntryFields(k, t), [e.key, e.val])
  {
    var fs, vs := EntryFields(k, t), [e.key, e.val];
    FieldBytesNext(env, fs, vs, 0);
    FieldBytesNext(env, fs, vs, 1);
    assert fs[0..] == fs && vs[0..] == vs && fs[2..] == [] && vs[2..] == [];
    assert FieldBytes(env, fs, vs) == Emit(1, Records(env, k, e.key)) + FieldBytes(env, fs[1..], vs[1..]);
    assert FieldBytes(env, fs[1..], vs[1..]) == Emit(2, Records(env, t, e.val)) + [];
  }

  /** Read as such a message, the key arrives in field 1 and the value in field 2. */
  lemma EntryReadAsMessage(env: Env, k: Ty, t: Ty, e: Entry)
    requires Codable(env, t) && MapKey(k) && Typed(env, k, e.key) && Typed(env, t, e.val)
    requires |EntryBytes(env, k, t, e)| < TWO_63
    ensures Readable(env, TMsg(EntryFields(k, t))) && Agree(env, t, t, e.val)
    ensures var a := ArriveEntry(env, k, t, t, e);
            Decode(env, EntryFields(k, t), EntryBytes(env, k, t, e)) == Ok([a.key, a.val])
  {
    hide Decode, FieldBytes, EntryBytes, Records, Arrive, Agree, Reached;
    var fs, vs := EntryFields(k, t), [e.key, e.val];
    EntryIsMessage(env, k, t, e);
    KeyCodable(env, k, t);
    AgreeSelf(env, k, e.key);
    AgreeSelf(env, t, e.val);
    AgreeSelf(env, TMsg(fs), VMsg(vs));
    EntryAgrees(env, k, t, e);
    FieldsShort(env, fs, vs);
    MessageLands(env, fs, fs, vs);
    SelfReached(env, fs, vs, 0);
    SelfReached(env, fs, vs, 1);
    FieldIndexIs(fs, 0);
    FieldIndexIs(fs, 1);
    KeyArrives(env, k, e.key);
    var r := ArriveFields(env, fs, fs, vs, 2);
    assert r == [r[0], r[1]];
  }

  lemma KeyCodable(env: Env, k: Ty, t: Ty)
    requires Codable(env, t) && MapKey(k)
    ensures Codable(env, k) && Codable(env, TMsg(EntryFields(k, t))) && DistinctIds(EntryFields(k, t))
    ensures !Unreadable(EntryFields(k, t), 0) && !Unreadable(EntryFields(k, t), 1)
  {
    var fs := EntryFields(k, t);
    forall f | f in fs ensures Supported(env, f.ty) && Numbered(f.ty) {
      assert f == fs[0] || f == fs[1];
    }
  }

  lemma EntryAgrees(env: Env, k: Ty, t: Ty, e: Entry)
    requires Typed(env, k, e.key) && Typed(env, t, e.val) && Agree(env, k, k, e.key) && Agree(env, t, t, e.val)
    ensures TypedFields(env, EntryFields(k, t), [e.key, e.val])
    ensures AgreeFields(env, EntryFields(k, t), EntryFields(k, t), [e.key, e.val])
  {
  }

  lemma KeyArrives(env: Env, k: Ty, key: Val)
    requires MapKey(k) && Typed(env, k, key) && Agree(env, k, k, key)
    ensures Arrive(env, k, k, key) == if k.TNum? then VNum(Land(k.k, key.n)) else key
  {
  }

  // ---------- whole messages ----------

  /** The bytes of a message with one field. */
  lemma OneFieldBytes(id: nat, t: Ty, v: Val)
    requires Typed([], t, v) && Encodable([], t, false, true, v)
    ensures TypedFields([], [Field(id, false, true, t)], [v])
    ensures Encode([], [Field(id, false, true, t)], [v]) == Ok(Emit(id, Records([], t, v)))
  {
    var fs, vs := [Field(id, false, true, t)], [v];
    assert TypedFields([], fs, vs);
    FieldBytesNext([], fs, vs, 0);
    assert fs[0..] == fs && vs[0..] == vs && fs[1..] == [] && vs[1..] == [];
    assert FieldBytes([], fs[1..], vs[1..]) == [];
    assert FieldBytes([], fs, vs) == Emit(id, Records([], t, v)) + [] == Emit(id, Records([], t, v));
    MessageRefusedIff([], fs, vs);
    assert fs[0].exported;
    forall i | 0 <= i < |fs| ensures Encodable([], fs[i].ty, fs[i].required, true, vs[i]) {
      assert i == 0;
    }
  }

  lemma SmallRecord(id: nat, v: nat)
    requires id < 16 && v < 128
    ensures Emit(id, [Varint(v)]) == [id * 8, v]
  {
    EmitOne(id, Varint(v));
  }

  lemma SmallDelimited(id: nat, b: seq<Byte>)
    requires id < 16 && |b| < 128
    ensures Emit(id, [Delim(b)]) == [id * 8 + 2, |b|] + b
  {
    EmitOne(id, Delim(b));
  }

  /** An int of 37 in field 1. */
  lemma IntExample()
    ensures var fs, vs := [Field(1, false, true, TNum(Int64))], [VNum(37)];
            TypedFields([], fs, vs) && Encode([], fs, vs) == Ok([0x08, 0x4a])
  {
    OneFieldBytes(1, TNum(Int64), VNum(37));
    hide Encode, Emit;
    assert Records([], TNum(Int64), VNum(37)) == [Varint(74)];
    SmallRecord(1, 74);
  }

  /** A pointer to the string "b" in field 1. */
  lemma StringExample()
    ensures var fs, vs := [Field(1, false, true, TOpt(Inline(TBlob)))], [VPtr(VBlob([0x62]))];
            TypedFields([], fs, vs) && Encode([], fs, vs) == Ok([0x0a, 0x01, 0x62])
  {
    OneFieldBytes(1, TOpt(Inline(TBlob)), VPtr(VBlob([0x62])));
    hide Encode, Emit;
    assert Records([], TOpt(Inline(TBlob)), VPtr(VBlob([0x62]))) == Records([], TBlob, VBlob([0x62])) == [Delim([0x62])];
    SmallDelimited(1, [0x62]);
    var bytes: seq<Byte> := [0x0a, 0x01, 0x62];
    assert bytes == [0x0a, 0x01] + [0x62];
  }

  /** An unexported int alone. */
  lemma UnexportedExample()
    ensures var fs, vs := [Field(1, false, false, TNum(Int64))], [VNum(37)];
            TypedFields([], fs, vs) && Encode([], fs, vs) == Err
  {
    assert Typed([], TMsg([Field(1, false, false, TNum(Int64))]), VMsg([VNum(37)]));
  }

  const UintMap := TMap(TNum(Uint32), Inline(TNum(Uint32)))

  lemma OneToTwo(e: Entry)
    requires e == Entry(VNum(1), VNum(2))
    ensures Typed([], TNum(Uint32), e.key) && Typed([], TNum(Uint32), e.val)
    ensures EntryBytes([], TNum(Uint32), TNum(Uint32), e) == [0x08, 0x01, 0x10, 0x02]
  {
    hide Emit;
    SmallRecord(1, 1);
    SmallRecord(2, 2);
    assert Records([], TNum(Uint32), e.key) == [Varint(1)] && Records([], TNum(Uint32), e.val) == [Varint(2)];
  }

  lemma OneToTwoRecords(v: Val)
    requires v == VMap([Entry(VNum(1), VNum(2))])
    ensures Typed([], UintMap, v) && Encodable([], UintMap, false, true, v)
    ensures Records([], UintMap, v) == [Delim([0x08, 0x01, 0x10, 0x02])]
  {
    hide EntryBytes;
    var e := v.entries[0];
    OneToTwo(e);
    assert v.entries[1..] == [];
    assert EntryRecords([], TNum(Uint32), TNum(Uint32), v.entries[1..]) == [];
  }

  /** The map {1: 2} of unsigned integers in field 1. */
  lemma MapExample()
    ensures var fs, vs := [Field(1, false, true, UintMap)], [VMap([Entry(VNum(1), VNum(2))])];
            TypedFields([], fs, vs) && Encode([], fs, vs) == Ok([0x0a, 0x04, 0x08, 0x01, 0x10, 0x02])
  {
    hide Records, Encode, Encodable, Emit, Typed;
    var v := VMap([Entry(VNum(1), VNum(2))]);
    OneToTwoRecords(v);
    OneFieldBytes(1, UintMap, v);
    SmallDelimited(1, [0x08, 0x01, 0x10, 0x02]);
    var bytes: seq<Byte> := [0x0a, 0x04, 0x08, 0x01, 0x10, 0x02];
    assert bytes == [0x0a, 0x04] + [0x08, 0x01, 0x10, 0x02];
  }

  // ---------- what the encoder refuses ----------

  /** A nil pointer is refused if and only if the field requires it. */
  lemma NilRefusedIff(env: Env, t: Ty, required: bool, addressable: bool)
    requires t.TOpt?
    ensures Encodable(env, t, required, addressable, VNil) <==> !required
  {
  }

  /** In a slice a nil pointer is never refused, whatever the field requires. */
  lemma NilInSlice(env: Env, t: Ty, required: bool, addressable: bool)
    requires t.TRep? && Resolve(env, t.elem).TOpt?
    ensures Typed(env, t, VList([VNil])) && Encodable(env, t, required, addressable, VList([VNil]))
  {
  }

  /** A map with a nil pointer is always refused. */
  lemma NilInMap(env: Env, t: Ty, required: bool, addressable: bool, v: Val, i: nat)
    requires t.TMap? && Typed(env, t, v) && i < |v.entries| && v.entries[i].val.VNil?
    ensures !Encodable(env, t, required, addressable, v)
  {
  }

  /** A message is refused if and only if one of its exported fields is, or it has fields and none of them
      can be set. */
  lemma MessageRefusedIff(env: Env, fs: seq<Field>, vs: seq<Val>)
    requires TypedFields(env, fs, vs)
    ensures Encode(env, fs, vs).Err? <==>
              || (exists i :: 0 <= i < |fs| && fs[i].exported && !Encodable(env, fs[i].ty, fs[i].required, true, vs[i]))
              || (fs != [] && forall i :: 0 <= i < |fs| ==> !fs[i].exported)
  {
    assert Typed(env, TMsg(fs), VMsg(vs));
  }
}
