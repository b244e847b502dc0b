/** The encoder and the decoder as the source runs them: a growing byte buffer, a shrinking one, a
    field cursor and variables updated in place, each proved equal to the functions of Codec. */
module CodecMethods {
  import opened Basics
  import opened Wire
  import opened Schema
  import opened Codec

  // ---------- steps of the specification, one loop iteration at a time ----------

  lemma ListEmitNext(env: Env, id: nat, t: Ty, es: seq<Val>, i: nat)
    requires i < |es| && forall w :: w in es ==> Typed(env, t, w)
    ensures Emit(id, ListRecords(env, t, es[i..])) ==
            Emit(id, Records(env, t, es[i])) + Emit(id, ListRecords(env, t, es[i + 1..]))
  {
    assert es[i..][1..] == es[i + 1..];
    EmitConcat(id, Records(env, t, es[i]), ListRecords(env, t, es[i + 1..]));
  }

  lemma TypedFrom(env: Env, k: Ty, t: Ty, entries: seq<Entry>, i: nat)
    requires i <= |entries| && TypedEntries(env, k, t, entries)
    ensures TypedEntries(env, k, t, entries[i..])
  {
    hide Typed;
    forall j | 0 <= j < |entries| - i
      ensures Typed(env, k, entries[i..][j].key) && Typed(env, t, entries[i..][j].val)
    {
      assert entries[i..][j] == entries[i + j];
    }
  }

  /** The records of a map from its i-th entry on. */
  ghost function EntriesFrom(env: Env, id: nat, k: Ty, t: Ty, entries: seq<Entry>, i: nat): seq<Byte>
    requires i <= |entries| && TypedEntries(env, k, t, entries)
  {
    TypedFrom(env, k, t, entries, i);
    Emit(id, EntryRecords(env, k, t, entries[i..]))
  }

  lemma EntryRecordsStep(env: Env, k: Ty, t: Ty, entries: seq<Entry>)
    requires entries != [] && TypedEntries(env, k, t, entries)
    ensures TypedEntries(env, k, t, entries[1..])
    ensures EntryRecords(env, k, t, entries) ==
            [Delim(EntryBytes(env, k, t, entries[0]))] + EntryRecords(env, k, t, entries[1..])
  {
    hide EntryBytes;
    TypedFrom(env, k, t, entries, 1);
  }

  lemma EntriesNext(env: Env, id: nat, k: Ty, t: Ty, entries: seq<Entry>, i: nat)
    requires i < |entries| && TypedEntries(env, k, t, entries)
    ensures EntriesFrom(env, id, k, t, entries, i) ==
            Record(id, Delim(EntryBytes(env, k, t, entries[i]))) + EntriesFrom(env, id, k, t, entries, i + 1)
  {
    hide Record, EntryBytes, EntryRecords, Emit, Typed;
    TypedFrom(env, k, t, entries, i);
    var s := entries[i..];
    assert s[0] == entries[i] && s[1..] == entries[i + 1..];
    EntryRecordsStep(env, k, t, s);
    EmitCons(id, Delim(EntryBytes(env, k, t, s[0])), EntryRecords(env, k, t, s[1..]));
  }

  lemma EntriesEnds(env: Env, id: nat, k: Ty, t: Ty, entries: seq<Entry>)
    requires TypedEntries(env, k, t, entries)
    ensures EntriesFrom(env, id, k, t, entries, 0) == Emit(id, EntryRecords(env, k, t, entries))
    ensures EntriesFrom(env, id, k, t, entries, |entries|) == []
  {
    hide Typed;
    assert entries[0..] == entries && entries[|entries|..] == [];
  }

  lemma NothingLeft(env: Env, id: nat, t: Ty, b: seq<Byte>)
    ensures TypedFields(env, [], []) && b + FieldBytes(env, [], []) == b
    ensures b + Emit(id, []) == b
    ensures b + Emit(id, ListRecords(env, t, [])) == b
  {
  }

  lemma KeyEncodable(env: Env, k: Ty, required: bool, v: Val)
    requires MapKey(k) && Typed(env, k, v)
    ensures Encodable(env, k, required, false, v)
  {
  }

  class Encoder {
    var buf: seq<Byte>

    constructor ()
      ensures buf == []
    {
      buf := [];
    }

    method Uvarint(v: nat)
      modifies this
      ensures buf == old(buf) + PutUvarint(v)
    {
      var x := v;
      while x >= 128
        invariant buf + PutUvarint(x) == old(buf) + PutUvarint(v)
      {
        buf := buf + [x % 128 + 128];
        x := x / 128;
      }
      buf := buf + [x];
    }

    /** `u32` and `u64`. */
    method Fixed(width: nat, v: nat)
      modifies this
      ensures buf == old(buf) + PutFixed(width, v)
    {
      var x := v;
      for i := 0 to width
        invariant buf + PutFixed(width - i, x) == old(buf) + PutFixed(width, v)
      {
        buf := buf + [x % 256];
        x := x / 256;
      }
    }

    method Put(id: nat, p: Payload)
      modifies this
      ensures buf == old(buf) + Record(id, p)
    {
      hide PutUvarint, Key;
      Uvarint(Key(id, p.WireType()));
      PutBody(p);
      Associative(old(buf), PutUvarint(Key(id, p.WireType())), p.Bytes());
    }

    method PutBody(p: Payload)
      modifies this
      ensures buf == old(buf) + p.Bytes()
    {
      match p {
        case Varint(v) => Uvarint(v);
        case Fixed32(v) => Fixed(4, v);
        case Fixed64(v) => Fixed(8, v);
        case Delim(b) =>
          Uvarint(|b|);
          buf := buf + b;
          Associative(old(buf), PutUvarint(|b|), b);
      }
    }

    method Packed(id: nat, k: Kind, ns: seq<int>)
      requires forall n :: n in ns ==> NumOk(k, n)
      modifies this
      ensures buf == old(buf) + Record(id, Delim(PackedBytes(k, ns)))
    {
      hide NumPayload, Record;
      var packed := new Encoder();
      assert ns[0..] == ns;
      for i := 0 to |ns|
        invariant fresh(packed) && buf == old(buf)
        invariant packed.buf + PackedBytes(k, ns[i..]) == PackedBytes(k, ns)
      {
        assert ns[i..][1..] == ns[i + 1..];
        ghost var before := packed.buf;
        packed.PutBody(NumPayload(k, ns[i]));
        Associative(before, NumPayload(k, ns[i]).Bytes(), PackedBytes(k, ns[i + 1..]));
      }
      assert ns[|ns|..] == [] && packed.buf + [] == packed.buf;
      Put(id, Delim(packed.buf));
    }

    /** `value`, with `slice` and `sliceReflect`: false where the source panics. */
    method Value(env: Env, id: nat, t: Ty, required: bool, addressable: bool, v: Val) returns (ok: bool)
      requires SupportedEnv(env) && Supported(env, t) && Typed(env, t, v)
      modifies this
      ensures ok == Encodable(env, t, required, addressable, v)
      ensures ok ==> buf == old(buf) + Emit(id, Records(env, t, v))
      decreases v, 2
    {
      hide NumPayload, PackedBytes, Record, Emit, FieldBytes, ListRecords, EntryRecords;
      ok := true;
      match t {
        case TNum(k) =>
          EmitOne(id, NumPayload(k, v.n));
          Put(id, NumPayload(k, v.n));
        case TBlob =>
          EmitOne(id, Delim(v.b));
          Put(id, Delim(v.b));
        case TArray(_) =>
          EmitOne(id, Delim(v.b));
          Put(id, Delim(v.b));
        case TPacked(k) =>
          EmitOne(id, Delim(PackedBytes(k, v.ns)));
          Packed(id, k, v.ns);
        case TMsg(fs) =>
          var emb := new Encoder();
          ok := emb.Message(env, fs, addressable, v.vs);
          if ok {
            assert emb.buf == FieldBytes(env, fs, v.vs);
            EmitOne(id, Delim(FieldBytes(env, fs, v.vs)));
            Put(id, Delim(emb.buf));
          }
        case TOpt(e) =>
          if v.VNil? {
            ok := !required;
            NothingLeft(env, id, t, buf);
          } else {
            ok := Value(env, id, Resolve(env, e), required, true, v.v);
          }
        case TRep(e) =>
          ok := Slice(env, id, Resolve(env, e), v.es);
        case TMap(k, e) =>
          ok := HandleMap(env, id, k, Resolve(env, e), required, v.entries);
      }
    }

    /** `message`: only fields that can be set are encoded, and a struct where there are none is an
        error, unless it has no fields at all. */
    method Message(env: Env, fs: seq<Field>, addressable: bool, vs: seq<Val>) returns (ok: bool)
      requires SupportedEnv(env) && Supported(env, TMsg(fs)) && TypedFields(env, fs, vs)
      modifies this
      ensures ok <==>
                && (fs == [] || SomeSettable(fs, addressable))
                && forall i :: 0 <= i < |fs| && fs[i].exported ==>
                     Encodable(env, fs[i].ty, fs[i].required, true, vs[i])
      ensures ok ==> buf == old(buf) + FieldBytes(env, fs, vs)
      decreases vs, 1
    {
      hide Emit, FieldBytes, Records, Typed, Encodable;
      NothingLeft(env, 0, TBlob, buf);
      if fs == [] { return true; }
      assert fs[0..] == fs && vs[0..] == vs;
      var noPublicFields := true;
      for i := 0 to |fs|
        invariant noPublicFields <==> !addressable || forall j :: 0 <= j < i ==> !fs[j].exported
        invariant TypedFields(env, fs[i..], vs[i..])
        invariant addressable ==>
                    buf + FieldBytes(env, fs[i..], vs[i..]) == old(buf) + FieldBytes(env, fs, vs)
        invariant addressable ==>
                    forall j :: 0 <= j < i && fs[j].exported ==>
                      Encodable(env, fs[j].ty, fs[j].required, true, vs[j])
      {
        FieldBytesNext(env, fs, vs, i);
        if addressable && fs[i].exported {
          assert fs[i] in fs;
          ghost var before := buf;
          ok := Value(env, fs[i].id, fs[i].ty, fs[i].required, true, vs[i]);
          if !ok { return; }
          Associative(before, Emit(fs[i].id, Records(env, fs[i].ty, vs[i])), FieldBytes(env, fs[i + 1..], vs[i + 1..]));
          noPublicFields := false;
        } else if addressable {
          NothingLeft(env, fs[i].id, TBlob, buf);
          assert [] + FieldBytes(env, fs[i + 1..], vs[i + 1..]) == FieldBytes(env, fs[i + 1..], vs[i + 1..]);
        }
      }
      assert fs[|fs|..] == [] && vs[|fs|..] == [];
      NothingLeft(env, 0, TBlob, buf);
      ok := !noPublicFields;
    }

    method Slice(env: Env, id: nat, t: Ty, es: seq<Val>) returns (ok: bool)
      requires SupportedEnv(env) && Supported(env, t) && forall w :: w in es ==> Typed(env, t, w)
      modifies this
      ensures ok == forall w :: w in es ==> Encodable(env, t, false, true, w)
      ensures ok ==> buf == old(buf) + Emit(id, ListRecords(env, t, es))
      decreases es, 1
    {
      hide Emit, ListRecords, Records, Typed, Encodable;
      assert es[0..] == es;
      for i := 0 to |es|
        invariant buf + Emit(id, ListRecords(env, t, es[i..])) == old(buf) + Emit(id, ListRecords(env, t, es))
        invariant forall j :: 0 <= j < i ==> Encodable(env, t, false, true, es[j])
      {
        ListEmitNext(env, id, t, es, i);
        ghost var before := buf;
        ok := Value(env, id, t, false, true, es[i]);
        if !ok { return; }
        Associative(before, Emit(id, Records(env, t, es[i])), Emit(id, ListRecords(env, t, es[i + 1..])));
      }
      assert es[|es|..] == [];
      NothingLeft(env, id, t, buf);
      ok := true;
    }

    method HandleMap(env: Env, id: nat, k: Ty, t: Ty, required: bool, entries: seq<Entry>) returns (ok: bool)
      requires SupportedEnv(env) && Supported(env, t) && MapKey(k)
      requires TypedEntries(env, k, t, entries)
      modifies this
      ensures ok == forall i :: 0 <= i < |entries| ==>
                      !entries[i].val.VNil? && Encodable(env, t, required, false, entries[i].val)
      ensures ok ==> buf == old(buf) + Emit(id, EntryRecords(env, k, t, entries))
      decreases entries, 1
    {
      hide EntriesFrom, Emit, EntryRecords, EntryBytes, Record, Records, Typed, Encodable;
      EntriesEnds(env, id, k, t, entries);
      for i := 0 to |entries|
        invariant buf + EntriesFrom(env, id, k, t, entries, i) == old(buf) + EntriesFrom(env, id, k, t, entries, 0)
        invariant forall j :: 0 <= j < i ==>
                    !entries[j].val.VNil? && Encodable(env, t, required, false, entries[j].val)
      {
        if entries[i].val.VNil? {
          ok := false;
          return;
        }
        EntriesNext(env, id, k, t, entries, i);
        var packed := new Encoder();
        ok := packed.MapEntry(env, k, t, required, entries[i]);
        if !ok { return; }
        assert packed.buf == EntryBytes(env, k, t, entries[i]);
        ghost var before := buf;
        Put(id, Delim(packed.buf));
        Associative(before, Record(id, Delim(packed.buf)), EntriesFrom(env, id, k, t, entries, i + 1));
      }
      assert buf + [] == buf;
      ok := true;
    }

    method MapEntry(env: Env, k: Ty, t: Ty, required: bool, e: Entry) returns (ok: bool)
      requires SupportedEnv(env) && Supported(env, t) && MapKey(k)
      requires Typed(env, k, e.key) && Typed(env, t, e.val)
      modifies this
      ensures ok == Encodable(env, t, required, false, e.val)
      ensures ok ==> buf == old(buf) + EntryBytes(env, k, t, e)
      decreases e, 0
    {
      hide Emit, Records, Typed, Encodable;
      var _ := Value(env, 1, k, required, false, e.key);
      KeyEncodable(env, k, required, e.key);
      ok := Value(env, 2, t, required, false, e.val);
      Associative(old(buf), Emit(1, Records(env, k, e.key)), Emit(2, Records(env, t, e.val)));
    }
  }

  // ---------- decoding ----------

  /** `putvalue`: the new contents of a variable of type `t` that held `cur`. */
  method PutValue(env: Env, t: Ty, cur: Val, p: Payload) returns (r: Result<Val>)
    requires Readable(env, t) && Shape(env, t, cur)
    ensures r == PutVal(env, t, cur, p)
    decreases Size(p), 2 + Level(t)
  {
    r := Err;
    match t {
      case TNum(k) =>
        var n := NumFrom(k, p);
        if n.Some? { r := Ok(VNum(n.value)); }
      case TBlob =>
        if p.Delim? { r := Ok(VBlob(p.b)); }
      case TArray(len) =>
        if p.Delim? && |p.b| == len { r := Ok(VBlob(p.b)); }
      case TPacked(k) =>
        if p.Delim? {
          var ns := DecodeSlice(k, cur.ns, p.b);
          if ns.Ok? { r := Ok(VNums(ns.value)); }
        }
      case TMsg(fs) =>
        if p.Delim? {
          var vs := DecodeMessage(env, fs, cur.vs, p.b);
          if vs.Ok? { r := Ok(VMsg(vs.value)); }
        }
      case TOpt(e) =>
        var s := Resolve(env, e);
        ZeroShape(env, s);
        var w := PutValue(env, s, if cur.VNil? then Zero(s) else cur.v, p);
        if w.Ok? { r := Ok(VPtr(w.value)); }
      case TRep(e) =>
        if p.Delim? {
          var s := Resolve(env, e);
          ZeroShape(env, s);
          var w := PutValue(env, s, Zero(s), p);
          if w.Ok? { r := Ok(VList(cur.es + [w.value])); }
        }
      case TMap(k, e) =>
        if p.Delim? {
          var en := DecodeMapEntry(env, k, Resolve(env, e), p.b);
          if en.Ok? { r := Ok(VMap(Insert(cur.entries, en.value.key, en.value.val))); }
        }
    }
  }

  /** `slice` on a packed field: elements are read and appended until the bytes run out. */
  method DecodeSlice(k: Kind, start: seq<int>, vb: seq<Byte>) returns (r: Result<seq<int>>)
    ensures r == DecodePacked(k, start, vb)
  {
    var acc, buf := start, vb;
    while buf != []
      invariant DecodePacked(k, acc, buf) == DecodePacked(k, start, vb)
      decreases |buf|
    {
      match ReadPayload(PackedWire(k), buf) {
        case None => return Err;
        case Some((p, rest)) =>
          var n := NumFrom(k, p);
          if n.None? { return Err; }
          acc, buf := acc + [n.value], rest;
      }
    }
    r := Ok(acc);
  }

  /** `message`: the buffer shrinks, the field cursor moves forward, fields are set in place. */
  method DecodeMessage(env: Env, fs: seq<Field>, start: seq<Val>, bytes: seq<Byte>) returns (r: Result<seq<Val>>)
    requires Readable(env, TMsg(fs)) && Shapes(env, fs, start)
    ensures r == DecodeFields(env, fs, start, 0, bytes)
    decreases |bytes|, 1
  {
    var cur, buf, fieldi := start, bytes, 0;
    while buf != []
      invariant Shapes(env, fs, cur) && fieldi <= |fs| && |buf| <= |bytes|
      invariant DecodeFields(env, fs, cur, fieldi, buf) == DecodeFields(env, fs, start, 0, bytes)
      decreases |buf|
    {
      var key := Uvarint(buf);
      if key.None? { return Err; }
      var wireType, num := key.value.0 % 8, key.value.0 / 8;
      var body := ReadPayload(wireType, buf[key.value.1..]);
      if body.None? { return Err; }
      ghost var fi := fieldi;
      while fieldi < |fs| && fs[fieldi].id < num
        invariant fi <= fieldi <= |fs|
        invariant Advance(fs, fieldi, num) == Advance(fs, fi, num)
      {
        fieldi := fieldi + 1;
      }
      if fieldi < |fs| && fs[fieldi].id == num {
        if fs[fieldi].exported {
          assert fs[fieldi] in fs;
          var v := PutValue(env, fs[fieldi].ty, cur[fieldi], body.value.0);
          if v.Err? { return Err; }
          cur := cur[fieldi := v.value];
        } else if cur[fieldi].VNil? {
          return Err;
        }
      }
      buf := body.value.1;
    }
    r := Ok(cur);
  }

  /** `mapEntry`: a key record, then value records until the entry ends. */
  method DecodeMapEntry(env: Env, k: Ty, t: Ty, bytes: seq<Byte>) returns (r: Result<Entry>)
    requires Readable(env, k) && Readable(env, t)
    ensures r == DecodeEntry(env, k, t, bytes)
    decreases |bytes|, 1
  {
    hide PutVal, ReadPayload, Uvarint, Shape, Zero, Supported, SupportedEnv;
    var key := Uvarint(bytes);
    if key.None? { return Err; }
    var body := ReadPayload(key.value.0 % 8, bytes[key.value.1..]);
    if body.None? { return Err; }
    ZeroShape(env, k);
    ZeroShape(env, t);
    var kv := PutValue(env, k, Zero(k), body.value.0);
    if kv.Err? { return Err; }
    var buf, cur := body.value.1, Zero(t);
    ghost var rest := buf;
    while buf != []
      invariant Shape(env, t, cur) && |buf| < |bytes|
      invariant DecodeEntryValue(env, t, cur, buf) == DecodeEntryValue(env, t, Zero(t), rest)
      decreases |buf|
    {
      key := Uvarint(buf);
      if key.None? { return Err; }
      body := ReadPayload(key.value.0 % 8, buf[key.value.1..]);
      if body.None? { return Err; }
      var v := PutValue(env, t, cur, body.value.0);
      if v.Err? { return Err; }
      cur, buf := v.value, body.value.1;
    }
    r := Ok(Entry(kv.value, cur));
  }
}
