/** What the decoder makes of arbitrary bytes: it accepts only whole records, what it stores fits the
    type of the variable, and later records are merged into what earlier ones have left. */
module Decoded {
  import opened Basics
  import opened Wire
  import opened Schema
  import opened Codec

  // ---------- whole records ----------

  /** An accepted varint ends at the first byte without a continuation bit, one of the first ten. */
  lemma {:induction false} VarintEnds(buf: seq<Byte>, i: nat)
    requires UvarintFrom(buf, i).Some?
    ensures var n := UvarintFrom(buf, i).value.1;
            1 <= n <= |buf| && i + n <= 10 && buf[n - 1] < 128 && forall j :: 0 <= j < n - 1 ==> buf[j] >= 128
    decreases |buf|
  {
    if buf[0] >= 128 { VarintEnds(buf[1..], i + 1); }
  }

  /** Accepted payloads: the four wire types, with all their bytes present, and the rest is what follows. */
  lemma PayloadWhole(wireType: nat, buf: seq<Byte>)
    requires ReadPayload(wireType, buf).Some?
    ensures wireType in {0, 1, 2, 5} && ReadPayload(wireType, buf).value.0.WireType() == wireType
    ensures var rest := ReadPayload(wireType, buf).value.1;
            && |rest| <= |buf| && rest == buf[|buf| - |rest|..]
            && (wireType == 5 ==> |rest| == |buf| - 4) && (wireType == 1 ==> |rest| == |buf| - 8)
            && (wireType == 2 ==> ReadPayload(2, buf).value.0.b == buf[Uvarint(buf).value.1..|buf| - |rest|])
  {
  }

  lemma {:induction false} GetFixedBound(buf: seq<Byte>)
    ensures GetFixed(buf) < Pow256(|buf|)
    decreases |buf|
  {
    if buf != [] { GetFixedBound(buf[1..]); }
  }

  lemma PayloadFits(wireType: nat, buf: seq<Byte>)
    requires ReadPayload(wireType, buf).Some? && |buf| < TWO_63
    ensures ReadPayload(wireType, buf).value.0.Valid()
  {
    Pow256Words();
    if wireType == 0 { UvarintFits(buf); }
    if wireType == 5 { GetFixedBound(buf[..4]); }
    if wireType == 1 { GetFixedBound(buf[..8]); }
  }

  /** A buffer as a sequence of whole records, or None. */
  function Split(buf: seq<Byte>): Option<seq<(nat, Payload)>>
    decreases |buf|
  {
    if buf == [] then Some([])
    else
      match Uvarint(buf)
      case None => None
      case Some((key, n)) =>
        match ReadPayload(key % 8, buf[n..])
        case None => None
        case Some((p, rest)) =>
          match Split(rest)
          case None => None
          case Some(rs) => Some([(key / 8, p)] + rs)
  }

  /** Nothing but whole records is accepted, whatever the type. */
  lemma {:induction false} AcceptedSplits(env: Env, fs: seq<Field>, cur: seq<Val>, fi: nat, buf: seq<Byte>)
    requires Readable(env, TMsg(fs)) && Shapes(env, fs, cur) && fi <= |fs|
    requires DecodeFields(env, fs, cur, fi, buf).Ok?
    ensures Split(buf).Some?
    decreases |buf|
  {
    if buf != [] {
      var (key, n) := Uvarint(buf).value;
      var (p, rest) := ReadPayload(key % 8, buf[n..]).value;
      var j := Advance(fs, fi, key / 8);
      if j < |fs| && fs[j].id == key / 8 && fs[j].exported {
        assert fs[j] in fs;
        AcceptedSplits(env, fs, cur[j := PutVal(env, fs[j].ty, cur[j], p).value], j, rest);
      } else {
        AcceptedSplits(env, fs, cur, j, rest);
      }
    }
  }

  /** A type without fields accepts exactly the sequences of whole records, and ignores them all. */
  lemma {:induction false} UnknownIgnored(env: Env, buf: seq<Byte>)
    requires SupportedEnv(env)
    ensures Decode(env, [], buf) == if Split(buf).Some? then Ok([]) else Err
    decreases |buf|
  {
    if buf != [] && Uvarint(buf).Some? {
      var (key, n) := Uvarint(buf).value;
      if ReadPayload(key % 8, buf[n..]).Some? {
        UnknownIgnored(env, ReadPayload(key % 8, buf[n..]).value.1);
      }
    }
  }

  lemma {:induction false} EntryValueSplits(env: Env, t: Ty, cur: Val, buf: seq<Byte>)
    requires Readable(env, t) && Shape(env, t, cur) && DecodeEntryValue(env, t, cur, buf).Ok?
    ensures Split(buf).Some?
    decreases |buf|
  {
    if buf != [] {
      var (key, n) := Uvarint(buf).value;
      var (p, rest) := ReadPayload(key % 8, buf[n..]).value;
      EntryValueSplits(env, t, PutVal(env, t, cur, p).value, rest);
    }
  }

  /** An accepted map entry is whole records too, and at least the one of the key. */
  lemma EntrySplits(env: Env, k: Ty, t: Ty, buf: seq<Byte>)
    requires Readable(env, k) && Readable(env, t) && DecodeEntry(env, k, t, buf).Ok?
    ensures Split(buf).Some? && Split(buf).value != []
  {
    var (key, n) := Uvarint(buf).value;
    var (p, rest) := ReadPayload(key % 8, buf[n..]).value;
    ZeroShape(env, t);
    EntryValueSplits(env, t, Zero(t), rest);
  }

  /** A packed slice keeps what was there, and words of fixed width fill it exactly. */
  lemma {:induction false} PackedWhole(k: Kind, acc: seq<int>, buf: seq<Byte>)
    requires DecodePacked(k, acc, buf).Ok?
    ensures var r := DecodePacked(k, acc, buf).value;
            && acc <= r
            && (PackedWire(k) == 5 ==> |buf| == 4 * (|r| - |acc|))
            && (PackedWire(k) == 1 ==> |buf| == 8 * (|r| - |acc|))
    decreases |buf|
  {
    if buf != [] {
      var (p, rest) := ReadPayload(PackedWire(k), buf).value;
      PackedWhole(k, acc + [NumFrom(k, p).value], rest);
    }
  }

  // ---------- what is stored fits ----------

  /** Scalars are accepted from the wire types of their kind, and stored within their width. */
  lemma NumAccepted(k: Kind, p: Payload)
    requires p.Valid()
    ensures NumFrom(k, p).Some? <==>
              match k
              case Bool => p == Varint(0) || p == Varint(1)
              case Float32 => p.Fixed32?
              case Float64 => p.Fixed64?
              case _ => !p.Delim?
    ensures NumFrom(k, p).Some? ==> NumOk(k, NumFrom(k, p).value)
  {
  }

  lemma {:induction false} ZeroTyped(env: Env, t: Ty)
    ensures Typed(env, t, Zero(t))
    decreases t
  {
    match t {
      case TMsg(fs) =>
        ZeroMsg(fs);
        forall i | 0 <= i < |fs| ensures Typed(env, fs[i].ty, Zeros(fs)[i]) {
          ZeroTyped(env, fs[i].ty);
        }
      case _ =>
    }
  }

  lemma {:induction false} TypedShape(env: Env, t: Ty, v: Val)
    requires Typed(env, t, v)
    ensures Shape(env, t, v)
    decreases v
  {
    match t {
      case TMsg(fs) =>
        forall i | 0 <= i < |fs| ensures Shape(env, fs[i].ty, v.vs[i]) { TypedShape(env, fs[i].ty, v.vs[i]); }
      case TOpt(e) => if v.VPtr? { TypedShape(env, Resolve(env, e), v.v); }
      case _ =>
    }
  }

  lemma FieldsShape(env: Env, fs: seq<Field>, vs: seq<Val>)
    requires TypedFields(env, fs, vs)
    ensures Shapes(env, fs, vs)
  {
    TypedShape(env, TMsg(fs), VMsg(vs));
  }

  lemma {:induction false} PackedTyped(k: Kind, acc: seq<int>, buf: seq<Byte>)
    requires |buf| < TWO_63 && forall n :: n in acc ==> NumOk(k, n)
    ensures var r := DecodePacked(k, acc, buf); r.Ok? ==> forall n :: n in r.value ==> NumOk(k, n)
    decreases |buf|
  {
    if buf != [] && ReadPayload(PackedWire(k), buf).Some? {
      var (p, rest) := ReadPayload(PackedWire(k), buf).value;
      PayloadFits(PackedWire(k), buf);
      NumAccepted(k, p);
      if NumFrom(k, p).Some? { PackedTyped(k, acc + [NumFrom(k, p).value], rest); }
    }
  }

  /** Setting a key of a map: it gets the value, all other keys keep theirs, and no key comes twice. */
  lemma {:induction false} InsertUpdates(entries: seq<Entry>, key: Val, val: Val)
    ensures var r := Insert(entries, key, val);
            && Entry(key, val) in r
            && (forall e :: e in r ==> e == Entry(key, val) || (e in entries && (DistinctKeys(entries) ==> e.key != key)))
            && (forall e :: e in entries && e.key != key ==> e in r)
            && (DistinctKeys(entries) ==> DistinctKeys(r))
    decreases |entries|
  {
    if entries != [] {
      if entries[0].key == key {
        TailDistinct(entries);
      } else {
        InsertUpdates(entries[1..], key, val);
        TailDistinct(entries);
        var r, rest := Insert(entries, key, val), Insert(entries[1..], key, val);
        assert r == [entries[0]] + rest && entries == [entries[0]] + entries[1..];
        if DistinctKeys(entries) { ConsDistinct(entries[0], rest, entries, Entry(key, val)); }
      }
    }
  }

  lemma TailDistinct(entries: seq<Entry>)
    requires entries != []
    ensures DistinctKeys(entries) ==> DistinctKeys(entries[1..]) && forall e :: e in entries[1..] ==> e.key != entries[0].key
  {
  }

  lemma ConsDistinct(e: Entry, rest: seq<Entry>, entries: seq<Entry>, added: Entry)
    requires DistinctKeys(rest) && entries != [] && e == entries[0] && DistinctKeys(entries) && e.key != added.key
    requires forall x :: x in rest ==> x == added || x in entries[1..]
    ensures DistinctKeys([e] + rest)
  {
    TailDistinct(entries);
    forall i, j | 0 <= i < j < |[e] + rest| ensures ([e] + rest)[i].key != ([e] + rest)[j].key {
      assert ([e] + rest)[j] == rest[j - 1];
      if i > 0 { assert ([e] + rest)[i] == rest[i - 1]; }
    }
  }

  lemma InsertTyped(env: Env, t: Ty, entries: seq<Entry>, e: Entry)
    requires t.TMap? && Typed(env, t, VMap(entries))
    requires Typed(env, t.key, e.key) && Typed(env, Resolve(env, t.val), e.val)
    ensures Typed(env, t, VMap(Insert(entries, e.key, e.val)))
  {
    InsertUpdates(entries, e.key, e.val);
    var r := Insert(entries, e.key, e.val);
    forall i | 0 <= i < |r| ensures Typed(env, t.key, r[i].key) && Typed(env, Resolve(env, t.val), r[i].val) {
      assert r[i] in r;
    }
  }

  /** Storing a payload leaves a value of the variable's type. */
  lemma {:induction false} PutTyped(env: Env, t: Ty, cur: Val, p: Payload)
    requires Readable(env, t) && Typed(env, t, cur) && p.Valid()
    ensures Shape(env, t, cur)
    ensures var r := PutVal(env, t, cur, p); r.Ok? ==> Typed(env, t, r.value)
    decreases Size(p), 1 + Level(t)
  {
    TypedShape(env, t, cur);
    if PutVal(env, t, cur, p).Ok? {
      match t {
        case TNum(k) => NumAccepted(k, p);
        case TPacked(k) => PackedTyped(k, cur.ns, p.b);
        case TMsg(fs) => FieldsTyped(env, fs, cur.vs, 0, p.b);
        case TOpt(e) =>
          var s := Resolve(env, e);
          ZeroTyped(env, s);
          PutTyped(env, s, if cur.VNil? then Zero(s) else cur.v, p);
        case TRep(e) =>
          var s := Resolve(env, e);
          ZeroTyped(env, s);
          PutTyped(env, s, Zero(s), p);
        case TMap(k, e) =>
          EntryTyped(env, k, Resolve(env, e), p.b);
          InsertTyped(env, t, cur.entries, DecodeEntry(env, k, Resolve(env, e), p.b).value);
        case _ =>
      }
    }
  }

  lemma {:induction false} FieldsTyped(env: Env, fs: seq<Field>, cur: seq<Val>, fi: nat, buf: seq<Byte>)
    requires Readable(env, TMsg(fs)) && TypedFields(env, fs, cur) && fi <= |fs| && |buf| < TWO_63
    ensures Shapes(env, fs, cur)
    ensures var r := DecodeFields(env, fs, cur, fi, buf); r.Ok? ==> TypedFields(env, fs, r.value)
    decreases |buf|, 0
  {
    FieldsShape(env, fs, cur);
    if buf != [] && DecodeFields(env, fs, cur, fi, buf).Ok? {
      var (key, n) := Uvarint(buf).value;
      var (p, rest) := ReadPayload(key % 8, buf[n..]).value;
      PayloadFits(key % 8, buf[n..]);
      var j := Advance(fs, fi, key / 8);
      if j < |fs| && fs[j].id == key / 8 && fs[j].exported {
        assert fs[j] in fs;
        PutTyped(env, fs[j].ty, cur[j], p);
        FieldsTyped(env, fs, cur[j := PutVal(env, fs[j].ty, cur[j], p).value], j, rest);
      } else {
        FieldsTyped(env, fs, cur, j, rest);
      }
    }
  }

  lemma {:induction false} EntryTyped(env: Env, k: Ty, t: Ty, buf: seq<Byte>)
    requires Readable(env, k) && Readable(env, t) && |buf| < TWO_63
    ensures var r := DecodeEntry(env, k, t, buf); r.Ok? ==> Typed(env, k, r.value.key) && Typed(env, t, r.value.val)
    decreases |buf|, 0
  {
    if DecodeEntry(env, k, t, buf).Ok? {
      var (key, n) := Uvarint(buf).value;
      var (p, rest) := ReadPayload(key % 8, buf[n..]).value;
      PayloadFits(key % 8, buf[n..]);
      ZeroTyped(env, k);
      ZeroTyped(env, t);
      PutTyped(env, k, Zero(k), p);
      EntryValueTyped(env, t, Zero(t), rest);
    }
  }

  lemma {:induction false} EntryValueTyped(env: Env, t: Ty, cur: Val, buf: seq<Byte>)
    requires Readable(env, t) && Typed(env, t, cur) && |buf| < TWO_63
    ensures Shape(env, t, cur)
    ensures var r := DecodeEntryValue(env, t, cur, buf); r.Ok? ==> Typed(env, t, r.value)
    decreases |buf|, 0
  {
    TypedShape(env, t, cur);
    if buf != [] && DecodeEntryValue(env, t, cur, buf).Ok? {
      var (key, n) := Uvarint(buf).value;
      var (p, rest) := ReadPayload(key % 8, buf[n..]).value;
      PayloadFits(key % 8, buf[n..]);
      PutTyped(env, t, cur, p);
      EntryValueTyped(env, t, PutVal(env, t, cur, p).value, rest);
    }
  }

  /** Whatever bytes are decoded, what comes out is a value of the type: numbers fit their width, arrays
      have their length, maps have distinct keys. */
  lemma DecodedIsTyped(env: Env, fs: seq<Field>, buf: seq<Byte>)
    requires Readable(env, TMsg(fs)) && |buf| < TWO_63
    ensures var r := Decode(env, fs, buf); r.Ok? ==> TypedFields(env, fs, r.value)
  {
    ZeroMsg(fs);
    ZeroTyped(env, TMsg(fs));
    FieldsTyped(env, fs, Zeros(fs), 0, buf);
  }

  // ---------- several records for one variable ----------

  /** A further record for a struct, or for a pointer to one, goes into what is there: an empty one
      changes nothing. */
  lemma EmptyRecordKeeps(env: Env, t: Ty, cur: Val)
    requires Readable(env, t) && Shape(env, t, cur)
    requires t.TMsg? || (t.TOpt? && Resolve(env, t.elem).TMsg? && cur.VPtr?)
    ensures PutVal(env, t, cur, Delim([])) == Ok(cur)
  {
    if t.TOpt? { assert PutVal(env, Resolve(env, t.elem), cur.v, Delim([])) == Ok(cur.v); }
  }

  /** Of several records for a scalar, a string or an array, the last one counts. */
  lemma LastWins(env: Env, t: Ty, cur: Val, other: Val, p: Payload)
    requires Readable(env, t) && Shape(env, t, cur) && Shape(env, t, other)
    requires t.TNum? || t.TBlob? || t.TArray?
    ensures PutVal(env, t, cur, p) == PutVal(env, t, other, p)
  {
  }
}
