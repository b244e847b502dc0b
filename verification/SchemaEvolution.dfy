/** What arrives when a message written under one struct type is read under another, and when that
    is exactly what was written. Round trips are the case of equal types. */
module SchemaEvolution {
  import opened Basics
  import opened Wire
  import opened Schema
  import opened Codec

  // ---------- what arrives ----------

  /** A scalar after the trip. Only 64-bit signed varints beyond 62 bits of magnitude change: the
      decoder shifts after converting to a signed word, which flips the top bit. */
  function Land(k: Kind, n: int): int {
    if k.Int64? && n >= TWO_62 then n - TWO_63
    else if k.Int64? && n < -TWO_62 then n + TWO_63
    else n
  }

  predicate Exact(k: Kind, n: int) {
    k.Int64? ==> -TWO_62 <= n < TWO_62
  }

  function LandAll(k: Kind, ns: seq<int>): (r: seq<int>)
    ensures |r| == |ns|
  {
    seq(|ns|, i requires 0 <= i < |ns| => Land(k, ns[i]))
  }

  function FieldIndex(fs: seq<Field>, id: nat): (r: Option<nat>)
    ensures r.Some? ==> r.value < |fs| && fs[r.value].id == id
    ensures r.None? ==> forall i :: 0 <= i < |fs| ==> fs[i].id != id
    decreases |fs|
  {
    if fs == [] then None
    else if fs[|fs| - 1].id == id then Some(|fs| - 1)
    else FieldIndex(fs[..|fs| - 1], id)
  }

  /** A pointer is read into a plain variable of a type with one record, or the other way round. */
  predicate Unwraps(ta: Ty, tb: Ty) {
    ta.TOpt? && !tb.TOpt?
  }

  predicate Wraps(ta: Ty, tb: Ty) {
    !ta.TOpt? && tb.TOpt?
  }

  /** Wherever both types have a field of the same number along the value, its types are the same up to
      pointers to types with one record and up to the fields of nested messages, which may again differ. */
  ghost predicate Agree(env: Env, ta: Ty, tb: Ty, v: Val)
    requires Typed(env, ta, v)
    decreases v, if Wraps(ta, tb) then 1 else 0
  {
    if Unwraps(ta, tb) then
      Single(tb) && (v.VPtr? ==> Agree(env, Resolve(env, ta.elem), tb, v.v))
    else if Wraps(ta, tb) then
      Single(ta) && !Resolve(env, tb.elem).TOpt? && Agree(env, ta, Resolve(env, tb.elem), v)
    else
    match ta
    case TMsg(fa) => tb.TMsg? && AgreeFields(env, fa, tb.fields, v.vs)
    case TOpt(e) =>
      tb.TOpt? && (v.VPtr? ==> Agree(env, Resolve(env, e), Resolve(env, tb.elem), v.v))
    case TRep(e) =>
      tb.TRep? && forall w :: w in v.es ==> Agree(env, Resolve(env, e), Resolve(env, tb.elem), w)
    case TMap(k, e) =>
      && tb.TMap?
      && tb.key == k
      && forall i :: 0 <= i < |v.entries| ==>
           Agree(env, Resolve(env, e), Resolve(env, tb.val), v.entries[i].val)
    case _ => tb == ta
  }

  /** A record is given to a pointer that is not exported, on which decoding fails. */
  predicate Refused(f: Field) {
    !f.exported && f.ty.TOpt?
  }

  ghost predicate AgreeFields(env: Env, fa: seq<Field>, fb: seq<Field>, vs: seq<Val>)
    requires TypedFields(env, fa, vs)
    decreases vs
  {
    forall i, j :: 0 <= i < |fa| && 0 <= j < |fb| && fa[i].id == fb[j].id && fa[i].exported ==>
      !Refused(fb[j]) && (fb[j].exported ==> Agree(env, fa[i].ty, fb[j].ty, vs[i]))
  }

  /** The value the reader's variable holds in the end: common fields converted, fields the writer does
      not have and nil pointers without a pointer to hold them at zero, nil elements of slices gone. */
  ghost function Arrive(env: Env, ta: Ty, tb: Ty, v: Val): Val
    requires Typed(env, ta, v) && Agree(env, ta, tb, v)
    decreases v, if Wraps(ta, tb) then 3 else 2
  {
    if Unwraps(ta, tb) then
      if v.VNil? then Zero(tb) else Arrive(env, Resolve(env, ta.elem), tb, v.v)
    else if Wraps(ta, tb) then
      VPtr(Arrive(env, ta, Resolve(env, tb.elem), v))
    else
    match ta
    case TNum(k) => VNum(Land(k, v.n))
    case TPacked(k) => VNums(LandAll(k, v.ns))
    case TMsg(fa) => VMsg(ArriveFields(env, fa, tb.fields, v.vs, |fa|))
    case TOpt(e) =>
      if v.VNil? then VNil else VPtr(Arrive(env, Resolve(env, e), Resolve(env, tb.elem), v.v))
    case TRep(e) => VList(ArriveList(env, Resolve(env, e), Resolve(env, tb.elem), v.es))
    case TMap(k, e) =>
      VMap(ArriveEntries(env, k, Resolve(env, e), Resolve(env, tb.val), [], v.entries))
    case _ => v
  }

  /** The reader's fields once the writer's first `n` fields have been read. */
  ghost function ArriveFields(env: Env, fa: seq<Field>, fb: seq<Field>, vs: seq<Val>, n: nat)
    : (r: seq<Val>)
    requires TypedFields(env, fa, vs) && AgreeFields(env, fa, fb, vs)
    ensures |r| == |fb|
    decreases vs, 1
  {
    seq(|fb|, j requires 0 <= j < |fb| => ArriveField(env, fa, fb, vs, n, j))
  }

  ghost function ArriveField(env: Env, fa: seq<Field>, fb: seq<Field>, vs: seq<Val>, n: nat, j: nat)
    : Val
    requires TypedFields(env, fa, vs) && AgreeFields(env, fa, fb, vs) && j < |fb|
    decreases vs, 0
  {
    match FieldIndex(fa, fb[j].id)
    case None => Zero(fb[j].ty)
    case Some(i) =>
      if i < n && Reached(env, fa, fb, vs, i, j) then Arrive(env, fa[i].ty, fb[j].ty, vs[i])
      else Zero(fb[j].ty)
  }

  /** The first n of the writer's fields put no record with a larger number than `id` on the wire. */
  ghost predicate NoneAbove(env: Env, fa: seq<Field>, vs: seq<Val>, n: nat, id: nat)
    requires TypedFields(env, fa, vs) && n <= |fa|
  {
    forall h :: 0 <= h < n && fa[h].id > id ==> FieldRecords(env, fa[h], vs[h]) == []
  }

  /** The records of the writer's field i are stored in the reader's field j: both are exported, no field
      of the reader before j has a larger number, and neither has any record before those of i. */
  ghost predicate Reached(env: Env, fa: seq<Field>, fb: seq<Field>, vs: seq<Val>, i: nat, j: nat)
    requires TypedFields(env, fa, vs) && i < |fa| && j < |fb|
  {
    fa[i].exported && fb[j].exported && !Shadowed(fb, j) && NoneAbove(env, fa, vs, i, fa[i].id)
  }

  /** Types in increasing order have all their exported fields reached. */
  lemma InOrderReached(env: Env, fa: seq<Field>, fb: seq<Field>, vs: seq<Val>, i: nat, j: nat)
    requires TypedFields(env, fa, vs) && i < |fa| && j < |fb| && Increasing(fa) && Increasing(fb)
    requires fa[i].exported && fb[j].exported
    ensures Reached(env, fa, fb, vs, i, j)
  {
  }

  ghost function ArriveList(env: Env, ta: Ty, tb: Ty, es: seq<Val>): seq<Val>
    requires forall w :: w in es ==> Typed(env, ta, w) && Agree(env, ta, tb, w)
    decreases es, 0
  {
    if es == [] then []
    else if es[0].VNil? then ArriveList(env, ta, tb, es[1..])
    else [Arrive(env, ta, tb, es[0])] + ArriveList(env, ta, tb, es[1..])
  }

  ghost predicate AgreeEntries(env: Env, k: Ty, ta: Ty, tb: Ty, entries: seq<Entry>) {
    TypedEntries(env, k, ta, entries) &&
    forall i :: 0 <= i < |entries| ==> Agree(env, ta, tb, entries[i].val)
  }

  ghost function ArriveEntry(env: Env, k: Ty, ta: Ty, tb: Ty, e: Entry): Entry
    requires Typed(env, k, e.key) && Typed(env, ta, e.val) && Agree(env, ta, tb, e.val)
    decreases e, 0
  {
    Entry(if k.TNum? then VNum(Land(k.k, e.key.n)) else e.key, Arrive(env, ta, tb, e.val))
  }

  ghost function ArriveEntries(env: Env, k: Ty, ta: Ty, tb: Ty, acc: seq<Entry>, entries: seq<Entry>)
    : seq<Entry>
    requires AgreeEntries(env, k, ta, tb, entries)
    decreases entries, 0
  {
    if entries == [] then acc
    else
      var e := ArriveEntry(env, k, ta, tb, entries[0]);
      ArriveEntries(env, k, ta, tb, Insert(acc, e.key, e.val), entries[1..])
  }

  // ---------- scalars ----------

  lemma SvarintValue(n: int)
    requires NumOk(Int64, n)
    ensures Svarint(n) == if n >= 0 then 2 * n else -2 * n - 1
  {
  }

  lemma SignedLands(n: int)
    requires NumOk(Int64, n)
    ensures DecodeSigned(Varint(Svarint(n))) == Some(Land(Int64, n))
  {
    SvarintValue(n);
    var v := Svarint(n);
    assert v % TWO_64 == v;
    if n >= 0 {
      assert v / 2 == n && v % 2 == 0;
    } else {
      assert v / 2 == -n - 1 && v % 2 == 1;
    }
  }

  lemma NumLands(k: Kind, n: int)
    requires NumOk(k, n)
    ensures NumPayload(k, n).Valid() && NumPayload(k, n).WireType() == PackedWire(k)
    ensures NumFrom(k, NumPayload(k, n)) == Some(Land(k, n))
  {
    match k {
      case Int32 | Int64 =>
        SvarintLands(k, n);
      case Bool | Uint32 | Uint64 =>
      case Float32 | Ufixed32 =>
      case Sfixed32 => Wraps32(n);
      case Sfixed64 | Ufixed64 | Float64 => Fixed64Lands(k, n);
    }
  }

  lemma SvarintLands(k: Kind, n: int)
    requires k == Int32 || k == Int64
    requires NumOk(k, n)
    ensures NumPayload(k, n).Valid() && NumPayload(k, n).WireType() == PackedWire(k)
    ensures NumFrom(k, NumPayload(k, n)) == Some(Land(k, n))
  {
    SvarintValue(n);
    SignedLands(n);
  }

  lemma Fixed64Lands(k: Kind, n: int)
    requires k == Sfixed64 || k == Ufixed64 || k == Float64
    requires NumOk(k, n)
    ensures NumPayload(k, n).Valid() && NumPayload(k, n).WireType() == PackedWire(k)
    ensures NumFrom(k, NumPayload(k, n)) == Some(Land(k, n))
  {
    Wraps64(n);
  }

  lemma Wraps32(n: int)
    requires -TWO_31 <= n < TWO_31
    ensures ToInt32(n % TWO_32) == n && ToInt32(n) == n
  {
    assert n % TWO_32 == if n >= 0 then n else n + TWO_32;
  }

  lemma Wraps64(n: int)
    requires -TWO_63 <= n < TWO_64
    ensures n % TWO_64 == if n >= 0 then n else n + TWO_64
    ensures n < TWO_63 ==> ToInt64(n % TWO_64) == n
  {
    assert n % TWO_64 == if n >= 0 then n else n + TWO_64;
  }

  /** Signed varints survive exactly when they have at most 62 bits of magnitude. */
  lemma SignedVarintExact(n: int)
    requires NumOk(Int64, n)
    ensures DecodeSigned(Varint(Svarint(n))) == Some(n) <==> -TWO_62 <= n < TWO_62
  {
    SignedLands(n);
  }

  lemma LandAllStep(k: Kind, ns: seq<int>)
    requires ns != []
    ensures LandAll(k, ns) == [Land(k, ns[0])] + LandAll(k, ns[1..])
  {
  }

  lemma {:induction false} PackedLands(k: Kind, acc: seq<int>, ns: seq<int>)
    requires forall n :: n in ns ==> NumOk(k, n)
    ensures DecodePacked(k, acc, PackedBytes(k, ns)) == Ok(acc + LandAll(k, ns))
    decreases |ns|
  {
    hide NumFrom, NumPayload, PackedWire, ReadPayload, Land;
    if ns == [] {
      assert acc + LandAll(k, ns) == acc;
    } else {
      var p, rest := NumPayload(k, ns[0]), PackedBytes(k, ns[1..]);
      NumLands(k, ns[0]);
      ReadPayloadBytes(p, rest);
      PackedLands(k, acc + [Land(k, ns[0])], ns[1..]);
      LandAllStep(k, ns);
      assert acc + LandAll(k, ns) == acc + [Land(k, ns[0])] + LandAll(k, ns[1..]);
    }
  }

  // ---------- one field at a time ----------

  /** Storing several payloads one after the other. */
  ghost function PutAll(env: Env, t: Ty, cur: Val, ps: seq<Payload>): (r: Result<Val>)
    requires Readable(env, t) && Shape(env, t, cur)
    ensures r.Ok? ==> Shape(env, t, r.value)
    decreases |ps|
  {
    if ps == [] then Ok(cur)
    else
      match PutVal(env, t, cur, ps[0])
      case Err => Err
      case Ok(v) => PutAll(env, t, v, ps[1..])
  }

  lemma {:induction false} PutAllConcat(env: Env, t: Ty, cur: Val, ps: seq<Payload>, qs: seq<Payload>)
    requires Readable(env, t) && Shape(env, t, cur)
    ensures PutAll(env, t, cur, ps + qs) ==
            match PutAll(env, t, cur, ps) case Err => Err case Ok(v) => PutAll(env, t, v, qs)
    decreases |ps|
  {
    if ps == [] {
      assert ps + qs == qs;
    } else {
      assert (ps + qs)[1..] == ps[1..] + qs;
      match PutVal(env, t, cur, ps[0]) {
        case Err =>
        case Ok(v) => PutAllConcat(env, t, v, ps[1..], qs);
      }
    }
  }

  ghost predicate AllValid(ps: seq<Payload>) {
    forall i :: 0 <= i < |ps| ==> ps[i].Valid()
  }

  /** The first record of a buffer is split off exactly. */
  lemma RecordSplits(id: nat, p: Payload, rest: seq<Byte>)
    requires id < TWO_61 && p.Valid()
    ensures var buf := Record(id, p) + rest;
            && Uvarint(buf).Some?
            && var (key, n) := Uvarint(buf).value;
            && key / 8 == id && key % 8 == p.WireType()
            && ReadPayload(key % 8, buf[n..]) == Some((p, rest))
  {
    var k := Key(id, p.WireType());
    KeySplits(id, p.WireType());
    assert Record(id, p) + rest == PutUvarint(k) + (p.Bytes() + rest);
    UvarintPut(k, p.Bytes() + rest);
    ReadPayloadBytes(p, rest);
  }

  // ---------- the field cursor ----------

  /** The cursor cannot meet field j any more: it is past it, or not beyond a field before it with a
      larger number. */
  ghost predicate Lost(fs: seq<Field>, fi: nat, j: nat)
    requires j < |fs|
  {
    fi > j || exists i :: fi <= i < j && fs[i].id > fs[j].id
  }

  lemma AdvanceLost(fs: seq<Field>, fi: nat, id: nat, j: nat)
    requires fi <= |fs| && j < |fs| && Lost(fs, fi, j)
    ensures Lost(fs, Advance(fs, fi, id), j)
  {
    var c := Advance(fs, fi, id);
    if c <= j {
      var i :| fi <= i < j && fs[i].id > fs[j].id;
      if i < c { assert c < j && fs[c].id > fs[j].id; }
    }
  }

  /** No shadowed field can be met. */
  ghost predicate Stuck(fs: seq<Field>, fi: nat) {
    forall j :: 0 <= j < |fs| && Shadowed(fs, j) ==> Lost(fs, fi, j)
  }

  lemma StuckAtStart(fs: seq<Field>)
    ensures Stuck(fs, 0)
  {
  }

  lemma AdvanceStuck(fs: seq<Field>, fi: nat, id: nat)
    requires fi <= |fs| && Stuck(fs, fi)
    ensures Stuck(fs, Advance(fs, fi, id))
  {
    forall j | 0 <= j < |fs| && Shadowed(fs, j) ensures Lost(fs, Advance(fs, fi, id), j) {
      AdvanceLost(fs, fi, id, j);
    }
  }

  /** How far a record moves the cursor, seen from a field that is not shadowed. */
  lemma AdvancePast(fs: seq<Field>, fi: nat, id: nat, k: nat)
    requires fi <= |fs| && k < |fs| && !Shadowed(fs, k)
    ensures Advance(fs, fi, id) <= k <==> fi <= k && id <= fs[k].id
  {
    var c := Advance(fs, fi, id);
    assert c < k ==> fs[c].id <= fs[k].id;
  }

  /** The reader's field for records under `id`, if the cursor can still meet it. */
  ghost predicate Meets(fs: seq<Field>, fi: nat, id: nat, j: nat) {
    j < |fs| && fs[j].id == id && fs[j].exported && fi <= j && !Shadowed(fs, j)
  }

  ghost predicate MeetsNone(fs: seq<Field>, fi: nat, id: nat) {
    forall j :: 0 <= j < |fs| && fs[j].id == id ==> fi > j || Shadowed(fs, j) || Ignored(fs[j])
  }

  predicate Ignored(f: Field) {
    !f.exported && !f.ty.TOpt?
  }

  /** Where the cursor stops: at the field of that number, if it can be met, and otherwise at a field
      of another number or at the end. */
  lemma AdvanceMeets(fs: seq<Field>, fi: nat, id: nat)
    requires DistinctIds(fs) && fi <= |fs| && Stuck(fs, fi)
    ensures forall j: nat :: Meets(fs, fi, id, j) ==> Advance(fs, fi, id) == j
    ensures MeetsNone(fs, fi, id) ==>
              var c := Advance(fs, fi, id);
              c == |fs| || fs[c].id != id || Ignored(fs[c])
  {
    var c := Advance(fs, fi, id);
    AdvanceStuck(fs, fi, id);
    forall j: nat | Meets(fs, fi, id, j) ensures c == j {
      AdvancePast(fs, fi, id, j);
    }
  }

  /** The cursor from fi on after the records ps under `id`, seen from the fields it may still meet. */
  ghost predicate Moved(fs: seq<Field>, fi: nat, id: nat, ps: seq<Payload>, fi': nat) {
    && fi' <= |fs| && Stuck(fs, fi')
    && forall k :: 0 <= k < |fs| && !Shadowed(fs, k) ==> (fi' <= k <==> fi <= k && (ps == [] || id <= fs[k].id))
  }

  lemma AdvanceMoved(fs: seq<Field>, fi: nat, id: nat, p: Payload, qs: seq<Payload>, fi': nat)
    requires fi <= |fs| && Stuck(fs, fi) && Moved(fs, Advance(fs, fi, id), id, qs, fi')
    ensures Moved(fs, fi, id, [p] + qs, fi')
  {
    hide Stuck, Shadowed;
    forall k | 0 <= k < |fs| && !Shadowed(fs, k)
      ensures fi' <= k <==> fi <= k && id <= fs[k].id
    {
      AdvancePast(fs, fi, id, k);
    }
  }

  /** Reading one record: it is stored in the reader's field of that number if the cursor can meet
      it, and skipped otherwise. */
  lemma RecordLands(env: Env, fs: seq<Field>, cur: seq<Val>, fi: nat, id: nat, p: Payload, rest: seq<Byte>)
    requires Readable(env, TMsg(fs)) && DistinctIds(fs) && Shapes(env, fs, cur) && fi <= |fs| && Stuck(fs, fi)
    requires id < TWO_61 && p.Valid()
    ensures MeetsNone(fs, fi, id) ==>
              DecodeFields(env, fs, cur, fi, Record(id, p) + rest) ==
              DecodeFields(env, fs, cur, Advance(fs, fi, id), rest)
    ensures forall j: nat :: Meets(fs, fi, id, j) ==>
              DecodeFields(env, fs, cur, fi, Record(id, p) + rest) ==
              match PutVal(env, fs[j].ty, cur[j], p)
              case Err => Err
              case Ok(v) => DecodeFields(env, fs, cur[j := v], j, rest)
  {
    hide Stuck, Shadowed, DistinctIds;
    RecordSplits(id, p, rest);
    AdvanceMeets(fs, fi, id);
    forall j: nat | Meets(fs, fi, id, j) ensures Readable(env, fs[j].ty) {
      assert fs[j] in fs;
    }
  }

  /** Reading all records of a field that the cursor can meet: they are stored in that field. */
  lemma {:induction false} FieldStored(env: Env, fs: seq<Field>, cur: seq<Val>, fi: nat, j: nat,
                                       ps: seq<Payload>, rest: seq<Byte>) returns (fi': nat)
    requires Readable(env, TMsg(fs)) && DistinctIds(fs) && Shapes(env, fs, cur) && fi <= |fs| && Stuck(fs, fi)
    requires j < |fs| && Meets(fs, fi, fs[j].id, j)
    requires AllValid(ps) && PutAll(env, fs[j].ty, cur[j], ps).Ok?
    ensures Moved(fs, fi, fs[j].id, ps, fi')
    ensures var v := PutAll(env, fs[j].ty, cur[j], ps).value;
            DecodeFields(env, fs, cur, fi, Emit(fs[j].id, ps) + rest) ==
            DecodeFields(env, fs, cur[j := v], fi', rest)
    decreases |ps|
  {
    hide DecodeFields, PutVal, Shape, Record, Stuck, Shadowed, Moved;
    var id := fs[j].id;
    if ps == [] {
      fi' := fi;
      NotMoved(fs, fi, id);
      assert Emit(id, ps) + rest == rest;
      assert cur[j := cur[j]] == cur;
    } else {
      var more := Emit(id, ps[1..]) + rest;
      assert Emit(id, ps) + rest == Record(id, ps[0]) + more;
      RecordLands(env, fs, cur, fi, id, ps[0], more);
      AdvanceMeets(fs, fi, id);
      AdvanceStuck(fs, fi, id);
      var v := PutVal(env, fs[j].ty, cur[j], ps[0]).value;
      var cur' := cur[j := v];
      fi' := FieldStored(env, fs, cur', j, j, ps[1..], rest);
      var w := PutAll(env, fs[j].ty, v, ps[1..]).value;
      assert cur'[j := w] == cur[j := w];
      AdvanceMoved(fs, fi, id, ps[0], ps[1..], fi');
      assert ps == [ps[0]] + ps[1..];
    }
  }

  lemma NotMoved(fs: seq<Field>, fi: nat, id: nat)
    requires fi <= |fs| && Stuck(fs, fi)
    ensures Moved(fs, fi, id, [], fi)
  {
  }

  lemma FieldIndexIs(fs: seq<Field>, j: nat)
    requires DistinctIds(fs) && j < |fs|
    ensures FieldIndex(fs, fs[j].id) == Some(j)
  {
    var i := FieldIndex(fs, fs[j].id).value;
    assert i == j;
  }

  /** Reading all records of a field that the cursor does not meet: they are skipped. */
  lemma {:induction false} FieldSkipped(env: Env, fs: seq<Field>, cur: seq<Val>, fi: nat, id: nat,
                                        ps: seq<Payload>, rest: seq<Byte>) returns (fi': nat)
    requires Readable(env, TMsg(fs)) && DistinctIds(fs) && Shapes(env, fs, cur) && fi <= |fs| && Stuck(fs, fi)
    requires id < TWO_61 && AllValid(ps) && MeetsNone(fs, fi, id)
    ensures Moved(fs, fi, id, ps, fi')
    ensures DecodeFields(env, fs, cur, fi, Emit(id, ps) + rest) == DecodeFields(env, fs, cur, fi', rest)
    decreases |ps|
  {
    hide DecodeFields, PutVal, Supported, Shapes, Shape, Record, Stuck, Shadowed, Moved;
    if ps == [] {
      fi' := fi;
      NotMoved(fs, fi, id);
      assert Emit(id, ps) + rest == rest;
    } else {
      var more := Emit(id, ps[1..]) + rest;
      assert Emit(id, ps) + rest == Record(id, ps[0]) + more;
      RecordLands(env, fs, cur, fi, id, ps[0], more);
      AdvanceStuck(fs, fi, id);
      fi' := FieldSkipped(env, fs, cur, Advance(fs, fi, id), id, ps[1..], rest);
      AdvanceMoved(fs, fi, id, ps[0], ps[1..], fi');
      assert ps == [ps[0]] + ps[1..];
    }
  }

  // ---------- whole values ----------

  ghost predicate Codable(env: Env, t: Ty) {
    Readable(env, t) && NumberedEnv(env) && Numbered(t)
  }

  ghost predicate Short(ps: seq<Payload>) {
    forall i :: 0 <= i < |ps| && ps[i].Delim? ==> |ps[i].b| < TWO_63
  }

  /** Every length-delimited payload that a message itself carries fits a Go int. */
  ghost predicate ShortFields(env: Env, fs: seq<Field>, vs: seq<Val>)
    requires TypedFields(env, fs, vs)
  {
    forall i :: 0 <= i < |fs| ==> Short(FieldRecords(env, fs[i], vs[i]))
  }

  lemma {:induction false} FieldsShort(env: Env, fs: seq<Field>, vs: seq<Val>)
    requires TypedFields(env, fs, vs) && |FieldBytes(env, fs, vs)| < TWO_63
    ensures ShortFields(env, fs, vs)
    decreases |fs|
  {
    if fs != [] {
      EmitLonger(fs[0].id, FieldRecords(env, fs[0], vs[0]));
      assert TypedFields(env, fs[1..], vs[1..]);
      FieldsShort(env, fs[1..], vs[1..]);
      forall i | 0 <= i < |fs| ensures Short(FieldRecords(env, fs[i], vs[i])) {
        if i > 0 { assert fs[i] == fs[1..][i - 1] && vs[i] == vs[1..][i - 1]; }
      }
    }
  }

  lemma ElemCodable(env: Env, t: Ty)
    requires Codable(env, t) && (t.TOpt? || t.TRep?)
    ensures Codable(env, Resolve(env, t.elem))
  {
  }

  lemma ValCodable(env: Env, t: Ty)
    requires Codable(env, t) && t.TMap?
    ensures Codable(env, Resolve(env, t.val)) && Codable(env, t.key)
  {
  }

  lemma {:induction false} RecordsValid(env: Env, t: Ty, v: Val)
    requires Typed(env, t, v) && Short(Records(env, t, v))
    ensures AllValid(Records(env, t, v))
    decreases v, 1
  {
    match t {
      case TNum(k) => NumLands(k, v.n);
      case TOpt(e) => if v.VPtr? { RecordsValid(env, Resolve(env, e), v.v); }
      case TRep(e) => ListValid(env, Resolve(env, e), v.es);
      case TMap(k, e) => EntriesDelimited(env, k, Resolve(env, e), v.entries);
      case _ =>
    }
  }

  lemma {:induction false} ListValid(env: Env, t: Ty, es: seq<Val>)
    requires forall w :: w in es ==> Typed(env, t, w)
    requires Short(ListRecords(env, t, es))
    ensures AllValid(ListRecords(env, t, es))
    decreases es, 0
  {
    if es != [] {
      var ps, qs := Records(env, t, es[0]), ListRecords(env, t, es[1..]);
      assert ListRecords(env, t, es) == ps + qs;
      ShortParts(ps, qs);
      RecordsValid(env, t, es[0]);
      ListValid(env, t, es[1..]);
    }
  }

  lemma ShortParts(ps: seq<Payload>, qs: seq<Payload>)
    requires Short(ps + qs)
    ensures Short(ps) && Short(qs)
  {
    forall i | 0 <= i < |ps| && ps[i].Delim? ensures |ps[i].b| < TWO_63 {
      assert (ps + qs)[i] == ps[i];
    }
    forall i | 0 <= i < |qs| && qs[i].Delim? ensures |qs[i].b| < TWO_63 {
      assert (ps + qs)[|ps| + i] == qs[i];
    }
  }

  lemma {:induction false} EntriesDelimited(env: Env, k: Ty, t: Ty, entries: seq<Entry>)
    requires TypedEntries(env, k, t, entries)
    ensures |EntryRecords(env, k, t, entries)| == |entries|
    ensures forall i :: 0 <= i < |entries| ==>
              EntryRecords(env, k, t, entries)[i] == Delim(EntryBytes(env, k, t, entries[i]))
    decreases |entries|
  {
    if entries != [] { EntriesDelimited(env, k, t, entries[1..]); }
  }

  lemma SingleRecord(env: Env, t: Ty, v: Val)
    requires Typed(env, t, v) && Single(t)
    ensures |Records(env, t, v)| == 1
    ensures Delimited(t) ==> Records(env, t, v)[0].Delim?
  {
  }

  /** Reading payloads into a fresh variable. */
  ghost function Read(env: Env, t: Ty, ps: seq<Payload>): (r: Result<Val>)
    requires Readable(env, t)
    ensures r.Ok? ==> Shape(env, t, r.value)
  {
    ZeroShape(env, t);
    PutAll(env, t, Zero(t), ps)
  }

  lemma ReadOne(env: Env, t: Ty, p: Payload)
    requires Readable(env, t)
    ensures Shape(env, t, Zero(t)) && Read(env, t, [p]) == PutVal(env, t, Zero(t), p)
  {
    ZeroShape(env, t);
    match PutVal(env, t, Zero(t), p) {
      case Err =>
      case Ok(v) => assert PutAll(env, t, v, [p][1..]) == Ok(v);
    }
  }

  /** What the writer emits for a value, read into a fresh variable of the reader's type, is
      exactly what `Arrive` says. */
  lemma {:induction false} ValueLands(env: Env, ta: Ty, tb: Ty, v: Val)
    requires Codable(env, ta) && Codable(env, tb) && Typed(env, ta, v) && Agree(env, ta, tb, v)
    requires Short(Records(env, ta, v))
    ensures Read(env, tb, Records(env, ta, v)) == Ok(Arrive(env, ta, tb, v))
    decreases v, if Wraps(ta, tb) then 5 else 3
  {
    if Unwraps(ta, tb) {
      UnwrappedLands(env, ta, tb, v);
    } else if Wraps(ta, tb) {
      WrappedLands(env, ta, tb, v);
    } else {
      SameLands(env, ta, tb, v);
    }
  }

  /** A pointer read into a plain variable: what it points to arrives there. */
  lemma {:induction false} UnwrappedLands(env: Env, ta: Ty, tb: Ty, v: Val)
    requires Codable(env, ta) && Codable(env, tb) && Typed(env, ta, v) && Agree(env, ta, tb, v)
    requires Short(Records(env, ta, v)) && Unwraps(ta, tb)
    ensures Read(env, tb, Records(env, ta, v)) == Ok(Arrive(env, ta, tb, v))
    decreases v, 2
  {
    if v.VPtr? {
      ElemCodable(env, ta);
      ValueLands(env, Resolve(env, ta.elem), tb, v.v);
    }
  }

  /** A plain value read into a pointer: it arrives in a new variable. */
  lemma {:induction false} WrappedLands(env: Env, ta: Ty, tb: Ty, v: Val)
    requires Codable(env, ta) && Codable(env, tb) && Typed(env, ta, v) && Agree(env, ta, tb, v)
    requires Short(Records(env, ta, v)) && Wraps(ta, tb)
    ensures Read(env, tb, Records(env, ta, v)) == Ok(Arrive(env, ta, tb, v))
    decreases v, 4
  {
    var sb := Resolve(env, tb.elem);
    ElemCodable(env, tb);
    ValueLands(env, ta, sb, v);
    SingleRecord(env, ta, v);
    var ps := Records(env, ta, v);
    assert ps == [ps[0]];
    ReadOne(env, sb, ps[0]);
    ReadOne(env, tb, ps[0]);
  }

  lemma {:induction false} SameLands(env: Env, ta: Ty, tb: Ty, v: Val)
    requires Codable(env, ta) && Codable(env, tb) && Typed(env, ta, v) && Agree(env, ta, tb, v)
    requires Short(Records(env, ta, v)) && !Unwraps(ta, tb) && !Wraps(ta, tb)
    ensures Read(env, tb, Records(env, ta, v)) == Ok(Arrive(env, ta, tb, v))
    decreases v, 2
  {
    ZeroShape(env, tb);
    match ta {
      case TNum(k) =>
        NumLands(k, v.n);
        ReadOne(env, tb, Records(env, ta, v)[0]);
      case TBlob => ReadOne(env, tb, Records(env, ta, v)[0]);
      case TArray(_) => ReadOne(env, tb, Records(env, ta, v)[0]);
      case TPacked(k) =>
        ReadOne(env, tb, Records(env, ta, v)[0]);
        PackedLands(k, [], v.ns);
        assert [] + LandAll(k, v.ns) == LandAll(k, v.ns);
      case TMsg(fa) =>
        var p := Records(env, ta, v)[0];
        ReadOne(env, tb, p);
        ZeroMsg(tb.fields);
        FieldsShort(env, fa, v.vs);
        MessageLands(env, fa, tb.fields, v.vs);
      case TOpt(e) => if v.VPtr? { PointerLands(env, ta, tb, v); }
      case TRep(e) =>
        ElemCodable(env, ta);
        ElemCodable(env, tb);
        ListLands(env, Resolve(env, e), tb, [], v.es);
        assert [] + ArriveList(env, Resolve(env, e), Resolve(env, tb.elem), v.es)
            == ArriveList(env, Resolve(env, e), Resolve(env, tb.elem), v.es);
      case TMap(k, e) =>
        ValCodable(env, ta);
        ValCodable(env, tb);
        EntriesLand(env, Resolve(env, e), tb, [], v.entries);
    }
  }

  lemma {:induction false} PointerLands(env: Env, ta: Ty, tb: Ty, v: Val)
    requires Codable(env, ta) && Codable(env, tb) && Typed(env, ta, v) && Agree(env, ta, tb, v)
    requires ta.TOpt? && tb.TOpt? && v.VPtr? && Short(Records(env, ta, v))
    ensures Read(env, tb, Records(env, ta, v)) == Ok(Arrive(env, ta, tb, v))
    decreases v, 1
  {
    var sa, sb := Resolve(env, ta.elem), Resolve(env, tb.elem);
    ElemCodable(env, ta);
    ElemCodable(env, tb);
    ValueLands(env, sa, sb, v.v);
    SingleRecord(env, sa, v.v);
    var ps := Records(env, sa, v.v);
    assert ps == [ps[0]];
    ReadOne(env, sb, ps[0]);
    ReadOne(env, tb, ps[0]);
  }

  /** One element of a repeated field: a fresh variable read from one record and appended. */
  lemma ElementLands(env: Env, sa: Ty, tb: Ty, acc: seq<Val>, w: Val)
    requires Codable(env, tb) && tb.TRep? && Typed(env, sa, w) && Repeatable(env, sa) && !w.VNil?
    requires Agree(env, sa, Resolve(env, tb.elem), w)
    requires Codable(env, Resolve(env, tb.elem))
    requires Read(env, Resolve(env, tb.elem), Records(env, sa, w)) ==
             Ok(Arrive(env, sa, Resolve(env, tb.elem), w))
    ensures PutAll(env, tb, VList(acc), Records(env, sa, w)) ==
            Ok(VList(acc + [Arrive(env, sa, Resolve(env, tb.elem), w)]))
  {
    var ps := Records(env, sa, w);
    if sa.TOpt? { SingleRecord(env, Resolve(env, sa.elem), w.v); }
    assert ps == [ps[0]] && ps[0].Delim?;
    ReadOne(env, Resolve(env, tb.elem), ps[0]);
    var r := VList(acc + [Arrive(env, sa, Resolve(env, tb.elem), w)]);
    assert PutVal(env, tb, VList(acc), ps[0]) == Ok(r);
    assert PutAll(env, tb, r, ps[1..]) == Ok(r);
  }

  lemma {:induction false} ListLands(env: Env, sa: Ty, tb: Ty, acc: seq<Val>, es: seq<Val>)
    requires Codable(env, sa) && Codable(env, tb) && tb.TRep? && Repeatable(env, sa)
    requires Codable(env, Resolve(env, tb.elem))
    requires forall w :: w in es ==> Typed(env, sa, w) && Agree(env, sa, Resolve(env, tb.elem), w)
    requires Short(ListRecords(env, sa, es))
    ensures PutAll(env, tb, VList(acc), ListRecords(env, sa, es)) ==
            Ok(VList(acc + ArriveList(env, sa, Resolve(env, tb.elem), es)))
    decreases es, 0
  {
    hide Agree, Arrive, PutVal, Short;
    var sb := Resolve(env, tb.elem);
    if es == [] {
      assert acc + ArriveList(env, sa, sb, es) == acc;
    } else {
      ShortParts(Records(env, sa, es[0]), ListRecords(env, sa, es[1..]));
      if es[0].VNil? {
        assert ListRecords(env, sa, es) == ListRecords(env, sa, es[1..]);
        ListLands(env, sa, tb, acc, es[1..]);
      } else {
        ValueLands(env, sa, sb, es[0]);
        var x := Arrive(env, sa, sb, es[0]);
        ElementThenRest(env, sa, tb, acc, es[0], ListRecords(env, sa, es[1..]));
        ListLands(env, sa, tb, acc + [x], es[1..]);
        assert acc + ArriveList(env, sa, sb, es) == acc + [x] + ArriveList(env, sa, sb, es[1..]);
      }
    }
  }

  lemma ElementThenRest(env: Env, sa: Ty, tb: Ty, acc: seq<Val>, w: Val, qs: seq<Payload>)
    requires Codable(env, tb) && tb.TRep? && Typed(env, sa, w) && Repeatable(env, sa) && !w.VNil?
    requires Agree(env, sa, Resolve(env, tb.elem), w)
    requires Codable(env, Resolve(env, tb.elem))
    requires Read(env, Resolve(env, tb.elem), Records(env, sa, w)) ==
             Ok(Arrive(env, sa, Resolve(env, tb.elem), w))
    ensures PutAll(env, tb, VList(acc), Records(env, sa, w) + qs) ==
            PutAll(env, tb, VList(acc + [Arrive(env, sa, Resolve(env, tb.elem), w)]), qs)
  {
    ElementLands(env, sa, tb, acc, w);
    PutAllConcat(env, tb, VList(acc), Records(env, sa, w), qs);
  }

  /** The value records of a map entry are stored one after the other, whatever their number. */
  lemma {:induction false} EntryValueLands(env: Env, t: Ty, cur: Val, ps: seq<Payload>)
    requires Readable(env, t) && Shape(env, t, cur) && AllValid(ps)
    ensures DecodeEntryValue(env, t, cur, Emit(2, ps)) == PutAll(env, t, cur, ps)
    decreases |ps|
  {
    if ps != [] {
      RecordSplits(2, ps[0], Emit(2, ps[1..]));
      match PutVal(env, t, cur, ps[0]) {
        case Err =>
        case Ok(v) => EntryValueLands(env, t, v, ps[1..]);
      }
    }
  }

  lemma KeyLands(env: Env, k: Ty, key: Val)
    requires SupportedEnv(env) && MapKey(k) && Typed(env, k, key) && Short(Records(env, k, key))
    ensures |Records(env, k, key)| == 1 && Shape(env, k, Zero(k))
    ensures PutVal(env, k, Zero(k), Records(env, k, key)[0]) ==
            Ok(if k.TNum? then VNum(Land(k.k, key.n)) else key)
  {
    ZeroShape(env, k);
    if k.TNum? { NumLands(k.k, key.n); }
  }

  /** A map entry is split into its key record and its value records. */
  lemma EntryParses(env: Env, k: Ty, t: Ty, kp: Payload, vp: seq<Payload>, key: Val, val: Val)
    requires Readable(env, k) && Readable(env, t) && kp.Valid() && AllValid(vp)
    requires Shape(env, k, Zero(k)) && PutVal(env, k, Zero(k), kp) == Ok(key)
    requires Read(env, t, vp) == Ok(val)
    ensures DecodeEntry(env, k, t, Record(1, kp) + Emit(2, vp)) == Ok(Entry(key, val))
  {
    RecordSplits(1, kp, Emit(2, vp));
    ZeroShape(env, t);
    EntryValueLands(env, t, Zero(t), vp);
  }

  lemma {:induction false} EntryLands(env: Env, k: Ty, sa: Ty, sb: Ty, e: Entry)
    requires Codable(env, sa) && Codable(env, sb) && MapKey(k)
    requires Typed(env, k, e.key) && Typed(env, sa, e.val) && Agree(env, sa, sb, e.val)
    requires |EntryBytes(env, k, sa, e)| < TWO_63
    ensures DecodeEntry(env, k, sb, EntryBytes(env, k, sa, e)) == Ok(ArriveEntry(env, k, sa, sb, e))
    decreases e, 0
  {
    var kp, vp := Records(env, k, e.key), Records(env, sa, e.val);
    EmitLonger(1, kp);
    EmitLonger(2, vp);
    assert Short(kp) && Short(vp);
    KeyLands(env, k, e.key);
    RecordsValid(env, k, e.key);
    RecordsValid(env, sa, e.val);
    ValueLands(env, sa, sb, e.val);
    assert kp == [kp[0]];
    EmitOne(1, kp[0]);
    var a := ArriveEntry(env, k, sa, sb, e);
    EntryParses(env, k, sb, kp[0], vp, a.key, a.val);
  }

  lemma {:induction false} EntriesLand(env: Env, sa: Ty, tb: Ty, acc: seq<Entry>, entries: seq<Entry>)
    requires Codable(env, sa) && Codable(env, tb) && tb.TMap?
    requires Codable(env, Resolve(env, tb.val))
    requires AgreeEntries(env, tb.key, sa, Resolve(env, tb.val), entries)
    requires Short(EntryRecords(env, tb.key, sa, entries))
    ensures PutAll(env, tb, VMap(acc), EntryRecords(env, tb.key, sa, entries)) ==
            Ok(VMap(ArriveEntries(env, tb.key, sa, Resolve(env, tb.val), acc, entries)))
    decreases entries, 0
  {
    if entries != [] {
      var sb, e := Resolve(env, tb.val), entries[0];
      var ps, qs := [Delim(EntryBytes(env, tb.key, sa, e))], EntryRecords(env, tb.key, sa, entries[1..]);
      ShortParts(ps, qs);
      assert ps[0].Delim? && |ps[0].b| < TWO_63;
      EntryLands(env, tb.key, sa, sb, e);
      var a := ArriveEntry(env, tb.key, sa, sb, e);
      EntriesLand(env, sa, tb, Insert(acc, a.key, a.val), entries[1..]);
    }
  }

  lemma {:induction false} MessageLands(env: Env, fa: seq<Field>, fb: seq<Field>, vs: seq<Val>)
    requires Codable(env, TMsg(fa)) && Codable(env, TMsg(fb))
    requires TypedFields(env, fa, vs) && AgreeFields(env, fa, fb, vs)
    requires ShortFields(env, fa, vs)
    ensures Decode(env, fb, FieldBytes(env, fa, vs)) == Ok(ArriveFields(env, fa, fb, vs, |fa|))
    decreases vs, 2
  {
    ZerosShape(env, fb);
    assert ArriveFields(env, fa, fb, vs, 0) == Zeros(fb);
    assert fa[0..] == fa && vs[0..] == vs;
    StuckAtStart(fb);
    FieldsLand(env, fa, fb, vs, 0, 0);
  }

  /** The reader's cursor once the writer's first n fields have been read: a field that is not
      shadowed can still be met exactly if no larger number has come. */
  ghost predicate CursorAt(env: Env, fa: seq<Field>, fb: seq<Field>, vs: seq<Val>, n: nat, fi: nat)
    requires TypedFields(env, fa, vs) && n <= |fa|
  {
    && fi <= |fb| && Stuck(fb, fi)
    && forall k :: 0 <= k < |fb| && !Shadowed(fb, k) ==> (fi <= k <==> NoneAbove(env, fa, vs, n, fb[k].id))
  }

  lemma CursorMoves(env: Env, fa: seq<Field>, fb: seq<Field>, vs: seq<Val>, n: nat, fi: nat, fi': nat)
    requires TypedFields(env, fa, vs) && n < |fa| && CursorAt(env, fa, fb, vs, n, fi)
    requires Moved(fb, fi, fa[n].id, FieldRecords(env, fa[n], vs[n]), fi')
    ensures fi' <= |fb| && CursorAt(env, fa, fb, vs, n + 1, fi')
  {
    hide Stuck, Shadowed, FieldRecords;
    forall k | 0 <= k < |fb| && !Shadowed(fb, k)
      ensures fi' <= k <==> NoneAbove(env, fa, vs, n + 1, fb[k].id)
    {
      assert NoneAbove(env, fa, vs, n + 1, fb[k].id) <==>
             NoneAbove(env, fa, vs, n, fb[k].id) && (fa[n].id > fb[k].id ==> FieldRecords(env, fa[n], vs[n]) == []);
    }
  }

  /** The loop invariant of reading a message: after the writer's first `n` fields the reader holds
      `ArriveFields(n)`, and reading the rest completes it. */
  lemma {:induction false} FieldsLand(env: Env, fa: seq<Field>, fb: seq<Field>, vs: seq<Val>, n: nat, fi: nat)
    requires Codable(env, TMsg(fa)) && Codable(env, TMsg(fb))
    requires TypedFields(env, fa, vs) && AgreeFields(env, fa, fb, vs)
    requires n <= |fa| && CursorAt(env, fa, fb, vs, n, fi)
    requires TypedFields(env, fa[n..], vs[n..]) && ShortFields(env, fa, vs)
    requires Shapes(env, fb, ArriveFields(env, fa, fb, vs, n))
    ensures DecodeFields(env, fb, ArriveFields(env, fa, fb, vs, n), fi, FieldBytes(env, fa[n..], vs[n..]))
         == Ok(ArriveFields(env, fa, fb, vs, |fa|))
    decreases vs, 1, |fa| - n
  {
    hide CursorAt;
    CursorWithin(env, fa, fb, vs, n, fi);
    if n < |fa| {
      var fi' := FieldLandsAt(env, fa, fb, vs, n, fi);
      FieldsLand(env, fa, fb, vs, n + 1, fi');
    }
  }

  lemma CursorWithin(env: Env, fa: seq<Field>, fb: seq<Field>, vs: seq<Val>, n: nat, fi: nat)
    requires TypedFields(env, fa, vs) && n <= |fa| && CursorAt(env, fa, fb, vs, n, fi)
    ensures fi <= |fb| && Stuck(fb, fi)
    ensures n < |fa| && fa[n].exported ==> forall j :: 0 <= j < |fb| && fb[j].id == fa[n].id ==>
              (Reached(env, fa, fb, vs, n, j) <==> Meets(fb, fi, fa[n].id, j))
  {
  }

  lemma {:induction false} FieldLandsAt(env: Env, fa: seq<Field>, fb: seq<Field>, vs: seq<Val>, n: nat, fi: nat)
    returns (fi': nat)
    requires Codable(env, TMsg(fa)) && Codable(env, TMsg(fb))
    requires TypedFields(env, fa, vs) && AgreeFields(env, fa, fb, vs)
    requires n < |fa| && fi <= |fb| && CursorAt(env, fa, fb, vs, n, fi)
    requires TypedFields(env, fa[n..], vs[n..]) && ShortFields(env, fa, vs)
    requires Shapes(env, fb, ArriveFields(env, fa, fb, vs, n))
    ensures fi' <= |fb| && CursorAt(env, fa, fb, vs, n + 1, fi')
    ensures Shapes(env, fb, ArriveFields(env, fa, fb, vs, n + 1))
    ensures TypedFields(env, fa[n + 1..], vs[n + 1..])
    ensures DecodeFields(env, fb, ArriveFields(env, fa, fb, vs, n), fi, FieldBytes(env, fa[n..], vs[n..]))
         == DecodeFields(env, fb, ArriveFields(env, fa, fb, vs, n + 1), fi',
                         FieldBytes(env, fa[n + 1..], vs[n + 1..]))
    decreases vs, 0
  {
    hide DecodeFields, PutVal, PutAll, Arrive, Agree, AgreeFields, Supported, Numbered;
    hide CursorAt, Stuck, Shadowed, Reached, Moved;
    NumberedDistinct(fa);
    NumberedDistinct(fb);
    CursorWithin(env, fa, fb, vs, n, fi);
    var cur := ArriveFields(env, fa, fb, vs, n);
    var id, ps, rest := FieldBytesStep(env, fa, vs, n);
    var at := FieldIndex(fb, id);
    FieldNumbers(fa);
    if !fa[n].exported {
      fi' := fi;
      NotMoved(fb, fi, id);
      NotReached(env, fa, fb, vs, n);
      ArriveFieldsSkip(env, fa, fb, vs, n);
      assert Emit(id, []) + rest == rest;
    } else if at.Some? && Reached(env, fa, fb, vs, n, at.value) {
      var j := at.value;
      ReachedExported(env, fa, fb, vs, n, j);
      FieldsCodable(env, fa, n);
      FieldsCodable(env, fb, j);
      FieldAgrees(env, fa, fb, vs, n, j);
      ValueLands(env, fa[n].ty, fb[j].ty, vs[n]);
      ArriveFieldsStore(env, fa, fb, vs, n, j);
      fi' := FieldStored(env, fb, cur, fi, j, ps, rest);
    } else {
      OnlyIndex(fb, id);
      ArriveFieldsSkip(env, fa, fb, vs, n);
      SkippedMeetsNone(env, fa, fb, vs, n, fi);
      fi' := FieldSkipped(env, fb, cur, fi, id, ps, rest);
    }
    CursorMoves(env, fa, fb, vs, n, fi, fi');
  }

  lemma FieldNumbers(fs: seq<Field>)
    requires DistinctIds(fs)
    ensures forall i :: 0 <= i < |fs| ==> fs[i].id < TWO_61
  {
  }

  lemma NotReached(env: Env, fa: seq<Field>, fb: seq<Field>, vs: seq<Val>, n: nat)
    requires TypedFields(env, fa, vs) && n < |fa| && !fa[n].exported
    ensures FieldRecords(env, fa[n], vs[n]) == []
    ensures forall j :: 0 <= j < |fb| ==> !Reached(env, fa, fb, vs, n, j)
  {
  }

  lemma ReachedExported(env: Env, fa: seq<Field>, fb: seq<Field>, vs: seq<Val>, i: nat, j: nat)
    requires TypedFields(env, fa, vs) && i < |fa| && j < |fb| && Reached(env, fa, fb, vs, i, j)
    ensures fa[i].exported && fb[j].exported
    ensures FieldRecords(env, fa[i], vs[i]) == Records(env, fa[i].ty, vs[i])
  {
  }

  lemma SkippedMeetsNone(env: Env, fa: seq<Field>, fb: seq<Field>, vs: seq<Val>, n: nat, fi: nat)
    requires TypedFields(env, fa, vs) && AgreeFields(env, fa, fb, vs) && n < |fa| && fa[n].exported
    requires forall j :: 0 <= j < |fb| && fb[j].id == fa[n].id ==> !Meets(fb, fi, fa[n].id, j)
    ensures MeetsNone(fb, fi, fa[n].id)
  {
    hide Agree, Shadowed;
    forall j | 0 <= j < |fb| && fb[j].id == fa[n].id ensures fi > j || Shadowed(fb, j) || Ignored(fb[j]) {
      assert !Refused(fb[j]) && !Meets(fb, fi, fa[n].id, j);
    }
  }

  lemma OnlyIndex(fs: seq<Field>, id: nat)
    requires DistinctIds(fs)
    ensures forall j :: 0 <= j < |fs| && fs[j].id == id ==> FieldIndex(fs, id) == Some(j)
  {
    forall j | 0 <= j < |fs| && fs[j].id == id ensures FieldIndex(fs, id) == Some(j) {
      FieldIndexIs(fs, j);
    }
  }

  /** The bytes of the remaining fields are the records of the next one and the bytes after it. */
  lemma FieldBytesStep(env: Env, fa: seq<Field>, vs: seq<Val>, n: nat)
    returns (id: nat, ps: seq<Payload>, rest: seq<Byte>)
    requires TypedFields(env, fa, vs) && n < |fa|
    requires TypedFields(env, fa[n..], vs[n..]) && ShortFields(env, fa, vs)
    ensures TypedFields(env, fa[n + 1..], vs[n + 1..])
    ensures id == fa[n].id && ps == FieldRecords(env, fa[n], vs[n])
    ensures rest == FieldBytes(env, fa[n + 1..], vs[n + 1..])
    ensures FieldBytes(env, fa[n..], vs[n..]) == Emit(id, ps) + rest
    ensures AllValid(ps) && Short(ps)
  {
    id, ps := fa[n].id, FieldRecords(env, fa[n], vs[n]);
    FieldBytesNext(env, fa, vs, n);
    rest := FieldBytes(env, fa[n + 1..], vs[n + 1..]);
    if fa[n].exported { RecordsValid(env, fa[n].ty, vs[n]); }
  }

  lemma FieldsCodable(env: Env, fs: seq<Field>, i: nat)
    requires Codable(env, TMsg(fs)) && i < |fs| && fs[i].exported
    ensures Codable(env, fs[i].ty)
  {
    assert fs[i] in fs;
  }

  lemma NumberedDistinct(fs: seq<Field>)
    requires Numbered(TMsg(fs))
    ensures DistinctIds(fs)
  {
  }

  lemma FieldAgrees(env: Env, fa: seq<Field>, fb: seq<Field>, vs: seq<Val>, i: nat, j: nat)
    requires TypedFields(env, fa, vs) && AgreeFields(env, fa, fb, vs)
    requires i < |fa| && j < |fb| && fa[i].id == fb[j].id && fa[i].exported && fb[j].exported
    ensures Agree(env, fa[i].ty, fb[j].ty, vs[i])
  {
  }

  lemma ArriveFieldsSkip(env: Env, fa: seq<Field>, fb: seq<Field>, vs: seq<Val>, n: nat)
    requires TypedFields(env, fa, vs) && AgreeFields(env, fa, fb, vs) && DistinctIds(fb)
    requires n < |fa|
    requires forall j :: 0 <= j < |fb| && fb[j].id == fa[n].id ==> !Reached(env, fa, fb, vs, n, j)
    ensures ArriveFields(env, fa, fb, vs, n + 1) == ArriveFields(env, fa, fb, vs, n)
  {
    hide Reached;
    forall j | 0 <= j < |fb|
      ensures ArriveField(env, fa, fb, vs, n + 1, j) == ArriveField(env, fa, fb, vs, n, j)
    {
    }
  }

  lemma ArriveFieldsStore(env: Env, fa: seq<Field>, fb: seq<Field>, vs: seq<Val>, n: nat, j: nat)
    requires TypedFields(env, fa, vs) && AgreeFields(env, fa, fb, vs)
    requires DistinctIds(fa) && DistinctIds(fb)
    requires n < |fa| && j < |fb| && fa[n].id == fb[j].id && Reached(env, fa, fb, vs, n, j)
    requires Agree(env, fa[n].ty, fb[j].ty, vs[n])
    ensures ArriveFields(env, fa, fb, vs, n)[j] == Zero(fb[j].ty)
    ensures ArriveFields(env, fa, fb, vs, n + 1) ==
            ArriveFields(env, fa, fb, vs, n)[j := Arrive(env, fa[n].ty, fb[j].ty, vs[n])]
  {
    hide Reached;
    FieldIndexIs(fa, n);
    forall i | 0 <= i < |fb| && i != j
      ensures ArriveField(env, fa, fb, vs, n + 1, i) == ArriveField(env, fa, fb, vs, n, i)
    {
      assert fb[i].id != fb[j].id;
    }
  }
}
