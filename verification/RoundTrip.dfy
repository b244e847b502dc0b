/** The codec's theorems, for all types the codec accepts: what arrives under another type, and the
    exact condition for a round trip, with fields in any order. */
module RoundTrip {
  import opened Basics
  import opened Wire
  import opened Schema
  import opened Codec
  import opened SchemaEvolution

  // ---------- values that survive unchanged ----------

  /** A field that is not exported or is declared after one with a larger number. */
  predicate Unreadable(fs: seq<Field>, i: nat)
    requires i < |fs|
  {
    !fs[i].exported || Shadowed(fs, i)
  }

  /** No 64-bit signed varint beyond 62 bits of magnitude, no nil element in a slice, and only zero in
      fields that cannot be read. */
  ghost predicate ExactVal(env: Env, t: Ty, v: Val)
    requires Typed(env, t, v)
    decreases v
  {
    match t
    case TNum(k) => Exact(k, v.n)
    case TPacked(k) => forall n :: n in v.ns ==> Exact(k, n)
    case TMsg(fs) =>
      assert TypedFields(env, fs, v.vs);
      forall i :: 0 <= i < |fs| ==>
        if Unreadable(fs, i) then v.vs[i] == Zero(fs[i].ty) else ExactVal(env, fs[i].ty, v.vs[i])
    case TOpt(e) => v.VPtr? ==> ExactVal(env, Resolve(env, e), v.v)
    case TRep(e) => forall w :: w in v.es ==> !w.VNil? && ExactVal(env, Resolve(env, e), w)
    case TMap(k, e) =>
      forall i :: 0 <= i < |v.entries| ==>
        ExactVal(env, k, v.entries[i].key) && ExactVal(env, Resolve(env, e), v.entries[i].val)
    case _ => true
  }

  lemma {:induction false} AgreeSelf(env: Env, t: Ty, v: Val)
    requires Typed(env, t, v) && Numbered(t) && NumberedEnv(env)
    ensures Agree(env, t, t, v)
    decreases v
  {
    match t {
      case TMsg(fs) =>
        forall i, j | 0 <= i < |fs| && 0 <= j < |fs| && fs[i].id == fs[j].id && fs[i].exported
          ensures i == j && Agree(env, fs[i].ty, fs[j].ty, v.vs[i])
        {
          assert fs[i] in fs;
          assert i == j;
          AgreeSelf(env, fs[i].ty, v.vs[i]);
        }
      case TOpt(e) => if v.VPtr? { AgreeSelf(env, Resolve(env, e), v.v); }
      case TRep(e) =>
        forall w | w in v.es ensures Agree(env, Resolve(env, e), Resolve(env, e), w) {
          AgreeSelf(env, Resolve(env, e), w);
        }
      case TMap(k, e) =>
        forall i | 0 <= i < |v.entries|
          ensures Agree(env, Resolve(env, e), Resolve(env, e), v.entries[i].val)
        {
          var en := v.entries[i];
          assert en in v.entries;
          AgreeSelf(env, Resolve(env, e), en.val);
        }
      case _ =>
    }
  }

  lemma LandExact(k: Kind, n: int)
    requires NumOk(k, n)
    ensures Exact(k, Land(k, n)) && (Land(k, n) == n <==> Exact(k, n))
  {
  }

  lemma LandAllExact(k: Kind, ns: seq<int>)
    requires forall n :: n in ns ==> NumOk(k, n)
    ensures LandAll(k, ns) == ns <==> forall n :: n in ns ==> Exact(k, n)
  {
    if LandAll(k, ns) == ns {
      forall n | n in ns ensures Exact(k, n) {
        var i :| 0 <= i < |ns| && ns[i] == n;
        assert LandAll(k, ns)[i] == Land(k, n);
        LandExact(k, n);
      }
    }
    if forall n :: n in ns ==> Exact(k, n) {
      forall i | 0 <= i < |ns| ensures LandAll(k, ns)[i] == ns[i] {
        LandExact(k, ns[i]);
      }
    }
  }

  /** What arrives under the writer's own type is the value itself exactly when it is exact. */
  lemma {:induction false} ArriveSelf(env: Env, t: Ty, v: Val)
    requires Codable(env, t) && Typed(env, t, v) && Agree(env, t, t, v)
    ensures Arrive(env, t, t, v) == v <==> ExactVal(env, t, v)
    decreases v, 1
  {
    match t {
      case TNum(k) => LandExact(k, v.n);
      case TPacked(k) => LandAllExact(k, v.ns);
      case TMsg(fs) =>
        FieldsSelf(env, fs, v.vs);
        SameElements(ArriveFields(env, fs, fs, v.vs, |fs|), v.vs);
      case TOpt(e) =>
        if v.VPtr? {
          ElemCodable(env, t);
          ArriveSelf(env, Resolve(env, e), v.v);
        }
      case TRep(e) =>
        ElemCodable(env, t);
        ListSelf(env, Resolve(env, e), v.es);
      case TMap(k, e) =>
        ValCodable(env, t);
        EntriesSelf(env, k, Resolve(env, e), v.entries);
      case _ =>
    }
  }

  /** What a field must hold to survive. */
  ghost predicate ExactField(env: Env, fs: seq<Field>, vs: seq<Val>, i: nat)
    requires TypedFields(env, fs, vs) && i < |fs|
  {
    if Unreadable(fs, i) then vs[i] == Zero(fs[i].ty) else ExactVal(env, fs[i].ty, vs[i])
  }

  lemma {:induction false} FieldsSelf(env: Env, fs: seq<Field>, vs: seq<Val>)
    requires Codable(env, TMsg(fs)) && TypedFields(env, fs, vs) && AgreeFields(env, fs, fs, vs)
    ensures forall i :: 0 <= i < |fs| ==>
              (ArriveFields(env, fs, fs, vs, |fs|)[i] == vs[i] <==> ExactField(env, fs, vs, i))
    decreases vs, 0
  {
    forall i | 0 <= i < |fs|
      ensures ArriveFields(env, fs, fs, vs, |fs|)[i] == vs[i] <==> ExactField(env, fs, vs, i)
    {
      NumberedDistinct(fs);
      FieldIndexIs(fs, i);
      SelfReached(env, fs, vs, i);
      if fs[i].exported {
        FieldsCodable(env, fs, i);
        ArriveSelf(env, fs[i].ty, vs[i]);
      }
    }
  }

  /** Under the writer's own type an exported field is reached unless one before it has a larger number,
      whether or not that one is present. */
  lemma SelfReached(env: Env, fs: seq<Field>, vs: seq<Val>, i: nat)
    requires TypedFields(env, fs, vs) && i < |fs|
    ensures Reached(env, fs, fs, vs, i, i) <==> !Unreadable(fs, i)
  {
  }

  lemma {:induction false} ListSelf(env: Env, t: Ty, es: seq<Val>)
    requires Codable(env, t)
    requires forall w :: w in es ==> Typed(env, t, w) && Agree(env, t, t, w)
    ensures |ArriveList(env, t, t, es)| <= |es|
    ensures ArriveList(env, t, t, es) == es <==> forall w :: w in es ==> !w.VNil? && ExactVal(env, t, w)
    decreases es, 0
  {
    hide Arrive, Agree, Typed, ExactVal, Codable;
    if es != [] {
      ListSelf(env, t, es[1..]);
      ArriveSelf(env, t, es[0]);
      var rest := ArriveList(env, t, t, es[1..]);
      assert es == [es[0]] + es[1..];
      if !es[0].VNil? {
        var x := Arrive(env, t, t, es[0]);
        assert ([x] + rest)[0] == x && ([x] + rest)[1..] == rest;
      }
    }
  }

  // ---------- map entries ----------

  ghost predicate KeyIn(entries: seq<Entry>, key: Val) {
    exists i :: 0 <= i < |entries| && entries[i].key == key
  }

  lemma {:induction false} InsertFresh(entries: seq<Entry>, key: Val, val: Val)
    requires !KeyIn(entries, key)
    ensures Insert(entries, key, val) == entries + [Entry(key, val)]
    decreases |entries|
  {
    if entries != [] {
      assert entries[0].key != key;
      forall i | 0 <= i < |entries[1..]| ensures entries[1..][i].key != key {
        assert entries[i + 1].key != key;
      }
      InsertFresh(entries[1..], key, val);
      assert entries + [Entry(key, val)] == [entries[0]] + (entries[1..] + [Entry(key, val)]);
    }
  }

  ghost predicate ExactKeys(k: Ty, entries: seq<Entry>) {
    forall i :: 0 <= i < |entries| ==>
      k.TNum? ==> entries[i].key.VNum? && Exact(k.k, entries[i].key.n)
  }

  lemma {:induction false} InsertExact(k: Ty, entries: seq<Entry>, key: Val, val: Val)
    requires ExactKeys(k, entries) && (k.TNum? ==> key.VNum? && Exact(k.k, key.n))
    ensures ExactKeys(k, Insert(entries, key, val))
    decreases |entries|
  {
    if entries != [] && entries[0].key != key { InsertExact(k, entries[1..], key, val); }
  }

  /** Whatever is written, the keys that arrive are in the exact range. */
  lemma {:induction false} ArrivedKeysExact(env: Env, k: Ty, t: Ty, acc: seq<Entry>, entries: seq<Entry>)
    requires MapKey(k) && AgreeEntries(env, k, t, t, entries) && ExactKeys(k, acc)
    ensures ExactKeys(k, ArriveEntries(env, k, t, t, acc, entries))
    decreases |entries|
  {
    if entries != [] {
      var e := ArriveEntry(env, k, t, t, entries[0]);
      if k.TNum? { LandExact(k.k, entries[0].key.n); }
      InsertExact(k, acc, e.key, e.val);
      ArrivedKeysExact(env, k, t, Insert(acc, e.key, e.val), entries[1..]);
    }
  }

  /** The entries with their keys as they are and their values as they arrive. */
  ghost function Delivered(env: Env, k: Ty, t: Ty, entries: seq<Entry>): (r: seq<Entry>)
    requires AgreeEntries(env, k, t, t, entries)
    ensures |r| == |entries|
  {
    seq(|entries|, i requires 0 <= i < |entries| => Entry(entries[i].key, Arrive(env, t, t, entries[i].val)))
  }

  lemma DeliveredStep(env: Env, k: Ty, t: Ty, entries: seq<Entry>)
    requires entries != [] && AgreeEntries(env, k, t, t, entries)
    ensures AgreeEntries(env, k, t, t, entries[1..])
    ensures Delivered(env, k, t, entries) ==
            [Entry(entries[0].key, Arrive(env, t, t, entries[0].val))] + Delivered(env, k, t, entries[1..])
  {
    hide Arrive, Agree, Typed;
  }

  /** Distinct keys in the exact range are neither merged nor reordered. */
  lemma {:induction false} ArriveInOrder(env: Env, k: Ty, t: Ty, acc: seq<Entry>, entries: seq<Entry>)
    requires MapKey(k) && AgreeEntries(env, k, t, t, entries) && ExactKeys(k, entries)
    requires DistinctKeys(acc + entries)
    ensures ArriveEntries(env, k, t, t, acc, entries) == acc + Delivered(env, k, t, entries)
    decreases |entries|
  {
    hide Arrive, Agree, Typed, Delivered;
    if entries == [] {
      assert acc + Delivered(env, k, t, entries) == acc;
    } else {
      var e := ArriveEntry(env, k, t, t, entries[0]);
      ExactKeyArrives(env, k, t, entries[0]);
      forall i | 0 <= i < |acc| ensures acc[i].key != e.key {
        assert (acc + entries)[i].key != (acc + entries)[|acc|].key;
      }
      InsertFresh(acc, e.key, e.val);
      KeysShift(acc, entries, e);
      DeliveredStep(env, k, t, entries);
      ArriveInOrder(env, k, t, acc + [e], entries[1..]);
      Associative(acc, [e], Delivered(env, k, t, entries[1..]));
    }
  }

  lemma ExactKeyArrives(env: Env, k: Ty, t: Ty, e: Entry)
    requires MapKey(k) && Typed(env, k, e.key) && Typed(env, t, e.val) && Agree(env, t, t, e.val)
    requires k.TNum? ==> e.key.VNum? && Exact(k.k, e.key.n)
    ensures ArriveEntry(env, k, t, t, e) == Entry(e.key, Arrive(env, t, t, e.val))
  {
  }

  lemma KeysShift(acc: seq<Entry>, entries: seq<Entry>, e: Entry)
    requires entries != [] && e.key == entries[0].key && DistinctKeys(acc + entries)
    ensures DistinctKeys(acc + [e] + entries[1..])
  {
    var s, s' := acc + entries, acc + [e] + entries[1..];
    assert |s| == |s'| && forall i :: 0 <= i < |s| ==> s[i].key == s'[i].key;
  }

  lemma {:induction false} EntrySelf(env: Env, k: Ty, t: Ty, e: Entry)
    requires Codable(env, t) && Typed(env, k, e.key) && Typed(env, t, e.val) && Agree(env, t, t, e.val)
    ensures Entry(e.key, Arrive(env, t, t, e.val)) == e <==> ExactVal(env, t, e.val)
    decreases e, 0
  {
    ArriveSelf(env, t, e.val);
  }

  lemma {:induction false} ValuesSelf(env: Env, k: Ty, t: Ty, entries: seq<Entry>)
    requires Codable(env, t) && MapKey(k) && DistinctKeys(entries) && ExactKeys(k, entries)
    requires AgreeEntries(env, k, t, t, entries)
    ensures ArriveEntries(env, k, t, t, [], entries) == entries <==>
            forall i :: 0 <= i < |entries| ==> ExactVal(env, t, entries[i].val)
    decreases entries, 0
  {
    hide ArriveEntries, Arrive, ExactVal, ExactKeys, Codable, DistinctKeys;
    var r := ArriveEntries(env, k, t, t, [], entries);
    assert [] + entries == entries;
    ArriveInOrder(env, k, t, [], entries);
    forall i | 0 <= i < |entries| ensures r[i] == entries[i] <==> ExactVal(env, t, entries[i].val) {
      var e := entries[i];
      assert e in entries;
      assert r[i] == Entry(e.key, Arrive(env, t, t, e.val));
      EntrySelf(env, k, t, e);
    }
    SameElements(r, entries);
  }

  lemma {:induction false} EntriesSelf(env: Env, k: Ty, t: Ty, entries: seq<Entry>)
    requires Codable(env, t) && MapKey(k) && DistinctKeys(entries)
    requires AgreeEntries(env, k, t, t, entries)
    ensures ArriveEntries(env, k, t, t, [], entries) == entries <==>
            forall i :: 0 <= i < |entries| ==>
              ExactVal(env, k, entries[i].key) && ExactVal(env, t, entries[i].val)
    decreases entries, 1
  {
    ArrivedKeysExact(env, k, t, [], entries);
    assert ExactKeys(k, entries) <==> forall i :: 0 <= i < |entries| ==> ExactVal(env, k, entries[i].key);
    if ExactKeys(k, entries) { ValuesSelf(env, k, t, entries); }
  }

  // ---------- the theorems ----------

  /** Schema evolution. A message written under `fa` and read under `fb` gives, for every field of
      the reader, the writer's field of that number as it arrives, or zero if the writer has none or
      the cursor does not reach it, which it always does between types in increasing order; fields
      that only the writer has are skipped. Nested messages may evolve in the same way. */
  lemma Evolution(env: Env, fa: seq<Field>, fb: seq<Field>, vs: seq<Val>)
    requires Codable(env, TMsg(fa)) && Codable(env, TMsg(fb))
    requires TypedFields(env, fa, vs) && AgreeFields(env, fa, fb, vs) && ShortFields(env, fa, vs)
    requires Encode(env, fa, vs).Ok?
    ensures var r := Decode(env, fb, Encode(env, fa, vs).value);
            && r.Ok? && |r.value| == |fb|
            && (forall i, j :: 0 <= i < |fa| && 0 <= j < |fb| && fa[i].id == fb[j].id ==>
                  (Reached(env, fa, fb, vs, i, j) ==> Agree(env, fa[i].ty, fb[j].ty, vs[i])) &&
                  r.value[j] == if Reached(env, fa, fb, vs, i, j)
                                then Arrive(env, fa[i].ty, fb[j].ty, vs[i])
                                else Zero(fb[j].ty))
            && (forall j :: 0 <= j < |fb| && FieldIndex(fa, fb[j].id).None? ==>
                  r.value[j] == Zero(fb[j].ty))
  {
    MessageLands(env, fa, fb, vs);
    NumberedDistinct(fa);
    forall i, j | 0 <= i < |fa| && 0 <= j < |fb| && fa[i].id == fb[j].id
      ensures Reached(env, fa, fb, vs, i, j) ==> Agree(env, fa[i].ty, fb[j].ty, vs[i])
      ensures ArriveFields(env, fa, fb, vs, |fa|)[j] ==
              if Reached(env, fa, fb, vs, i, j) then Arrive(env, fa[i].ty, fb[j].ty, vs[i]) else Zero(fb[j].ty)
    {
      FieldIndexIs(fa, i);
    }
  }

  /** Under types whose common fields are identical, exact values are projected unchanged. */
  lemma Projection(env: Env, fa: seq<Field>, fb: seq<Field>, vs: seq<Val>)
    requires Codable(env, TMsg(fa)) && Codable(env, TMsg(fb))
    requires TypedFields(env, fa, vs) && ShortFields(env, fa, vs) && Encode(env, fa, vs).Ok?
    requires forall i, j :: 0 <= i < |fa| && 0 <= j < |fb| && fa[i].id == fb[j].id && fa[i].exported ==>
               !Refused(fb[j]) && (fb[j].exported ==> fa[i].ty == fb[j].ty)
    requires forall i :: 0 <= i < |fa| && fa[i].exported ==> ExactVal(env, fa[i].ty, vs[i])
    ensures var r := Decode(env, fb, Encode(env, fa, vs).value);
            && r.Ok? && |r.value| == |fb|
            && forall j :: 0 <= j < |fb| ==>
                 r.value[j] == match FieldIndex(fa, fb[j].id)
                               case Some(i) =>
                                 if Reached(env, fa, fb, vs, i, j) then vs[i] else Zero(fb[j].ty)
                               case None => Zero(fb[j].ty)
  {
    hide Decode, Encode, Reached, Arrive, Agree, ExactVal, Typed, Supported, Numbered, Short;
    forall i, j | 0 <= i < |fa| && 0 <= j < |fb| && fa[i].id == fb[j].id && fa[i].exported && fb[j].exported
      ensures Agree(env, fa[i].ty, fb[j].ty, vs[i])
      ensures Arrive(env, fa[i].ty, fb[j].ty, vs[i]) == vs[i]
    {
      FieldsCodable(env, fa, i);
      AgreeSelf(env, fa[i].ty, vs[i]);
      ArriveSelf(env, fa[i].ty, vs[i]);
    }
    Evolution(env, fa, fb, vs);
    forall i, j | 0 <= i < |fa| && 0 <= j < |fb| && Reached(env, fa, fb, vs, i, j)
      ensures fa[i].exported && fb[j].exported
    {
      ReachedExported(env, fa, fb, vs, i, j);
    }
  }

  /** For every type the codec accepts and every message of it: the round trip gives the message back
      if and only if every field is exact, which for a field that is not exported or is declared after one
      with a larger number means zero. */
  lemma RoundTripExactly(env: Env, fs: seq<Field>, vs: seq<Val>)
    requires Codable(env, TMsg(fs)) && TypedFields(env, fs, vs) && ShortFields(env, fs, vs)
    requires Encode(env, fs, vs).Ok?
    ensures Decode(env, fs, Encode(env, fs, vs).value) == Ok(vs) <==>
            forall i :: 0 <= i < |fs| ==> ExactField(env, fs, vs, i)
  {
    hide Decode, FieldBytes, ArriveFields, ExactField, Supported, Numbered, Short;
    AgreeSelf(env, TMsg(fs), VMsg(vs));
    MessageLands(env, fs, fs, vs);
    FieldsSelf(env, fs, vs);
    SameElements(ArriveFields(env, fs, fs, vs, |fs|), vs);
  }

  // ---------- where the codec loses or refuses data ----------

  /** A message with one field. */
  lemma OneField(t: Ty, v: Val)
    requires Codable([], t) && Typed([], t, v) && Encodable([], t, false, true, v) && Short(Records([], t, v))
    ensures var fs, vs := [Field(1, false, true, t)], [v];
            && Agree([], t, t, v)
            && Codable([], TMsg(fs)) && TypedFields([], fs, vs) && Encode([], fs, vs).Ok?
            && Decode([], fs, Encode([], fs, vs).value) == Ok([Arrive([], t, t, v)])
  {
    hide Decode, FieldBytes, Records, Arrive, Agree, Supported, Reached, Short;
    var fs, vs := [Field(1, false, true, t)], [v];
    assert Readable([], TMsg(fs)) by { OneSupported(t); }
    AgreeSelf([], t, v);
    OneAgrees(fs, vs);
    Evolution([], fs, fs, vs);
    InOrderReached([], fs, fs, vs, 0, 0);
    var r := Decode([], fs, Encode([], fs, vs).value);
    assert fs[0].id == fs[0].id;
    assert r.value == [r.value[0]];
  }

  lemma OneSupported(t: Ty)
    requires Supported([], t)
    ensures Supported([], TMsg([Field(1, false, true, t)]))
  {
  }

  lemma OneAgrees(fs: seq<Field>, vs: seq<Val>)
    requires |fs| == 1 && TypedFields([], fs, vs) && Agree([], fs[0].ty, fs[0].ty, vs[0])
    ensures AgreeFields([], fs, fs, vs)
  {
  }

  /** The smallest positive number that does not survive. */
  lemma HugeVarintExample()
    ensures var fs, vs := [Field(1, false, true, TNum(Int64))], [VNum(TWO_62)];
            && Codable([], TMsg(fs)) && TypedFields([], fs, vs) && Encode([], fs, vs).Ok?
            && Decode([], fs, Encode([], fs, vs).value) == Ok([VNum(-TWO_62)])
  {
    hide Decode, FieldBytes;
    OneField(TNum(Int64), VNum(TWO_62));
  }

  /** A slice of one nil pointer to a string comes back empty. */
  lemma NilElementExample()
    ensures var fs, vs := [Field(1, false, true, TRep(Inline(TOpt(Inline(TBlob)))))], [VList([VNil])];
            && Codable([], TMsg(fs)) && TypedFields([], fs, vs) && Encode([], fs, vs).Ok?
            && Decode([], fs, Encode([], fs, vs).value) == Ok([VList([])])
  {
    hide Decode, FieldBytes;
    var s := TOpt(Inline(TBlob));
    assert Records([], TRep(Inline(s)), VList([VNil])) == [] by { assert [VNil][1..] == []; }
    OneField(TRep(Inline(s)), VList([VNil]));
    assert ArriveList([], s, s, [VNil]) == [] by { assert [VNil][1..] == []; }
  }

  /** A map whose values are structs can be encoded if and only if it is empty or the structs have no
      fields. */
  lemma StructMapEncodable(env: Env, t: Ty, required: bool, addressable: bool, v: Val)
    requires t.TMap? && Resolve(env, t.val).TMsg? && Typed(env, t, v)
    ensures Encodable(env, t, required, addressable, v) <==> v.entries == [] || Resolve(env, t.val).fields == []
  {
    if v.entries != [] && Resolve(env, t.val).fields != [] {
      assert !Encodable(env, Resolve(env, t.val), required, false, v.entries[0].val);
    }
  }

  const StructMap := TMap(TNum(Int32), Inline(TMsg([Field(1, false, true, TNum(Bool))])))

  lemma StructMapTyped(v: Val)
    requires v == VMap([Entry(VNum(7), VMsg([VNum(1)]))])
    ensures Codable([], StructMap) && Typed([], StructMap, v)
  {
    var e := v.entries[0];
    assert Typed([], TMsg([Field(1, false, true, TNum(Bool))]), e.val);
  }

  /** A map with one entry, whose value is a struct of one boolean, cannot be encoded. */
  lemma StructMapExample()
    ensures var fs, vs := [Field(1, false, true, StructMap)], [VMap([Entry(VNum(7), VMsg([VNum(1)]))])];
            Codable([], StructMap) && TypedFields([], fs, vs) && Encode([], fs, vs) == Err
  {
    hide FieldBytes, Codable, Typed;
    var fs, vs := [Field(1, false, true, StructMap)], [VMap([Entry(VNum(7), VMsg([VNum(1)]))])];
    StructMapTyped(vs[0]);
    StructMapEncodable([], StructMap, false, true, vs[0]);
    FieldNotEncodable(fs, vs);
  }

  lemma FieldNotEncodable(fs: seq<Field>, vs: seq<Val>)
    requires |fs| == 1 && TypedFields([], fs, vs)
    requires !Encodable([], fs[0].ty, fs[0].required, true, vs[0])
    ensures Encode([], fs, vs) == Err
  {
    hide FieldBytes;
    assert Typed([], TMsg(fs), VMsg(vs));
  }
}
