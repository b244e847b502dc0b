/** How the codec numbers the fields of a Go struct: one running counter through all fields, with
    the fields of embedded structs counted in place and explicit tags setting the counter. */
module FieldIds {
  import opened Basics
  import Schema

  /** A field with its tag number, or 0 for none; or an embedded struct with its tag. */
  datatype GoField =
    | Plain(tag: int)
    | Embedded(tag: int, fields: seq<GoField>)
  {
    /** The counter at this field, when it was `id` before. */
    function Counter(id: int): int {
      if tag != 0 then tag else id + 1
    }
  }

  /** The numbers given to the flattened fields, and the counter afterwards. */
  function Number(id: int, fs: seq<GoField>): (seq<int>, int)
    decreases fs
  {
    if fs == [] then ([], id)
    else
      var (ids, id1) := NumberOne(id, fs[0]);
      var (rest, id2) := Number(id1, fs[1..]);
      (ids + rest, id2)
  }

  function NumberOne(id: int, f: GoField): (seq<int>, int)
    decreases f
  {
    match f
    case Plain(_) => ([f.Counter(id)], f.Counter(id))
    case Embedded(_, inner) => Number(f.Counter(id) - 1, inner)
  }

  /** `innerFieldIndexes`: the loop over the fields with the shared counter. */
  method InnerFieldIndexes(start: int, fs: seq<GoField>) returns (out: seq<int>, id: int)
    ensures (out, id) == Number(start, fs)
    decreases fs
  {
    out, id := [], start;
    assert fs[0..] == fs && [] + Number(start, fs).0 == Number(start, fs).0;
    for i := 0 to |fs|
      invariant Number(start, fs) == (out + Number(id, fs[i..]).0, Number(id, fs[i..]).1)
    {
      assert fs[i..][1..] == fs[i + 1..];
      ghost var rest := Number(NumberOne(id, fs[i]).1, fs[i + 1..]).0;
      id := id + 1;
      if fs[i].tag != 0 { id := fs[i].tag; }
      match fs[i] {
        case Plain(_) =>
          assert out + ([id] + rest) == out + [id] + rest;
          out := out + [id];
        case Embedded(_, inner) =>
          id := id - 1;
          var more;
          more, id := InnerFieldIndexes(id, inner);
          assert out + (more + rest) == out + more + rest;
          out := out + more;
      }
    }
    assert fs[|fs|..] == [] && out + [] == out;
  }

  // ---------- increasing numbers ----------

  /** Strictly increasing, and above a bound. */
  predicate RisesFrom(last: int, ids: seq<int>)
    decreases |ids|
  {
    ids == [] || (ids[0] > last && RisesFrom(ids[0], ids[1..]))
  }

  function Last(last: int, ids: seq<int>): int {
    if ids == [] then last else ids[|ids| - 1]
  }

  /** No field goes back: a tagged field is above the last number given, and an untagged one does
      not follow a counter that the tag of an embedded struct has set back. */
  predicate Forward(last: int, id: int, fs: seq<GoField>)
    decreases fs
  {
    fs == [] ||
    var (ids, id1) := NumberOne(id, fs[0]);
    ForwardOne(last, id, fs[0]) && Forward(Last(last, ids), id1, fs[1..])
  }

  predicate ForwardOne(last: int, id: int, f: GoField)
    decreases f
  {
    match f
    case Plain(t) => if t != 0 then t > last else id >= last
    case Embedded(_, inner) => Forward(last, f.Counter(id) - 1, inner)
  }

  lemma {:induction false} RisesConcat(last: int, a: seq<int>, b: seq<int>)
    ensures RisesFrom(last, a + b) <==> RisesFrom(last, a) && RisesFrom(Last(last, a), b)
    ensures Last(last, a + b) == Last(Last(last, a), b)
    decreases |a|
  {
    if a == [] {
      assert a + b == b;
    } else {
      RisesConcat(a[0], a[1..], b);
      assert (a + b)[1..] == a[1..] + b;
    }
  }

  /** The field numbers of a struct, embedded structs included, strictly increase if and only if no
      field goes back. */
  lemma {:induction false} IncreasingIffForward(last: int, id: int, fs: seq<GoField>)
    ensures RisesFrom(last, Number(id, fs).0) <==> Forward(last, id, fs)
    decreases fs, 0
  {
    if fs != [] {
      var (ids, id1) := NumberOne(id, fs[0]);
      OneIffForward(last, id, fs[0]);
      IncreasingIffForward(Last(last, ids), id1, fs[1..]);
      RisesConcat(last, ids, Number(id1, fs[1..]).0);
    }
  }

  lemma {:induction false} OneIffForward(last: int, id: int, f: GoField)
    ensures RisesFrom(last, NumberOne(id, f).0) <==> ForwardOne(last, id, f)
    decreases f, 0
  {
    match f {
      case Plain(t) =>
        var ids := NumberOne(id, f).0;
        assert ids[1..] == [];
      case Embedded(_, inner) => IncreasingIffForward(last, f.Counter(id) - 1, inner);
    }
  }

  /** Every tag, those of embedded structs included, is above the counter where it stands. */
  predicate TagsRise(id: int, fs: seq<GoField>)
    decreases fs
  {
    fs == [] || (TagsRiseOne(id, fs[0]) && TagsRise(NumberOne(id, fs[0]).1, fs[1..]))
  }

  predicate TagsRiseOne(id: int, f: GoField)
    decreases f
  {
    f.Counter(id) > id && (f.Embedded? ==> TagsRise(f.Counter(id) - 1, f.fields))
  }

  lemma {:induction false} TagsRiseForward(last: int, id: int, fs: seq<GoField>)
    requires last <= id && TagsRise(id, fs)
    ensures Forward(last, id, fs)
    ensures Last(last, Number(id, fs).0) <= Number(id, fs).1 && id <= Number(id, fs).1
    decreases fs, 0
  {
    if fs != [] {
      var (ids, id1) := NumberOne(id, fs[0]);
      OneRiseForward(last, id, fs[0]);
      TagsRiseForward(Last(last, ids), id1, fs[1..]);
      RisesConcat(last, ids, Number(id1, fs[1..]).0);
    }
  }

  lemma {:induction false} OneRiseForward(last: int, id: int, f: GoField)
    requires last <= id && TagsRiseOne(id, f)
    ensures ForwardOne(last, id, f)
    ensures Last(last, NumberOne(id, f).0) <= NumberOne(id, f).1 && id <= NumberOne(id, f).1
    decreases f, 0
  {
    match f {
      case Plain(_) =>
      case Embedded(_, inner) => TagsRiseForward(last, f.Counter(id) - 1, inner);
    }
  }

  lemma {:induction false} NumberConcat(id: int, a: seq<GoField>, b: seq<GoField>)
    ensures Number(id, a + b).0 == Number(id, a).0 + Number(Number(id, a).1, b).0
    ensures Number(id, a + b).1 == Number(Number(id, a).1, b).1
    decreases |a|
  {
    if a == [] {
      assert a + b == b;
    } else {
      assert (a + b)[0] == a[0] && (a + b)[1..] == a[1..] + b;
      var (ids, id1) := NumberOne(id, a[0]);
      NumberConcat(id1, a[1..], b);
      Associative(ids, Number(id1, a[1..]).0, Number(Number(id, a).1, b).0);
    }
  }

  lemma NumberSingle(id: int, f: GoField)
    ensures Number(id, [f]) == NumberOne(id, f)
  {
    assert [f][1..] == [];
    assert NumberOne(id, f).0 + [] == NumberOne(id, f).0;
  }

  /** Embedding a struct numbers its fields as if they were written in its place. */
  lemma EmbeddedInPlace(id: int, a: seq<GoField>, inner: seq<GoField>, b: seq<GoField>)
    ensures Number(id, a + [Embedded(0, inner)] + b) == Number(id, a + inner + b)
  {
    NumberConcat(id, a + [Embedded(0, inner)], b);
    NumberConcat(id, a, [Embedded(0, inner)]);
    NumberConcat(id, a + inner, b);
    NumberConcat(id, a, inner);
    NumberSingle(Number(id, a).1, Embedded(0, inner));
  }

  /** A tag is the number of its field, or of the first field of its embedded struct; a field without a tag
      has the number after the counter. */
  lemma TagNumbers(id: int, t: int, fs: seq<GoField>, rest: seq<GoField>)
    ensures [if t != 0 then t else id + 1] <= Number(id, [Plain(t)] + fs).0
    ensures t != 0 ==> [t] <= Number(id, [Embedded(t, [Plain(0)] + fs)] + rest).0
  {
    var inner := [Plain(0)] + fs;
    NumberConcat(id, [Plain(t)], fs);
    NumberSingle(id, Plain(t));
    NumberConcat(id, [Embedded(t, inner)], rest);
    NumberSingle(id, Embedded(t, inner));
    NumberConcat(t - 1, [Plain(0)], fs);
    NumberSingle(t - 1, Plain(0));
  }

  /** The fields, embedded structs taken apart. */
  function Flat(fs: seq<GoField>): nat
    decreases fs
  {
    if fs == [] then 0 else FlatOne(fs[0]) + Flat(fs[1..])
  }

  function FlatOne(f: GoField): nat
    decreases f
  {
    if f.Plain? then 1 else Flat(f.fields)
  }

  /** Without tags the numbers are 1, 2, 3 and so on. */
  lemma {:induction false} UntaggedConsecutive(id: int, fs: seq<GoField>)
    requires Untagged(fs)
    ensures Number(id, fs).0 == seq(Flat(fs), i => id + 1 + i) && Number(id, fs).1 == id + Flat(fs)
    decreases fs
  {
    if fs != [] {
      match fs[0] {
        case Plain(_) =>
        case Embedded(_, inner) => UntaggedConsecutive(id, inner);
      }
      UntaggedConsecutive(NumberOne(id, fs[0]).1, fs[1..]);
    }
  }

  predicate Untagged(fs: seq<GoField>)
    decreases fs
  {
    fs == [] || (UntaggedOne(fs[0]) && Untagged(fs[1..]))
  }

  predicate UntaggedOne(f: GoField)
    decreases f
  {
    f.tag == 0 && (f.Embedded? ==> Untagged(f.fields))
  }

  lemma {:induction false} UntaggedRise(id: int, fs: seq<GoField>)
    requires Untagged(fs)
    ensures TagsRise(id, fs)
    decreases fs
  {
    if fs != [] {
      match fs[0] {
        case Plain(_) =>
        case Embedded(_, inner) => UntaggedRise(id, inner);
      }
      UntaggedRise(NumberOne(id, fs[0]).1, fs[1..]);
    }
  }

  lemma {:induction false} RisesMeans(last: int, ids: seq<int>)
    ensures RisesFrom(last, ids) <==>
            (forall i :: 0 <= i < |ids| ==> ids[i] > last) &&
            (forall i, j :: 0 <= i < j < |ids| ==> ids[i] < ids[j])
    decreases |ids|
  {
    if ids != [] {
      RisesMeans(ids[0], ids[1..]);
      assert forall i :: 0 <= i < |ids[1..]| ==> ids[1..][i] == ids[i + 1];
      assert forall i :: 1 <= i < |ids| ==> ids[i] == ids[1..][i - 1];
    }
  }

  /** A struct whose tags rise, in particular one without tags, has the order on which decoding
      relies. */
  lemma RisingTagsIncrease(fs: seq<GoField>)
    requires TagsRise(0, fs) || Untagged(fs)
    ensures forall i :: 0 <= i < |Number(0, fs).0| ==> Number(0, fs).0[i] > 0
    ensures forall i, j :: 0 <= i < j < |Number(0, fs).0| ==> Number(0, fs).0[i] < Number(0, fs).0[j]
    ensures Unique(Number(0, fs).0)
  {
    if Untagged(fs) { UntaggedRise(0, fs); }
    TagsRiseForward(0, 0, fs);
    IncreasingIffForward(0, 0, fs);
    RisesMeans(0, Number(0, fs).0);
  }

  /** The fields of the codec's type for a struct have the struct's numbers. */
  ghost predicate FieldsOf(fs: seq<GoField>, fields: seq<Schema.Field>) {
    |fields| == |Number(0, fs).0| && forall i :: 0 <= i < |fields| ==> fields[i].id == Number(0, fs).0[i]
  }

  /** The type of a struct declares its fields in increasing order if and only if no field goes back,
      so in particular if its tags rise or it has none. */
  lemma TypeIncreasing(fs: seq<GoField>, fields: seq<Schema.Field>)
    requires FieldsOf(fs, fields)
    ensures Schema.Increasing(fields) <==> Forward(-1, 0, fs)
    ensures TagsRise(0, fs) || Untagged(fs) ==> Schema.Increasing(fields)
  {
    IncreasingIffForward(-1, 0, fs);
    RisesMeans(-1, Number(0, fs).0);
    if TagsRise(0, fs) || Untagged(fs) { RisingTagsIncrease(fs); }
  }

  /** The numbers are accepted if and only if the codec's theorems apply to the type. */
  lemma TypeDistinct(fs: seq<GoField>, fields: seq<Schema.Field>)
    requires FieldsOf(fs, fields) && forall i :: 0 <= i < |fields| ==> fields[i].id < TWO_61
    ensures Schema.DistinctIds(fields) <==> Unique(Number(0, fs).0)
  {
    var ids := Number(0, fs).0;
    if Schema.DistinctIds(fields) {
      forall i, j | 0 <= i < j < |ids| ensures ids[i] != ids[j] {
        assert fields[i].id != fields[j].id;
      }
    }
  }

  // ---------- the cache ----------

  predicate Unique(ids: seq<int>) {
    forall i, j :: 0 <= i < j < |ids| ==> ids[i] != ids[j]
  }

  class FieldCache {
    var cache: map<seq<GoField>, seq<int>>

    ghost predicate Valid()
      reads this
    {
      forall t :: t in cache ==> cache[t] == Number(0, t).0 && Unique(cache[t])
    }

    constructor ()
      ensures Valid()
    {
      cache := map[];
    }

    /** `ProtoFields`: the numbers of the struct whatever has been cached; None is the panic on a
        number that is used twice. */
    method ProtoFields(t: seq<GoField>) returns (r: Option<seq<int>>)
      requires Valid()
      modifies this
      ensures Valid()
      ensures r == if Unique(Number(0, t).0) then Some(Number(0, t).0) else None
      ensures cache == if r.Some? then old(cache)[t := r.value] else old(cache)
    {
      if t in cache { return Some(cache[t]); }
      var idx, id := InnerFieldIndexes(0, t);
      var seen: set<int> := {};
      for i := 0 to |idx|
        invariant Unique(idx[..i])
        invariant forall n :: n in seen <==> n in idx[..i]
      {
        assert idx[..i + 1] == idx[..i] + [idx[i]];
        if idx[i] in seen {
          var k :| 0 <= k < i && idx[..i][k] == idx[i];
          assert idx[k] == idx[i];
          return None;
        }
        seen := seen + {idx[i]};
      }
      assert idx[..|idx|] == idx;
      cache := cache[t := idx];
      r := Some(idx);
    }
  }
}
