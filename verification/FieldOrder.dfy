/** The decoder's field cursor only moves forward, so a field declared after one with a larger
    number cannot be reached, whatever bytes arrive. */
module FieldOrder {
  import opened Basics
  import opened Wire
  import opened Schema
  import opened Codec
  import opened SchemaEvolution
  import opened RoundTrip

  /** No input whatsoever can set a field that the cursor can no longer meet or that is not exported. */
  lemma {:induction false} NeverWritten(env: Env, fs: seq<Field>, cur: seq<Val>, fi: nat, j: nat, buf: seq<Byte>)
    requires Readable(env, TMsg(fs)) && Shapes(env, fs, cur) && fi <= |fs| && j < |fs|
    requires Lost(fs, fi, j) || !fs[j].exported
    ensures var r := DecodeFields(env, fs, cur, fi, buf);
            r.Ok? ==> r.value[j] == cur[j]
    decreases |buf|
  {
    if buf != [] && Uvarint(buf).Some? {
      var (key, n) := Uvarint(buf).value;
      var c := Advance(fs, fi, key / 8);
      if Lost(fs, fi, j) { AdvanceLost(fs, fi, key / 8, j); }
      if ReadPayload(key % 8, buf[n..]).Some? {
        var (p, rest) := ReadPayload(key % 8, buf[n..]).value;
        if c < |fs| && fs[c].id == key / 8 && fs[c].exported {
          assert fs[c] in fs;
          match PutVal(env, fs[c].ty, cur[c], p) {
            case Err =>
            case Ok(v) => NeverWritten(env, fs, cur[c := v], c, j, rest);
          }
        } else if !(c < |fs| && fs[c].id == key / 8 && cur[c].VNil?) {
          NeverWritten(env, fs, cur, c, j, rest);
        }
      }
    }
  }

  /** A field that is not exported or is declared after one with a larger number stays at zero on every
      input. */
  lemma UnreadableNeverDecoded(env: Env, fs: seq<Field>, buf: seq<Byte>, j: nat)
    requires Readable(env, TMsg(fs)) && j < |fs| && Unreadable(fs, j)
    ensures var r := Decode(env, fs, buf);
            r.Ok? ==> r.value[j] == Zero(fs[j].ty)
  {
    ZerosShape(env, fs);
    NeverWritten(env, fs, Zeros(fs), 0, j, buf);
  }

  /** A type shadows none of its fields if and only if it declares them in increasing order. */
  lemma UnshadowedIffIncreasing(fs: seq<Field>)
    requires DistinctIds(fs)
    ensures Increasing(fs) <==> forall j :: 0 <= j < |fs| ==> !Shadowed(fs, j)
  {
    if !Increasing(fs) {
      var i, j :| 0 <= i < j < |fs| && !(fs[i].id < fs[j].id);
      assert Shadowed(fs, j);
    }
  }

  /** A type in increasing order gives back exactly the messages whose exported values are exact and whose
      other values are zero. */
  lemma RoundTripInOrder(env: Env, fs: seq<Field>, vs: seq<Val>)
    requires Codable(env, TMsg(fs)) && TypedFields(env, fs, vs) && ShortFields(env, fs, vs)
    requires Encode(env, fs, vs).Ok? && Increasing(fs)
    ensures Decode(env, fs, Encode(env, fs, vs).value) == Ok(vs) <==>
            forall i :: 0 <= i < |fs| ==>
              if fs[i].exported then ExactVal(env, fs[i].ty, vs[i]) else vs[i] == Zero(fs[i].ty)
  {
    hide Decode, Encode, ExactVal;
    RoundTripExactly(env, fs, vs);
    forall i | 0 <= i < |fs|
      ensures ExactField(env, fs, vs, i) <==>
              if fs[i].exported then ExactVal(env, fs[i].ty, vs[i]) else vs[i] == Zero(fs[i].ty)
    {
      assert !Shadowed(fs, i);
    }
  }

  /** Decoding fails on a first record for a pointer that is not exported, if the cursor comes to it. */
  lemma RefusedPointer(env: Env, fs: seq<Field>, id: nat, p: Payload, rest: seq<Byte>)
    requires Readable(env, TMsg(fs)) && id < TWO_61 && p.Valid()
    requires var j := Advance(fs, 0, id); j < |fs| && fs[j].id == id && Refused(fs[j])
    ensures Decode(env, fs, Record(id, p) + rest) == Err
  {
    ZerosShape(env, fs);
    RecordSplits(id, p, rest);
  }

  const OutOfOrder := [Field(2, false, true, TNum(Bool)), Field(1, false, true, TNum(Bool))]

  lemma OutOfOrderType()
    ensures Codable([], TMsg(OutOfOrder)) && !Shadowed(OutOfOrder, 0) && Shadowed(OutOfOrder, 1)
  {
    assert OutOfOrder[0].id > OutOfOrder[1].id;
  }

  lemma OutOfOrderMessage(vs: seq<Val>)
    requires vs == [VNum(1), VNum(1)]
    ensures TypedFields([], OutOfOrder, vs) && ShortFields([], OutOfOrder, vs) && Encode([], OutOfOrder, vs).Ok?
    ensures Agree([], TNum(Bool), TNum(Bool), vs[0]) && Arrive([], TNum(Bool), TNum(Bool), vs[0]) == VNum(1)
  {
    hide FieldBytes;
    assert OutOfOrder[0].exported;
    forall i | 0 <= i < 2
      ensures Encodable([], OutOfOrder[i].ty, OutOfOrder[i].required, true, vs[i])
    {
    }
  }

  /** Two booleans numbered 2 and 1: the second is written and never read. */
  lemma OutOfOrderExample()
    ensures var vs := [VNum(1), VNum(1)];
            && Codable([], TMsg(OutOfOrder)) && TypedFields([], OutOfOrder, vs) && Encode([], OutOfOrder, vs).Ok?
            && Decode([], OutOfOrder, Encode([], OutOfOrder, vs).value) == Ok([VNum(1), VNum(0)])
  {
    hide Decode, Encode, Reached, Codable, ShortFields, Shadowed, Arrive, Agree;
    var fs, vs := OutOfOrder, [VNum(1), VNum(1)];
    OutOfOrderType();
    OutOfOrderMessage(vs);
    AgreeFieldsSelf([], fs, vs);
    Evolution([], fs, fs, vs);
    SelfReached([], fs, vs, 0);
    SelfReached([], fs, vs, 1);
    var r := Decode([], fs, Encode([], fs, vs).value);
    assert fs[0].id == fs[0].id && fs[1].id == fs[1].id;
    assert r.value == [r.value[0], r.value[1]];
  }

  lemma AgreeFieldsSelf(env: Env, fs: seq<Field>, vs: seq<Val>)
    requires Codable(env, TMsg(fs)) && TypedFields(env, fs, vs)
    ensures AgreeFields(env, fs, fs, vs)
  {
    AgreeSelf(env, TMsg(fs), VMsg(vs));
  }
}
