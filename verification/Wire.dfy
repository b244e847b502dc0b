/** The Protocol Buffers wire layer: base-128 varints, little-endian fixed-width words and
    length-delimited payloads, as written by the encoder and read back by the decoder. */
module Wire {
  import opened Basics

  // ---------- varints ----------

  /** `binary.PutUvarint`: seven bits a byte, low bits first, top bit set on all but the last. */
  function PutUvarint(v: nat): (r: seq<Byte>)
    ensures |r| >= 1
  {
    if v < 128 then [v] else [v % 128 + 128] + PutUvarint(v / 128)
  }

  /** `binary.Uvarint` on the bytes that follow `i` continuation bytes: the value and the number
      of bytes used, or None when the buffer ends early or the value does not fit 64 bits. */
  function UvarintFrom(buf: seq<Byte>, i: nat): (r: Option<(nat, nat)>)
    ensures r.Some? ==> 1 <= r.value.1 <= |buf|
    decreases |buf|
  {
    if buf == [] then None
    else if buf[0] < 128 then
      if i > 9 || (i == 9 && buf[0] > 1) then None else Some((buf[0], 1))
    else
      match UvarintFrom(buf[1..], i + 1)
      case None => None
      case Some((v, n)) => Some((buf[0] - 128 + 128 * v, n + 1))
  }

  function Uvarint(buf: seq<Byte>): (r: Option<(nat, nat)>)
    ensures r.Some? ==> 1 <= r.value.1 <= |buf|
  {
    UvarintFrom(buf, 0)
  }

  /** The values that still fit 64 bits after `i` groups of seven bits. */
  function Room(i: nat): (r: nat)
    requires i <= 9
    decreases 9 - i
  {
    if i == 9 then 2 else 128 * Room(i + 1)
  }

  lemma RoomAtStart()
    ensures Room(0) == TWO_64
  {
    assert Room(8) == 128 * Room(9);
    assert Room(6) == 128 * 128 * Room(8) by { assert Room(7) == 128 * Room(8); }
    assert Room(4) == 128 * 128 * Room(6) by { assert Room(5) == 128 * Room(6); }
    assert Room(2) == 128 * 128 * Room(4) by { assert Room(3) == 128 * Room(4); }
    assert Room(0) == 128 * 128 * Room(2) by { assert Room(1) == 128 * Room(2); }
  }

  lemma {:induction false} UvarintFromPut(v: nat, i: nat, rest: seq<Byte>)
    requires i <= 9 && v < Room(i)
    ensures UvarintFrom(PutUvarint(v) + rest, i) == Some((v, |PutUvarint(v)|))
    decreases v
  {
    var buf := PutUvarint(v) + rest;
    if v >= 128 {
      UvarintFromPut(v / 128, i + 1, rest);
      assert buf[1..] == PutUvarint(v / 128) + rest;
    }
  }

  /** Reading back a varint gives the value written and stops at its last byte. */
  lemma UvarintPut(v: nat, rest: seq<Byte>)
    requires v < TWO_64
    ensures Uvarint(PutUvarint(v) + rest) == Some((v, |PutUvarint(v)|))
    ensures (PutUvarint(v) + rest)[|PutUvarint(v)|..] == rest
  {
    RoomAtStart();
    UvarintFromPut(v, 0, rest);
  }

  lemma {:induction false} UvarintFromFits(buf: seq<Byte>, i: nat)
    requires UvarintFrom(buf, i).Some?
    ensures i <= 9 && UvarintFrom(buf, i).value.0 < Room(i)
    decreases |buf|
  {
    if buf[0] >= 128 {
      UvarintFromFits(buf[1..], i + 1);
    } else if i < 9 {
      assert Room(i) >= 128 by { RoomPositive(i + 1); }
    }
  }

  lemma {:induction false} RoomPositive(i: nat)
    requires i <= 9
    ensures Room(i) >= 2
    decreases 9 - i
  {
    if i < 9 { RoomPositive(i + 1); }
  }

  /** Whatever the input, an accepted varint is a 64-bit value. */
  lemma UvarintFits(buf: seq<Byte>)
    requires Uvarint(buf).Some?
    ensures Uvarint(buf).value.0 < TWO_64
  {
    RoomAtStart();
    UvarintFromFits(buf, 0);
  }

  // ---------- fixed-width words ----------

  /** Little-endian bytes of a word of `width` bytes. */
  function PutFixed(width: nat, v: nat): (r: seq<Byte>)
    ensures |r| == width
  {
    if width == 0 then [] else [v % 256] + PutFixed(width - 1, v / 256)
  }

  function GetFixed(buf: seq<Byte>): nat {
    if buf == [] then 0 else buf[0] + 256 * GetFixed(buf[1..])
  }

  function Pow256(width: nat): (r: nat)
    ensures r >= 1
  {
    if width == 0 then 1 else 256 * Pow256(width - 1)
  }

  lemma Pow256Words()
    ensures Pow256(4) == TWO_32 && Pow256(8) == TWO_64
  {
    assert Pow256(2) == 256 * Pow256(1);
    assert Pow256(4) == 256 * 256 * Pow256(2) by { assert Pow256(3) == 256 * Pow256(2); }
    assert Pow256(6) == 256 * 256 * Pow256(4) by { assert Pow256(5) == 256 * Pow256(4); }
    assert Pow256(8) == 256 * 256 * Pow256(6) by { assert Pow256(7) == 256 * Pow256(6); }
  }

  lemma {:induction false} GetFixedPut(width: nat, v: nat)
    requires v < Pow256(width)
    ensures GetFixed(PutFixed(width, v)) == v
    decreases width
  {
    if width > 0 {
      GetFixedPut(width - 1, v / 256);
      assert PutFixed(width, v)[1..] == PutFixed(width - 1, v / 256);
    }
  }

  // ---------- records ----------

  /** What one key on the wire carries. */
  datatype Payload =
    | Varint(v: nat)
    | Fixed32(v: nat)
    | Fixed64(v: nat)
    | Delim(b: seq<Byte>)
  {
    function WireType(): (w: nat)
      ensures w < 8
    {
      match this
      case Varint(_) => 0
      case Fixed64(_) => 1
      case Delim(_) => 2
      case Fixed32(_) => 5
    }

    /** Representable: words fit their width and lengths fit a Go int. */
    predicate Valid() {
      match this
      case Varint(v) => v < TWO_64
      case Fixed32(v) => v < TWO_32
      case Fixed64(v) => v < TWO_64
      case Delim(b) => |b| < TWO_63
    }

    function Bytes(): seq<Byte> {
      match this
      case Varint(v) => PutUvarint(v)
      case Fixed32(v) => PutFixed(4, v)
      case Fixed64(v) => PutFixed(8, v)
      case Delim(b) => PutUvarint(|b|) + b
    }
  }

  /** The decoder's split by wire type: the payload and the unread rest, or None when the wire
      type is unknown, the buffer is too short or a length runs past its end. */
  function ReadPayload(wireType: nat, buf: seq<Byte>): (r: Option<(Payload, seq<Byte>)>)
    ensures r.Some? ==> |r.value.1| < |buf|
    ensures r.Some? && r.value.0.Delim? ==> |r.value.0.b| < |buf|
  {
    if wireType == 0 then
      match Uvarint(buf)
      case None => None
      case Some((v, n)) => Some((Varint(v), buf[n..]))
    else if wireType == 5 then
      if |buf| < 4 then None else Some((Fixed32(GetFixed(buf[..4])), buf[4..]))
    else if wireType == 1 then
      if |buf| < 8 then None else Some((Fixed64(GetFixed(buf[..8])), buf[8..]))
    else if wireType == 2 then
      match Uvarint(buf)
      case None => None
      case Some((v, n)) =>
        if v > |buf| - n then None else Some((Delim(buf[n..n + v]), buf[n + v..]))
    else None
  }

  /** A payload is read back whole and nothing after it is touched. */
  lemma ReadPayloadBytes(p: Payload, rest: seq<Byte>)
    requires p.Valid()
    ensures ReadPayload(p.WireType(), p.Bytes() + rest) == Some((p, rest))
  {
    var buf := p.Bytes() + rest;
    match p {
      case Varint(v) =>
        UvarintPut(v, rest);
      case Fixed32(v) =>
        Pow256Words();
        GetFixedPut(4, v);
        assert buf[..4] == PutFixed(4, v) && buf[4..] == rest;
      case Fixed64(v) =>
        Pow256Words();
        GetFixedPut(8, v);
        assert buf[..8] == PutFixed(8, v) && buf[8..] == rest;
      case Delim(b) =>
        DelimBytes(b, rest);
    }
  }

  lemma Slices(a: seq<Byte>, b: seq<Byte>, c: seq<Byte>)
    ensures (a + b + c)[|a|..|a| + |b|] == b && (a + b + c)[|a| + |b|..] == c
  {
  }

  lemma DelimBytes(b: seq<Byte>, rest: seq<Byte>)
    requires |b| < TWO_63
    ensures ReadPayload(2, PutUvarint(|b|) + b + rest) == Some((Delim(b), rest))
  {
    hide PutUvarint, Uvarint;
    UvarintPut(|b|, b + rest);
    Associative(PutUvarint(|b|), b, rest);
    Slices(PutUvarint(|b|), b, rest);
  }

  /** The 64-bit key of a record: `uint64(id) << 3 | wiretype`. */
  function Key(id: nat, wireType: nat): nat
    requires wireType < 8
  {
    (id * 8) % TWO_64 + wireType
  }

  lemma KeySplits(id: nat, wireType: nat)
    requires id < TWO_61 && wireType < 8
    ensures Key(id, wireType) < TWO_64
    ensures Key(id, wireType) / 8 == id && Key(id, wireType) % 8 == wireType
  {
  }

  function Record(id: nat, p: Payload): (r: seq<Byte>)
    ensures |r| >= 1
  {
    PutUvarint(Key(id, p.WireType())) + p.Bytes()
  }

  /** Several records under one field number. */
  function Emit(id: nat, ps: seq<Payload>): seq<Byte> {
    if ps == [] then [] else Record(id, ps[0]) + Emit(id, ps[1..])
  }

  lemma EmitCons(id: nat, p: Payload, ps: seq<Payload>)
    ensures Emit(id, [p] + ps) == Record(id, p) + Emit(id, ps)
  {
    hide Record;
    assert ([p] + ps)[1..] == ps;
  }

  lemma EmitOne(id: nat, p: Payload)
    ensures Emit(id, [p]) == Record(id, p)
  {
    assert Emit(id, [p][1..]) == [];
  }

  lemma {:induction false} EmitConcat(id: nat, ps: seq<Payload>, qs: seq<Payload>)
    ensures Emit(id, ps + qs) == Emit(id, ps) + Emit(id, qs)
    decreases |ps|
  {
    hide Record;
    if ps == [] {
      assert ps + qs == qs;
    } else {
      EmitConcat(id, ps[1..], qs);
      assert (ps + qs)[1..] == ps[1..] + qs;
      Associative(Record(id, ps[0]), Emit(id, ps[1..]), Emit(id, qs));
    }
  }

  /** Delimited payloads are no longer than the records that carry them. */
  lemma {:induction false} EmitLonger(id: nat, ps: seq<Payload>)
    ensures forall i :: 0 <= i < |ps| && ps[i].Delim? ==> |ps[i].b| < |Emit(id, ps)|
    decreases |ps|
  {
    if ps != [] { EmitLonger(id, ps[1..]); }
  }
}
