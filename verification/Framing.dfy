/** The framing of messages on a TCP connection: a four-byte big-endian size, then the message, with
    reads and writes that may transfer any non-empty part of what they are given. */
module Framing {
  import opened Basics

  const MAX_PACKET := 10 * 1024 * 1024

  function Size(n: nat): seq<Byte> {
    [n / 0x100_0000 % 256, n / 0x1_0000 % 256, n / 256 % 256, n % 256]
  }

  function SizeOf(b: seq<Byte>): nat
    requires |b| == 4
  {
    var b0: int, b1: int, b2: int, b3: int := b[0], b[1], b[2], b[3];
    b0 * 0x100_0000 + b1 * 0x1_0000 + b2 * 256 + b3
  }

  function Frame(m: seq<Byte>): seq<Byte> {
    Size(|m|) + m
  }

  function Frames(ms: seq<seq<Byte>>): seq<Byte> {
    if ms == [] then [] else Frame(ms[0]) + Frames(ms[1..])
  }

  /** What one receive takes off the stream: a message and the rest, or None on an error. */
  function Parse(wire: seq<Byte>): Option<(seq<Byte>, seq<Byte>)> {
    if |wire| < 4 then None
    else
      var total := SizeOf(wire[..4]);
      if total > MAX_PACKET || total > |wire| - 4 then None
      else Some((wire[4..4 + total], wire[4 + total..]))
  }

  lemma SizeRoundTrip(n: nat)
    requires n < TWO_32
    ensures SizeOf(Size(n)) == n
  {
    var a := n / 256;
    var b := a / 256;
    Shifts(n);
    assert b / 256 < 256;
  }

  lemma Shifts(n: nat)
    ensures n / 0x1_0000 == n / 256 / 256 && n / 0x100_0000 == n / 256 / 256 / 256
  {
    var a := n / 256;
    var b := a / 256;
    var c := b / 256;
    assert n == 0x1_0000 * b + (256 * (a % 256) + n % 256);
    assert n == 0x100_0000 * c + (0x1_0000 * (b % 256) + 256 * (a % 256) + n % 256);
  }

  /** A frame is read back whole, and nothing after it is touched. */
  lemma ParseFrame(m: seq<Byte>, rest: seq<Byte>)
    requires |m| <= MAX_PACKET
    ensures Parse(Frame(m) + rest) == Some((m, rest))
  {
    SizeRoundTrip(|m|);
    var wire := Frame(m) + rest;
    assert wire[..4] == Size(|m|) && wire[4..4 + |m|] == m && wire[4 + |m|..] == rest;
  }

  /** A frame is accepted if and only if its message has at most 10485760 bytes. */
  lemma AcceptedIff(m: seq<Byte>, rest: seq<Byte>)
    requires |m| < TWO_32
    ensures Parse(Frame(m) + rest).Some? <==> |m| <= 10485760
  {
    SizeRoundTrip(|m|);
    var wire := Frame(m) + rest;
    assert wire[..4] == Size(|m|);
  }

  /** The header is the size in network byte order: its most significant byte comes first. */
  lemma HeaderValue(n: nat)
    requires n < TWO_32
    ensures var s := Size(n);
            ((s[0] as int * 256 + s[1] as int) * 256 + s[2] as int) * 256 + s[3] as int == n
  {
    Shifts(n);
  }

  /** One direction of a connection: the bytes written and not yet read. */
  class Conn {
    var wire: seq<Byte>

    constructor ()
      ensures wire == []
    {
      wire := [];
    }

    /** A write that makes progress: some non-empty part of b goes out. */
    method Write(b: seq<Byte>) returns (n: nat)
      requires b != []
      modifies this
      ensures 1 <= n <= |b| && wire == old(wire) + b[..n]
    {
      n :| 1 <= n <= |b|;
      wire := wire + b[..n];
    }

    /** A read of at most `room` bytes that makes progress; zero is the end of the stream. */
    method Read(room: nat) returns (b: seq<Byte>)
      requires room > 0
      modifies this
      ensures |b| <= room && old(wire) == b + wire
      ensures b == [] <==> old(wire) == []
    {
      if wire == [] { return []; }
      var n :| 1 <= n <= room && n <= |wire|;
      b := wire[..n];
      wire := wire[n..];
    }

    /** `sendRaw`. */
    method SendRaw(b: seq<Byte>)
      requires |b| < TWO_32
      modifies this
      ensures wire == old(wire) + Frame(b)
    {
      wire := wire + Size(|b|);
      var sent := 0;
      while sent < |b|
        invariant 0 <= sent <= |b| && wire == old(wire) + Size(|b|) + b[..sent]
      {
        var n := Write(b[sent..]);
        assert b[..sent] + b[sent..][..n] == b[..sent + n];
        sent := sent + n;
      }
      assert b[..|b|] == b;
    }

    /** `receiveRaw`: None where the source returns an error; the message otherwise, with exactly its
        frame taken off the stream, whatever the sizes of the reads. */
    method ReceiveRaw() returns (r: Option<seq<Byte>>)
      modifies this
      ensures r.Some? <==> Parse(old(wire)).Some?
      ensures r.Some? ==> (r.value, wire) == Parse(old(wire)).value
    {
      if |wire| < 4 { return None; }
      var total := SizeOf(wire[..4]);
      wire := wire[4..];
      if total > MAX_PACKET { return None; }
      ghost var body := wire;
      var buffer: seq<Byte> := [];
      while |buffer| < total
        invariant |buffer| <= total && buffer + wire == body
        decreases total - |buffer|
      {
        var b := Read(total - |buffer|);
        if b == [] { return None; }
        buffer := buffer + b;
      }
      assert body[..total] == buffer && body[total..] == wire;
      assert old(wire)[4..4 + total] == body[..total] && old(wire)[4 + total..] == body[total..];
      r := Some(buffer);
    }

    /** Receiving as many messages as were sent gives them back in order, and leaves the stream
        where the last frame ends. */
    method ReceiveAll(ghost ms: seq<seq<Byte>>, ghost rest: seq<Byte>, count: nat) returns (got: seq<seq<Byte>>)
      requires count == |ms| && wire == Frames(ms) + rest
      requires forall i :: 0 <= i < |ms| ==> |ms[i]| <= MAX_PACKET
      modifies this
      ensures got == ms && wire == rest
    {
      got := [];
      assert ms[0..] == ms;
      for i := 0 to count
        invariant got == ms[..i] && wire == Frames(ms[i..]) + rest
      {
        assert ms[i..][1..] == ms[i + 1..];
        ParseFrame(ms[i], Frames(ms[i + 1..]) + rest);
        assert Frames(ms[i..]) + rest == Frame(ms[i]) + (Frames(ms[i + 1..]) + rest);
        var m := ReceiveRaw();
        got := got + [m.value];
      }
      assert ms[count..] == [] && [] + rest == rest;
    }

    /** Sending a sequence of messages puts their frames on the stream. */
    method SendAll(ms: seq<seq<Byte>>)
      requires forall i :: 0 <= i < |ms| ==> |ms[i]| <= MAX_PACKET
      modifies this
      ensures wire == old(wire) + Frames(ms)
    {
      assert ms[0..] == ms;
      for i := 0 to |ms|
        invariant wire + Frames(ms[i..]) == old(wire) + Frames(ms)
      {
        assert ms[i..][1..] == ms[i + 1..];
        SendRaw(ms[i]);
      }
      assert ms[|ms|..] == [];
    }

    /** A whole exchange: whatever is sent over an idle connection, in whatever parts, arrives. */
    method Exchange(ms: seq<seq<Byte>>) returns (got: seq<seq<Byte>>)
      requires wire == [] && forall i :: 0 <= i < |ms| ==> |ms[i]| <= 10485760
      modifies this
      ensures got == ms && wire == []
    {
      SendAll(ms);
      assert wire == Frames(ms) + [];
      got := ReceiveAll(ms, [], |ms|);
    }
  }
}
