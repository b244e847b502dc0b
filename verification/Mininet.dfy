/** The address allocator of the mininet platform: hosts are dealt out to the physical servers in
    turn, each server counting up its own address byte by byte. */
module Mininet {
  import opened Basics

  // ---------- counting up an address ----------

  /** An address as a number, most significant byte first. */
  function Number(b: seq<Byte>): nat {
    if b == [] then 0 else Number(b[..|b| - 1]) * 256 + b[|b| - 1]
  }

  /** One is added to the last byte that is not 255, and the bytes after it wrap to zero. */
  function Increment(b: seq<Byte>): (r: seq<Byte>)
    ensures |r| == |b|
  {
    if b == [] then []
    else
      var last: int := b[|b| - 1];
      if last < 255 then b[..|b| - 1] + [last + 1] else Increment(b[..|b| - 1]) + [0]
  }

  /** The carry loop: bytes are incremented from the right, until one does not wrap to zero. */
  method IncrementInPlace(ip: array<Byte>)
    modifies ip
    ensures ip[..] == Increment(old(ip[..]))
  {
    ghost var before := ip[..];
    var j := ip.Length - 1;
    while j >= 0
      invariant -1 <= j < ip.Length
      invariant forall i :: 0 <= i <= j ==> ip[i] == before[i]
      invariant forall i :: j < i < ip.Length ==> before[i] == 255 && ip[i] == 0
      decreases j
    {
      var v: int := ip[j];
      ip[j] := (v + 1) % 256;
      if ip[j] > 0 {
        IncrementAt(before, j);
        return;
      }
      j := j - 1;
    }
    IncrementAt(before, -1);
  }

  /** Increment, position by position, for the last position k that is not 255; -1 if none. */
  lemma {:induction false} IncrementAt(b: seq<Byte>, k: int)
    requires -1 <= k < |b| && (k >= 0 ==> b[k] != 255) && forall i :: k < i < |b| ==> b[i] == 255
    ensures forall i :: 0 <= i < k ==> Increment(b)[i] == b[i]
    ensures k >= 0 ==> Increment(b)[k] == b[k] as int + 1
    ensures forall i :: k < i < |b| ==> Increment(b)[i] == 0
    decreases |b|
  {
    if |b| > k + 1 {
      IncrementAt(b[..|b| - 1], k);
    }
  }

  /** The loop counts: unless all bytes are 255, the address as a number grows by one. */
  lemma {:induction false} IncrementCounts(b: seq<Byte>, k: nat)
    requires k < |b| && b[k] != 255
    ensures Number(Increment(b)) == Number(b) + 1
    decreases |b|
  {
    var p := b[..|b| - 1];
    if b[|b| - 1] < 255 {
      assert Increment(b)[..|b| - 1] == p;
    } else {
      assert Increment(b)[..|b| - 1] == Increment(p);
      IncrementCounts(p, k);
    }
  }

  /** After the last address comes the first again. */
  lemma {:induction false} IncrementWraps(b: seq<Byte>)
    requires forall k :: 0 <= k < |b| ==> b[k] == 255
    ensures forall k :: 0 <= k < |b| ==> Increment(b)[k] == 0
    decreases |b|
  {
    if b != [] { IncrementWraps(b[..|b| - 1]); }
  }

  // ---------- dealing out hosts ----------

  /** The address of server s's network after c increments, starting from 10.(s+1).0.1. */
  function Address(s: nat, c: nat): (r: seq<Byte>)
    requires s < 255
    ensures |r| == 4
  {
    if c == 0 then [10, s + 1, 0, 1] else Increment(Address(s, c - 1))
  }

  /** The server of the i-th host, and the host's place among those of that server. */
  function Server(P: nat, i: nat): (s: nat)
    requires P > 0
    ensures s < P
  {
    i % P
  }

  function Place(P: nat, i: nat): (c: nat)
    requires P > 0
    ensures c >= 1
  {
    i / P + 1
  }

  lemma {:induction false} AddressForm(s: nat, c: nat)
    requires s < 255 && c < 65535
    ensures Address(s, c) == [10, s + 1, (1 + c) / 256, (1 + c) % 256]
    decreases c
  {
    if c > 0 {
      AddressForm(s, c - 1);
      var a := Address(s, c - 1);
      IncrementAt(a, if c % 256 < 255 then 3 else 2);
      assert Address(s, c) == Increment(a);
    }
  }

  /** The loop that maps hosts to servers round robin. */
  method GetHosts(physicalServers: nat, nbrHosts: nat) returns (hosts: seq<seq<Byte>>)
    requires 0 < physicalServers <= 255
    ensures |hosts| == nbrHosts
    ensures forall i :: 0 <= i < nbrHosts ==> hosts[i] == Address(Server(physicalServers, i), Place(physicalServers, i))
  {
    hide Address, Server, Place, Turns;
    var P := physicalServers;
    var ips: seq<seq<Byte>> := seq(P, s requires 0 <= s < P => [10, s + 1, 0, 1]);
    hosts := [];
    TurnsStart(P);
    for i := 0 to nbrHosts
      invariant |ips| == P && |hosts| == i
      invariant forall s :: 0 <= s < P ==> ips[s] == Address(s, Turns(P, i, s))
      invariant forall k :: 0 <= k < i ==> hosts[k] == Address(Server(P, k), Place(P, k))
    {
      var s := Server(P, i);
      TurnsStep(P, i);
      AddressStep(s, Turns(P, i, s));
      var ip := NextAddress(ips[s]);
      ips := ips[s := ip];
      hosts := hosts + [ip];
    }
  }

  /** A host takes a copy of its server's address, incremented. */
  method NextAddress(address: seq<Byte>) returns (r: seq<Byte>)
    requires |address| == 4
    ensures r == Increment(address)
  {
    var ip := new Byte[4];
    forall j | 0 <= j < 4 { ip[j] := address[j]; }
    assert ip[..] == address;
    IncrementInPlace(ip);
    r := ip[..];
  }

  lemma AddressStep(s: nat, c: nat)
    requires s < 255
    ensures Increment(Address(s, c)) == Address(s, c + 1)
  {
  }

  lemma TurnsStart(P: nat)
    requires 0 < P <= 255
    ensures forall s :: 0 <= s < P ==> Address(s, Turns(P, 0, s)) == [10, s + 1, 0, 1]
  {
    forall s | 0 <= s < P ensures Turns(P, 0, s) == 0 {
      DivUnique(P, P - 1 - s, 0, P - 1 - s);
    }
  }

  /** How many of the first i hosts went to server s: the closed form of the host list. */
  function Turns(P: nat, i: nat, s: nat): nat
    requires s < P
  {
    (i + P - 1 - s) / P
  }

  /** One more host: its server has had i / P before, and no other server gets a turn. */
  lemma TurnsStep(P: nat, i: nat)
    requires P > 0
    ensures Turns(P, i, Server(P, i)) + 1 == Place(P, i)
    ensures forall s :: 0 <= s < P ==> Turns(P, i + 1, s) == Turns(P, i, s) + if s == Server(P, i) then 1 else 0
  {
    var q, r := i / P, i % P;
    assert i == P * q + r;
    forall s | 0 <= s < P
      ensures Turns(P, i, s) == (if s < r then q + 1 else q)
      ensures Turns(P, i + 1, s) == (if s <= r then q + 1 else q)
    {
      assert P * (q + 1) == P * q + P;
      DivUnique(P, i + P - 1 - s, if s < r then q + 1 else q, if s < r then r - 1 - s else r + P - 1 - s);
      DivUnique(P, i + P - s, if s <= r then q + 1 else q, if s <= r then r - s else r + P - s);
    }
  }

  /** Hosts that the round robin gives to server s. */
  function Dealt(P: nat, n: nat, s: nat): nat
    requires s < P
  {
    if n == 0 then 0 else Dealt(P, n - 1, s) + if (n - 1) % P == s then 1 else 0
  }

  /** The count printed for each server is the number of hosts it was dealt. */
  lemma {:induction false} CountIsDealt(P: nat, n: nat, s: nat)
    requires s < P
    ensures Turns(P, n, s) == Dealt(P, n, s)
    decreases n
  {
    if n == 0 {
      DivUnique(P, P - 1 - s, 0, P - 1 - s);
    } else {
      CountIsDealt(P, n - 1, s);
      TurnsStep(P, n - 1);
    }
  }

  function DealtUpTo(P: nat, n: nat, k: nat): nat
    requires k <= P
  {
    if k == 0 then 0 else DealtUpTo(P, n, k - 1) + Turns(P, n, k - 1)
  }

  /** The counts add up to the number of hosts. */
  lemma {:induction false} CountsAddUp(P: nat, n: nat)
    requires P > 0
    ensures DealtUpTo(P, n, P) == n
    decreases n
  {
    if n == 0 {
      NoneDealt(P, P);
    } else {
      CountsAddUp(P, n - 1);
      OneDealt(P, n - 1, P);
    }
  }

  lemma {:induction false} NoneDealt(P: nat, k: nat)
    requires 0 < P && k <= P
    ensures DealtUpTo(P, 0, k) == 0
    decreases k
  {
    if k > 0 {
      NoneDealt(P, k - 1);
      CountIsDealt(P, 0, k - 1);
    }
  }

  lemma {:induction false} OneDealt(P: nat, n: nat, k: nat)
    requires 0 < P && k <= P
    ensures DealtUpTo(P, n + 1, k) == DealtUpTo(P, n, k) + if n % P < k then 1 else 0
    decreases k
  {
    TurnsStep(P, n);
    if k > 0 { OneDealt(P, n, k - 1); }
  }

  /** While every server has under 65535 hosts, all addresses are distinct and every host is in its
      server's /16 network. */
  lemma AddressesDistinct(P: nat, i: nat, j: nat)
    requires 0 < P <= 255 && i < j && Place(P, j) < 65535
    ensures Address(Server(P, j), Place(P, j))[..2] == [10, Server(P, j) + 1]
    ensures Address(Server(P, i), Place(P, i)) != Address(Server(P, j), Place(P, j))
  {
    hide Address, Server, Place;
    DifferentPlaces(P, i, j);
    AddressForm(Server(P, j), Place(P, j));
    FormsDiffer(Server(P, i), Place(P, i), Server(P, j), Place(P, j));
  }

  lemma DifferentPlaces(P: nat, i: nat, j: nat)
    requires 0 < P && i < j
    ensures Place(P, i) <= Place(P, j) && (Server(P, i) != Server(P, j) || Place(P, i) < Place(P, j))
  {
    var qi, qj := i / P, j / P;
    assert i == P * qi + i % P && j == P * qj + j % P;
    assert qi > qj ==> P * qi >= P * (qj + 1);
    assert P * (qj + 1) == P * qj + P;
  }

  lemma FormsDiffer(s: nat, c: nat, s': nat, c': nat)
    requires s < 255 && s' < 255 && c < 65535 && c' < 65535 && (s != s' || c != c')
    ensures Address(s, c) != Address(s', c')
  {
    hide Address;
    AddressForm(s, c);
    AddressForm(s', c');
    var a, a' := Address(s, c), Address(s', c');
    assert 256 * a[2] as int + a[3] == 1 + c && 256 * a'[2] as int + a'[3] == 1 + c';
    assert a[1] == s + 1 && a'[1] == s' + 1;
  }
}
