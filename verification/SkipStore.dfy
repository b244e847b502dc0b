/** The skipblock store: one bunch of blocks for each chain, indexed by hash, with a cached latest
    block, updated in place. Hashes are opaque; a hash determines the chain of its block. */
module SkipStore {

  type Hash = nat

  datatype Link = Link(to: Hash, signature: nat)

  /** Whether a forward link's signature verifies under a roster. */
  type Verifier = (Link, nat) -> bool

  class SkipBlock {
    const hash: Hash
    const index: int
    const genesis: Hash
    const roster: nat
    var forward: seq<Link>
    var childSL: seq<Hash>

    constructor (hash: Hash, index: int, genesis: Hash, roster: nat, forward: seq<Link>, childSL: seq<Hash>)
      ensures this.hash == hash && this.index == index && this.genesis == genesis && this.roster == roster
      ensures this.forward == forward && this.childSL == childSL
    {
      this.hash, this.index, this.genesis, this.roster := hash, index, genesis, roster;
      this.forward, this.childSL := forward, childSL;
    }

    /** `SkipChainID`: a genesis block names its chain by its own hash. */
    function ChainId(): (r: Hash)
      ensures index == 0 ==> r == hash
      ensures index != 0 ==> r == genesis
    {
      if index == 0 then hash else genesis
    }
  }

  /** The links of `more` that precede the first one that does not verify. */
  function Verified(verify: Verifier, roster: nat, more: seq<Link>): (r: seq<Link>)
    ensures r <= more
    ensures forall i :: 0 <= i < |r| ==> verify(r[i], roster)
    ensures |r| < |more| ==> !verify(more[|r|], roster)
  {
    if more == [] || !verify(more[0], roster) then []
    else [more[0]] + Verified(verify, roster, more[1..])
  }

  /** The forward links of a known block after it is stored again with links `more`. */
  function Extended(verify: Verifier, roster: nat, old0: seq<Link>, more: seq<Link>): (r: seq<Link>)
    ensures old0 <= r
    ensures forall i :: |old0| <= i < |r| ==> verify(r[i], roster)
    ensures |more| > |old0| ==> r <= old0 + more[|old0|..]
    ensures |more| <= |old0| ==> r == old0
    ensures |r| < |more| ==> |more| > |old0| && !verify(more[|r|], roster)
  {
    if |more| > |old0| then old0 + Verified(verify, roster, more[|old0|..]) else old0
  }

  class SkipBlockBunch {
    const genesisId: Hash
    ghost const chain: Hash -> Hash
    var latest: SkipBlock
    var blocks: map<Hash, SkipBlock>

    /** Every block is stored under its own hash and belongs to this chain, as its hash says; the latest block is
        stored and no stored block has a larger index. */
    ghost predicate Valid()
      reads this
    {
      && latest.hash in blocks && blocks[latest.hash] == latest
      && forall h :: h in blocks ==>
           && blocks[h].hash == h && blocks[h].index <= latest.index
           && blocks[h].ChainId() == genesisId == chain(h)
    }

    constructor (sb: SkipBlock, ghost chain: Hash -> Hash)
      requires chain(sb.hash) == sb.ChainId()
      ensures Valid() && genesisId == sb.ChainId() && this.chain == chain
      ensures latest == sb && blocks == map[sb.hash := sb]
    {
      this.chain := chain;
      genesisId := sb.ChainId();
      latest := sb;
      blocks := map[sb.hash := sb];
    }

    method GetById(id: Hash) returns (r: SkipBlock?)
      ensures r == if id in blocks then blocks[id] else null
    {
      r := if id in blocks then blocks[id] else null;
    }

    /** `Store`: false where the source rejects a known block with a bad new forward link. */
    method Store(verify: Verifier, sb: SkipBlock) returns (ok: bool)
      requires Valid() && sb.ChainId() == genesisId == chain(sb.hash)
      modifies this, if sb.hash in blocks then {blocks[sb.hash]} else {}
      ensures Valid() && sb.hash in blocks
      ensures blocks == if sb.hash in old(blocks) then old(blocks) else old(blocks)[sb.hash := sb]
      ensures Grown(verify, blocks[sb.hash]) && Taken(verify, blocks[sb.hash], sb)
      ensures sb.hash in old(blocks) ==>
                var b := old(blocks)[sb.hash];
                latest == old(latest) && Merged(verify, b, sb, ok)
      ensures sb.hash !in old(blocks) ==>
                ok && latest == (if sb.index > old(latest).index then sb else old(latest))
    {
      if sb.hash in blocks {
        ok := Merge(verify, blocks[sb.hash], sb);
      } else {
        blocks := blocks[sb.hash := sb];
        if sb.index > latest.index {
          latest := sb;
        }
        ok := true;
      }
    }
  }

  /** The known block b has taken over the verified ones of the new forward links of sb, and, if all of
      them verified, its new child links. */
  twostate predicate Merged(verify: Verifier, b: SkipBlock, sb: SkipBlock, ok: bool)
    reads b
  {
    && b.forward == Extended(verify, b.roster, old(b.forward), old(sb.forward))
    && (ok <==> |b.forward| >= |old(sb.forward)|)
    && b.childSL == if ok && |old(sb.childSL)| > |old(b.childSL)|
                    then old(b.childSL) + old(sb.childSL)[|old(b.childSL)|..]
                    else old(b.childSL)
  }

  /** What storing the block sb means for the block b in its place: b keeps its forward links and gets the
      new ones of sb in order, up to the first that does not verify; and if it has got all of them, it gets
      the new child links too. */
  twostate predicate Taken(verify: Verifier, b: SkipBlock, sb: SkipBlock)
    reads b
  {
    var known, more := old(b.forward), old(sb.forward);
    && (if |more| <= |known| then b.forward == known
        else
          && known <= b.forward <= known + more[|known|..]
          && (forall i :: |known| <= i < |b.forward| ==> verify(b.forward[i], b.roster))
          && (|b.forward| < |more| ==> !verify(more[|b.forward|], b.roster)))
    && b.childSL == if |b.forward| >= |more| && |old(sb.childSL)| > |old(b.childSL)|
                    then old(b.childSL) + old(sb.childSL)[|old(b.childSL)|..]
                    else old(b.childSL)
  }

  /** The forward links and child links of a known block b, extended from a newer copy. */
  method Merge(verify: Verifier, b: SkipBlock, sb: SkipBlock) returns (ok: bool)
    modifies b
    ensures Merged(verify, b, sb, ok) && Grown(verify, b) && Taken(verify, b, sb)
  {
    if |sb.forward| > |b.forward| {
      ok := AppendVerified(verify, b, sb.forward[|b.forward|..]);
      if !ok { return; }
    }
    if |sb.childSL| > |b.childSL| {
      b.childSL := b.childSL + sb.childSL[|b.childSL|..];
    }
    ok := true;
  }

  /** The loop over the new forward links, left at the first that does not verify. */
  method AppendVerified(verify: Verifier, b: SkipBlock, more: seq<Link>) returns (ok: bool)
    modifies b`forward
    ensures b.forward == old(b.forward) + Verified(verify, b.roster, more)
    ensures ok <==> Verified(verify, b.roster, more) == more
  {
    for i := 0 to |more|
      invariant b.forward == old(b.forward) + more[..i]
      invariant forall j :: 0 <= j < i ==> verify(more[j], b.roster)
    {
      if !verify(more[i], b.roster) {
        VerifiedIs(verify, b.roster, more, i);
        return false;
      }
      b.forward := b.forward + [more[i]];
    }
    VerifiedIs(verify, b.roster, more, |more|);
    assert more[..|more|] == more;
    ok := true;
  }

  lemma {:induction false} VerifiedIs(verify: Verifier, roster: nat, more: seq<Link>, i: nat)
    requires i <= |more| && (forall j :: 0 <= j < i ==> verify(more[j], roster))
    requires i < |more| ==> !verify(more[i], roster)
    ensures Verified(verify, roster, more) == more[..i]
    decreases i
  {
    if i > 0 {
      VerifiedIs(verify, roster, more[1..], i - 1);
      assert more[..i] == [more[0]] + more[1..][..i - 1];
    }
  }

  type Blocks = map<Hash, map<Hash, SkipBlock>>

  function At(c: Blocks, g: Hash, h: Hash): SkipBlock? {
    if g in c && h in c[g] then c[g][h] else null
  }

  function Put(m: map<Hash, SkipBlock>, h: Hash, sb: SkipBlock): map<Hash, SkipBlock> {
    m[h := sb]
  }

  /** A block added under a chain and a hash, unless that place is taken. */
  function With(c: Blocks, g: Hash, h: Hash, sb: SkipBlock): Blocks {
    var chain: map<Hash, SkipBlock> := if g in c then c[g] else map[];
    c[g := if h in chain then chain else Put(chain, h, sb)]
  }

  /** What is stored stays where it is, the new block is found where it belongs, and no other place
      is filled. */
  lemma WithAt(c: Blocks, g: Hash, h: Hash, sb: SkipBlock, g': Hash, h': Hash)
    ensures At(c, g', h') != null ==> At(With(c, g, h, sb), g', h') == At(c, g', h')
    ensures At(c, g, h) == null ==> At(With(c, g, h, sb), g, h) == sb
    ensures At(c, g', h') == null && (g' != g || h' != h) ==> At(With(c, g, h, sb), g', h') == null
  {
  }

  lemma WithKnown(c: Blocks, g: Hash, h: Hash, sb: SkipBlock)
    requires g in c
    ensures h in c[g] ==> With(c, g, h, sb) == c
    ensures h !in c[g] ==> With(c, g, h, sb) == c[g := Put(c[g], h, sb)]
  {
  }

  lemma WithTwice(c: Blocks, g: Hash, h: Hash, sb: SkipBlock)
    ensures With(With(c, g, h, sb), g, h, sb) == With(c, g, h, sb)
  {
  }

  /** The forward links of a block have only been extended, with links that verify. */
  twostate predicate Grown(verify: Verifier, b: SkipBlock)
    reads b
  {
    && old(b.forward) <= b.forward
    && forall i :: |old(b.forward)| <= i < |b.forward| ==> verify(b.forward[i], b.roster)
  }

  class SBBStorage {
    var bunches: map<Hash, SkipBlockBunch>
    ghost var contents: Blocks  // all blocks, by chain and hash
    ghost var repr: set<SkipBlockBunch>
    ghost const chain: Hash -> Hash

    constructor (ghost chain: Hash -> Hash)
      ensures Valid() && contents == map[] && this.chain == chain
    {
      this.chain := chain;
      bunches, contents, repr := map[], map[], {};
    }

    /** Every bunch is valid and filed under its chain. */
    ghost predicate Valid()
      reads this, repr
    {
      && contents.Keys == bunches.Keys
      && forall g :: g in bunches ==>
           && bunches[g] in repr
           && bunches[g].Valid() && bunches[g].genesisId == g && bunches[g].chain == chain
           && bunches[g].blocks == contents[g]
    }

    /** The block of a hash in the bunch of a chain. */
    ghost function Lookup(g: Hash, id: Hash): SkipBlock?
      reads this
    {
      At(contents, g, id)
    }

    /** The block that has sb's place once sb is stored: the one that is there, or sb itself. */
    ghost function Holder(sb: SkipBlock): (r: SkipBlock)
      reads this`contents
    {
      var b := At(contents, sb.ChainId(), sb.hash);
      if b == null then sb else b
    }

    lemma HolderInBunch(b: SkipBlockBunch, sb: SkipBlock)
      requires Valid() && sb.ChainId() in bunches && bunches[sb.ChainId()] == b
      ensures Holder(sb) == if sb.hash in b.blocks then b.blocks[sb.hash] else sb
    {
    }

    method AddBunch(sb: SkipBlock) returns (b: SkipBlockBunch?)
      requires Valid() && chain(sb.hash) == sb.ChainId()
      modifies this
      ensures Valid()
      ensures b == null <==> sb.ChainId() in old(bunches)
      ensures b == null ==> bunches == old(bunches)
      ensures b != null ==> contents == With(old(contents), sb.ChainId(), sb.hash, sb)
      ensures b != null ==> sb.ChainId() in bunches && bunches[sb.ChainId()] == b
    {
      if sb.ChainId() in bunches {
        return null;
      }
      b := BunchFor(sb);
    }

    /** The bunch of the block's chain, created with the block if there is none. */
    method BunchFor(sb: SkipBlock) returns (b: SkipBlockBunch)
      requires Valid() && chain(sb.hash) == sb.ChainId()
      modifies this
      ensures Valid() && sb.ChainId() in bunches && bunches[sb.ChainId()] == b
      ensures b in old(repr) || fresh(b)
      ensures sb.ChainId() in old(bunches) ==> contents == old(contents)
      ensures sb.ChainId() !in old(bunches) ==> contents == With(old(contents), sb.ChainId(), sb.hash, sb)
    {
      if sb.ChainId() !in bunches {
        b := new SkipBlockBunch(sb, chain);
        bunches := bunches[sb.ChainId() := b];
        contents := contents[sb.ChainId() := b.blocks];
        repr := repr + {b};
      } else {
        b := bunches[sb.ChainId()];
      }
    }

    /** Storing a block in the existing bunch of its chain. */
    method StoreInBunch(verify: Verifier, sb: SkipBlock, bunch: SkipBlockBunch)
      requires Valid() && chain(sb.hash) == sb.ChainId()
      requires sb.ChainId() in bunches && bunches[sb.ChainId()] == bunch
      modifies this`contents, bunch, Holder(sb)
      ensures Valid() && contents == With(old(contents), sb.ChainId(), sb.hash, sb)
      ensures Grown(verify, old(Holder(sb))) && Taken(verify, old(Holder(sb)), sb)
    {
      hide With, Merged, Grown, Taken, SkipBlock.ChainId, SkipBlockBunch.Valid;
      var g := sb.ChainId();
      WithKnown(contents, g, sb.hash, sb);
      HolderInBunch(bunch, sb);
      assert forall k :: k in bunches && k != g ==> bunches[k] != bunch;
      var ok := bunch.Store(verify, sb);
      contents := With(contents, g, sb.hash, sb);
    }

    /** `Store`: the block is added under its hash in its chain unless that is taken, and nothing
        else changes place; forward links of the block there only grow, by links that verify. */
    method Store(verify: Verifier, sb: SkipBlock)
      requires Valid() && chain(sb.hash) == sb.ChainId()
      modifies this, repr, Holder(sb)
      ensures Valid()
      ensures contents == With(old(contents), sb.ChainId(), sb.hash, sb)
      ensures Lookup(sb.ChainId(), sb.hash) == old(Holder(sb)) && Grown(verify, old(Holder(sb)))
      ensures Taken(verify, old(Holder(sb)), sb)
      ensures var b := old(Holder(sb));
              |old(sb.forward)| > |old(b.forward)| &&
              (forall i :: |old(b.forward)| <= i < |old(sb.forward)| ==> verify(old(sb.forward)[i], b.roster)) ==>
                b.forward == old(b.forward) + old(sb.forward)[|old(b.forward)|..]
    {
      hide Valid, With, At;
      WithTwice(contents, sb.ChainId(), sb.hash, sb);
      WithAt(contents, sb.ChainId(), sb.hash, sb, sb.ChainId(), sb.hash);
      ghost var b := Holder(sb);
      var bunch := BunchFor(sb);
      assert Holder(sb) == b && b.forward == old(b.forward) && b.childSL == old(b.childSL);
      StoreInBunch(verify, sb, bunch);
    }

    /** `GetByID`: the scan over all bunches, in any order. */
    method GetById(id: Hash) returns (r: SkipBlock?)
      requires Valid()
      ensures r == Lookup(chain(id), id)
    {
      var todo := bunches.Keys;
      while todo != {}
        invariant todo <= bunches.Keys
        invariant forall g :: g in bunches && g !in todo ==> id !in bunches[g].blocks
        decreases |todo|
      {
        var g :| g in todo;
        var sb := bunches[g].GetById(id);
        if sb != null {
          return sb;
        }
        todo := todo - {g};
      }
      r := null;
    }

    /** `GetFromGenesisByID`: the lookup in one bunch. On a block's own chain it gives what the scan
        gives, and on any other chain nothing. */
    method GetFromGenesisById(genesis: Hash, id: Hash) returns (r: SkipBlock?)
      requires Valid()
      ensures r == Lookup(genesis, id)
      ensures r == if genesis == chain(id) then Lookup(chain(id), id) else null
    {
      if genesis !in bunches {
        return null;
      }
      r := bunches[genesis].GetById(id);
    }

    /** `GetLatest`: a stored block of the chain with the largest index. */
    method GetLatest(genesis: Hash) returns (r: SkipBlock?)
      requires Valid()
      ensures r == null <==> genesis !in bunches
      ensures r != null ==>
                && Lookup(genesis, r.hash) == r
                && forall h :: h in bunches[genesis].blocks ==> bunches[genesis].blocks[h].index <= r.index
    {
      r := if genesis in bunches then bunches[genesis].latest else null;
    }
  }
}
