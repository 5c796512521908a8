/**
 * The ledger as a value: the key-value store that maps a height to the
 * block saved under it, what one `addBlock` does to it, and what
 * `validateChain` reports about it.
 */
module Ledger {
  import opened Blocks
  import opened Timestamps

  /** The store: height to block (the values the store holds, already parsed). */
  type Store = map<int, Block>

  /** The heights are exactly 0 .. |m| - 1: no gaps, nothing else. */
  predicate Dense(m: Store)
  {
    && (forall h :: h in m ==> 0 <= h < |m|)
    && Covered(m)
  }

  /** Every height from 0 up to the last one the count gives is stored. */
  predicate Covered(m: Store)
  {
    forall h :: 0 <= h < |m| ==> h in m
  }

  /** The heights 0 .. n - 1, as a set: exactly `n` of them. */
  function Heights(n: nat): (r: set<int>)
    ensures forall h :: h in r <==> 0 <= h < n
    ensures |r| == n
  {
    if n == 0 then {} else Heights(n - 1) + {n - 1}
  }

  /** If every height 0 .. |m| - 1 is stored, no other key can be: the store is dense. */
  lemma CoveredIsDense(m: Store)
    requires Covered(m)
    ensures Dense(m)
  {
    var r := Heights(|m|);
    assert r <= m.Keys;
    assert m.Keys == r + (m.Keys - r);
    assert |m.Keys - r| == 0;
    assert forall k :: k in m ==> k in r;
  }

  /** `getLastBlockHeight`: the number of entries minus one. */
  function LastHeight(m: Store): (r: int)
    ensures r == -1 <==> m == map[]
    ensures Dense(m) && m != map[] ==> r in m && r + 1 !in m
  {
    |m| - 1
  }

  /** The blocks at heights 0 .. n - 1, in height order. */
  function Prefix(m: Store, n: nat): (bs: seq<Block>)
    requires forall h :: 0 <= h < n ==> h in m
    ensures |bs| == n
    ensures forall i :: 0 <= i < n ==> bs[i] == m[i]
  {
    if n == 0 then [] else Prefix(m, n - 1) + [m[n - 1]]
  }

  /** The whole chain, in height order. */
  function InOrder(m: Store): seq<Block>
    requires Covered(m)
  {
    Prefix(m, |m|)
  }

  /** The positions `b` where the hash of block `b` is not the link stored in block `b + 1`, in order. */
  function LinkErrors(bs: seq<Block>): (errs: seq<nat>)
    ensures forall k :: 0 <= k < |errs| ==> errs[k] + 1 < |bs|
  {
    if |bs| < 2 then []
    else
      var n := |bs|;
      LinkErrors(bs[..n - 1]) + (if bs[n - 2].hash != bs[n - 1].previousBlockHash then [n - 2] else [])
  }

  /** `p` is reported exactly when `p` is an adjacent pair whose link is broken. */
  lemma {:induction false} LinkErrorsExact(bs: seq<Block>, p: int)
    ensures p in LinkErrors(bs) <==> 0 <= p < |bs| - 1 && bs[p].hash != bs[p + 1].previousBlockHash
  {
    if |bs| >= 2 {
      var n := |bs|;
      var front := bs[..n - 1];
      LinkErrorsExact(front, p);
      if 0 <= p < n - 2 {
        assert front[p] == bs[p] && front[p + 1] == bs[p + 1];
      }
    }
  }

  /** Each broken link is reported once, in increasing order of position. */
  lemma {:induction false} LinkErrorsIncreasing(bs: seq<Block>)
    ensures forall i, j :: 0 <= i < j < |LinkErrors(bs)| ==> LinkErrors(bs)[i] < LinkErrors(bs)[j]
  {
    if |bs| >= 2 {
      var n := |bs|;
      var front := bs[..n - 1];
      LinkErrorsIncreasing(front);
      var errs := LinkErrors(front);
      forall i | 0 <= i < |errs|
        ensures errs[i] < n - 2
      {
        LinkErrorsExact(front, errs[i]);
      }
    }
  }

  /** A chain whose adjacent pairs are all linked reports nothing. */
  lemma {:induction false} LinkedHasNoErrors(bs: seq<Block>)
    requires forall p :: 0 <= p < |bs| - 1 ==> bs[p].hash == bs[p + 1].previousBlockHash
    ensures LinkErrors(bs) == []
  {
    if |bs| >= 2 {
      var front := bs[..|bs| - 1];
      assert forall i :: 0 <= i < |front| ==> front[i] == bs[i];
      LinkedHasNoErrors(front);
    }
  }

  /** A chain whose only broken pair is at position `h` reports exactly `[h]`. */
  lemma {:induction false} OneBrokenLink(bs: seq<Block>, h: nat)
    requires h < |bs| - 1 && bs[h].hash != bs[h + 1].previousBlockHash
    requires forall p :: 0 <= p < |bs| - 1 && p != h ==> bs[p].hash == bs[p + 1].previousBlockHash
    ensures LinkErrors(bs) == [h]
  {
    var front := bs[..|bs| - 1];
    assert forall i :: 0 <= i < |front| ==> front[i] == bs[i];
    if h == |bs| - 2 {
      LinkedHasNoErrors(front);
    } else {
      OneBrokenLink(front, h);
    }
  }

  /**
   * The store after `addBlock(b)` at clock reading `ms`. The time is stamped
   * first. On an empty store the body becomes the genesis sentinel and the
   * block goes under its own height. Otherwise the block takes height
   * last + 1 and the hash of the block stored at `last`; if that read finds
   * nothing, it never completes and nothing is written.
   */
  function NextStore(codec: Codec, m: Store, b: Block, ms: nat): (r: Store)
    ensures m.Keys <= r.Keys && |r| <= |m| + 1
    ensures m != map[] ==> r == m || (|m| in r && r == m[|m| := r[|m|]])
  {
    var stamped := b.(time := Seconds(ms));
    var last := LastHeight(m);
    if last >= 0 then
      if last in m then
        var linked := stamped.(height := last + 1, previousBlockHash := m[last].hash);
        m[linked.height := codec.Seal(linked)]
      else
        m
    else
      var genesis := stamped.(body := GenesisBody);
      m[genesis.height := codec.Seal(genesis)]
  }

  /** On an empty store the one block written carries the genesis body, whatever body was given, under its own height. */
  lemma GenesisAppend(codec: Codec, b: Block, ms: nat)
    ensures var r := NextStore(codec, map[], b, ms);
      && r.Keys == {b.height}
      && r[b.height].body == GenesisBody
      && r[b.height].height == b.height
      && r[b.height].time == Seconds(ms)
      && r[b.height].previousBlockHash == b.previousBlockHash
      && (b.hash == "" ==> codec.ValidBlock(r[b.height]))
  {
    if b.hash == "" {
      codec.SealedIsValid(b.(time := Seconds(ms), body := GenesisBody));
    }
  }

  /**
   * On a dense non-empty store the new block goes under height last + 1,
   * links to the hash of the block at `last`, keeps the given body, and
   * every earlier entry is left as it was.
   */
  lemma LinkedAppend(codec: Codec, m: Store, b: Block, ms: nat)
    requires Dense(m) && m != map[]
    ensures var r := NextStore(codec, m, b, ms);
      var n := |m|;
      && r.Keys == m.Keys + {n}
      && LastHeight(r) == LastHeight(m) + 1
      && r[n].height == n
      && r[n].previousBlockHash == m[n - 1].hash
      && r[n].body == b.body
      && r[n].time == Seconds(ms)
      && (forall h :: h in m ==> r[h] == m[h])
      && (b.hash == "" ==> codec.ValidBlock(r[n]))
  {
    var n := |m|;
    assert n - 1 in m && n !in m;
    if b.hash == "" {
      codec.SealedIsValid(b.(time := Seconds(ms), height := n, previousBlockHash := m[n - 1].hash));
    }
  }

  /** If the block at the last counted height is missing, `addBlock` writes nothing. */
  lemma StalledAppend(codec: Codec, m: Store, b: Block, ms: nat)
    requires m != map[] && LastHeight(m) !in m
    ensures NextStore(codec, m, b, ms) == m
  {
  }

  /**
   * On a store with a gap below the last counted height whose last counted
   * height is nevertheless stored, the new block goes under height |m|,
   * which is already taken: that entry is replaced and every other entry is
   * kept.
   */
  lemma GapOverwrite(codec: Codec, m: Store, b: Block, ms: nat)
    requires |m| - 1 in m && |m| in m
    ensures var r := NextStore(codec, m, b, ms);
      && r.Keys == m.Keys
      && r[|m|].height == |m| && r[|m|].body == b.body
      && r[|m|].previousBlockHash == m[|m| - 1].hash
      && (forall h :: h in m && h != |m| ==> r[h] == m[h])
  {
  }

  /** Such a store exists: with blocks at heights 1 and 2, appending replaces the block at 2. */
  lemma GapOverwriteExample(codec: Codec, x: Block, y: Block, b: Block, ms: nat)
    requires y.body != b.body
    ensures NextStore(codec, map[1 := x, 2 := y], b, ms)[2] != y
  {
    var m := map[1 := x, 2 := y];
    assert m.Keys == {1, 2};
    GapOverwrite(codec, m, b, ms);
  }

  /**
   * "All blocks valid and linked": heights dense, each block's height field
   * equal to its key, the genesis body at height 0, every block passing the
   * integrity test and every block after the first linked to the hash of
   * its predecessor.
   */
  predicate Sound(codec: Codec, m: Store)
  {
    && Dense(m)
    && (forall h :: h in m ==> m[h].height == h && codec.ValidBlock(m[h]))
    && (0 in m ==> m[0].body == GenesisBody)
    && (forall h :: 1 <= h < |m| ==> m[h].previousBlockHash == m[h - 1].hash)
  }

  /** Putting a valid block that links to the last one under height |m| keeps a sound store sound. */
  lemma ExtendKeepsSound(codec: Codec, m: Store, next: Block)
    requires Sound(codec, m) && m != map[]
    requires next.height == |m| && codec.ValidBlock(next)
    requires next.previousBlockHash == m[|m| - 1].hash
    ensures Sound(codec, m[|m| := next])
  {
    var n := |m|;
    var r := m[n := next];
    assert n !in m && |r| == n + 1;
    forall h | h in r
      ensures 0 <= h < |r| && r[h].height == h && codec.ValidBlock(r[h])
    {
      if h != n {
        assert h in m;
      }
    }
    forall h | 0 <= h < |r|
      ensures h in r
    {
      if h < n {
        assert h in m;
      }
    }
    assert 0 in m;
    forall h | 1 <= h < |r|
      ensures r[h].previousBlockHash == r[h - 1].hash
    {
      if h < n {
        assert h in m && h - 1 in m;
      }
    }
  }

  /** `addBlock` keeps a sound store sound, for a block whose hash field is empty (and, on an empty store, whose height is 0). */
  lemma AppendKeepsSound(codec: Codec, m: Store, b: Block, ms: nat)
    requires Sound(codec, m)
    requires b.hash == ""
    requires m == map[] ==> b.height == 0
    ensures Sound(codec, NextStore(codec, m, b, ms))
  {
    var stamped := b.(time := Seconds(ms));
    if m == map[] {
      var genesis := stamped.(body := GenesisBody);
      codec.SealedIsValid(genesis);
      var r := map[0 := codec.Seal(genesis)];
      assert NextStore(codec, m, b, ms) == r;
      assert r.Keys == {0} && |r| == 1;
    } else {
      var n := |m|;
      assert n - 1 in m;
      var linked := stamped.(height := n, previousBlockHash := m[n - 1].hash);
      codec.SealedIsValid(linked);
      assert NextStore(codec, m, b, ms) == m[n := codec.Seal(linked)];
      ExtendKeepsSound(codec, m, codec.Seal(linked));
    }
  }

  /** A sound store has every height 0 .. last stored and no broken link. */
  lemma SoundHasNoLinkErrors(codec: Codec, m: Store)
    requires Sound(codec, m)
    ensures Covered(m)
    ensures LinkErrors(InOrder(m)) == []
  {
    LinkedHasNoErrors(InOrder(m));
  }

  /**
   * Forging the hash of one block in a sound store is caught: that block
   * fails the integrity test, every other block still passes, and the only
   * broken link reported is at that block's position, when a block follows it.
   */
  lemma {:induction false} ForgedHashDetected(codec: Codec, m: Store, h: int, forged: string)
    requires Sound(codec, m) && h in m && forged != m[h].hash
    ensures var t := m[h := m[h].(hash := forged)];
      && Covered(t)
      && !codec.ValidBlock(t[h])
      && (forall k :: k in t && k != h ==> codec.ValidBlock(t[k]))
      && LinkErrors(InOrder(t)) == (if h + 1 < |m| then [h] else [])
  {
    var t := m[h := m[h].(hash := forged)];
    codec.TamperedIsInvalid(m[h], forged);
    assert t.Keys == m.Keys;
    var bs := InOrder(t);
    forall p | 0 <= p < |bs| - 1 && p != h
      ensures bs[p].hash == bs[p + 1].previousBlockHash
    {
      assert p in m && p + 1 in m;
      assert bs[p] == t[p] && bs[p + 1] == t[p + 1];
    }
    if h + 1 < |m| {
      assert bs[h] == t[h] && bs[h + 1] == t[h + 1];
    }
    if h + 1 < |m| {
      OneBrokenLink(bs, h);
    } else {
      LinkedHasNoErrors(bs);
    }
  }

  /** One call of `addBlock`: the block handed in and the clock reading at that moment. */
  datatype Request = Request(block: Block, ms: nat)

  /** The store after the requests, in order, starting from an empty store. */
  function Replay(codec: Codec, reqs: seq<Request>): Store
  {
    if reqs == [] then map[]
    else
      var last := reqs[|reqs| - 1];
      NextStore(codec, Replay(codec, reqs[..|reqs| - 1]), last.block, last.ms)
  }

  /**
   * A chain built only by successive `addBlock` calls from an empty store,
   * with fresh blocks (empty hash; the first at height 0), is sound, holds
   * one block per call and reports no broken link.
   */
  lemma {:induction false} ReplayIsSound(codec: Codec, reqs: seq<Request>)
    requires forall i :: 0 <= i < |reqs| ==> reqs[i].block.hash == ""
    requires reqs != [] ==> reqs[0].block.height == 0
    ensures Sound(codec, Replay(codec, reqs))
    ensures |Replay(codec, reqs)| == |reqs|
    ensures Covered(Replay(codec, reqs)) && LinkErrors(InOrder(Replay(codec, reqs))) == []
  {
    if reqs != [] {
      var front := reqs[..|reqs| - 1];
      var last := reqs[|reqs| - 1];
      ReplayIsSound(codec, front);
      var m := Replay(codec, front);
      AppendKeepsSound(codec, m, last.block, last.ms);
      if m == map[] {
        GenesisAppend(codec, last.block, last.ms);
      } else {
        LinkedAppend(codec, m, last.block, last.ms);
      }
    }
    SoundHasNoLinkErrors(codec, Replay(codec, reqs));
  }
}
