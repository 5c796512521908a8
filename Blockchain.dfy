/**
 * The `Blockchain` class: a ledger over a mutable height-to-block store.
 * Reading the last height counts the stored entries; appending stamps,
 * links, seals and writes one block; the checks read the store and never
 * change it (none of them has a `modifies` clause).
 */
module Chain {
  import opened Wrappers
  import opened Blocks
  import opened Timestamps
  import opened Ledger

  /**
   * The second half of `validateChain`: walks the adjacent pairs and records
   * position `b` whenever block `b`'s hash is not the link kept by block `b + 1`.
   */
  method CompareLinks(blocks: seq<Block>) returns (errorLog: seq<nat>)
    ensures errorLog == LinkErrors(blocks)
  {
    errorLog := [];
    if |blocks| > 1 {
      var b := 0;
      while b < |blocks| - 1
        invariant 0 <= b <= |blocks| - 1
        invariant errorLog == LinkErrors(blocks[..b + 1])
      {
        assert blocks[..b + 2][..b + 1] == blocks[..b + 1];
        if blocks[b].hash != blocks[b + 1].previousBlockHash {
          errorLog := errorLog + [b];
        }
        b := b + 1;
      }
      assert blocks[..b + 1] == blocks;
    }
  }

  /** What `validateChain` finds: one integrity verdict per height, and the positions of broken links. */
  datatype ChainReport = ChainReport(checks: seq<bool>, linkErrors: seq<nat>)

  class Blockchain {
    /** The serialisation and digest used to seal and check blocks. */
    const codec: Codec
    /** The persistent store: height to block. */
    var store: Store

    /**
     * Opens the ledger over the entries already persisted and, if there are
     * none, appends the genesis block.
     */
    constructor (codec: Codec, persisted: Store, ms: nat)
      ensures this.codec == codec
      ensures persisted != map[] ==> store == persisted
      ensures persisted == map[] ==> store == NextStore(codec, map[], NewBlock(GenesisBody), ms)
      ensures Sound(codec, persisted) ==> Sound(codec, store)
    {
      this.codec := codec;
      store := persisted;
      new;
      var lastBlockHeight := LastBlockHeight();
      if lastBlockHeight == -1 {
        AddBlock(NewBlock(GenesisBody), ms);
      }
    }

    /** `getLastBlockHeight`: counts the entries one by one, starting from -1. */
    method LastBlockHeight() returns (count: int)
      ensures count == |store| - 1
      ensures count == -1 <==> store == map[]
    {
      count := -1;
      var unread := store.Keys;
      while unread != {}
        invariant unread <= store.Keys
        invariant count + |unread| == |store| - 1
        decreases |unread|
      {
        if forall key :: key !in unread {
          assert false;  // a non-empty set has an element
        }
        var k :| k in unread;
        unread := unread - {k};
        count := count + 1;
      }
    }

    /** `getBlock`: the block stored at `blockHeight`; `None` where the source's read never answers. */
    method GetBlock(blockHeight: int) returns (block: Option<Block>)
      ensures block.Some? <==> blockHeight in store
      ensures block.Some? ==> block.value == store[blockHeight]
    {
      if blockHeight in store {
        block := Some(store[blockHeight]);
      } else {
        block := None;
      }
    }

    /** `saveBlock`: writes one entry and nothing else. */
    method SaveBlock(key: int, value: Block)
      modifies this
      ensures store == old(store)[key := value]
    {
      store := store[key := value];
    }

    /**
     * `addBlock`: stamps the time, then either seals and writes the genesis
     * block (empty store) or gives the block height last + 1, links it to the
     * hash of the block at `last`, seals and writes it. It keeps a sound
     * store sound when the block's hash field is empty.
     */
    method AddBlock(newBlock: Block, ms: nat)
      modifies this
      ensures store == NextStore(codec, old(store), newBlock, ms)
      ensures old(Sound(codec, store)) && newBlock.hash == "" && (old(store) == map[] ==> newBlock.height == 0)
        ==> Sound(codec, store)
    {
      ghost var before := store;
      var block := newBlock.(time := Seconds(ms));
      var lastBlockHeight := LastBlockHeight();
      if lastBlockHeight >= 0 {
        block := block.(height := lastBlockHeight + 1);
        var previousBlock := GetBlock(lastBlockHeight);
        if previousBlock.None? {
          return;
        }
        block := block.(previousBlockHash := previousBlock.value.hash);
        block := block.(hash := codec.Hash(block));
        assert block == codec.Seal(newBlock.(time := Seconds(ms), height := |before|, previousBlockHash := before[|before| - 1].hash));
        SaveBlock(block.height, block);
      } else {
        block := block.(body := GenesisBody);
        block := block.(hash := codec.Hash(block));
        assert block == codec.Seal(newBlock.(time := Seconds(ms), body := GenesisBody));
        SaveBlock(block.height, block);
      }
      if Sound(codec, before) && newBlock.hash == "" && (before == map[] ==> newBlock.height == 0) {
        AppendKeepsSound(codec, before, newBlock, ms);
      }
    }

    /** `validateBlock`: recomputes the digest with the hash field cleared and compares it with the stored hash. */
    method ValidateBlock(blockHeight: int) returns (valid: Option<bool>)
      ensures valid.Some? <==> blockHeight in store
      ensures valid.Some? ==> (valid.value <==> store[blockHeight].hash == codec.Hash(store[blockHeight].(hash := "")))
    {
      var block := GetBlock(blockHeight);
      if block.None? {
        return None;
      }
      var blockHash := block.value.hash;
      var cleared := block.value.(hash := "");
      var validBlockHash := codec.Hash(cleared);
      valid := Some(blockHash == validBlockHash);
    }

    /**
     * `validateChain`: checks every height, then compares every adjacent
     * pair's hash and link. It answers exactly when the heights are dense;
     * `None` when some height up to the last is missing (the source's reads
     * then never answer). On a sound store every
     * check passes and no link is broken.
     */
    method ValidateChain() returns (report: Option<ChainReport>)
      ensures report.Some? <==> Dense(store)
      ensures report.Some? ==> |report.value.checks| == |store|
      ensures report.Some? ==> forall h :: 0 <= h < |store| ==> report.value.checks[h] == codec.ValidBlock(store[h])
      ensures report.Some? ==> report.value.linkErrors == LinkErrors(InOrder(store))
      ensures Sound(codec, store) ==>
        && report.Some?
        && report.value.linkErrors == []
        && forall h :: 0 <= h < |store| ==> report.value.checks[h]
    {
      var lastBlockHeight := LastBlockHeight();
      var validBlocks: seq<bool> := [];
      var blocks: seq<Block> := [];
      var settled := true;
      var i := 0;
      while i <= lastBlockHeight
        invariant 0 <= i <= |store|
        invariant settled <==> forall h :: 0 <= h < i ==> h in store
        invariant settled ==> blocks == Prefix(store, i) && |validBlocks| == i
        invariant settled ==> forall h :: 0 <= h < i ==> validBlocks[h] == codec.ValidBlock(store[h])
      {
        var valid := ValidateBlock(i);
        var block := GetBlock(i);
        if settled && valid.Some? && block.Some? {
          validBlocks := validBlocks + [valid.value];
          blocks := blocks + [block.value];
        } else {
          settled := false;
        }
        i := i + 1;
      }
      if !settled {
        return None;
      }
      var errorLog := CompareLinks(blocks);
      report := Some(ChainReport(validBlocks, errorLog));
      CoveredIsDense(store);
      if Sound(codec, store) {
        SoundHasNoLinkErrors(codec, store);
      }
    }
  }
}
