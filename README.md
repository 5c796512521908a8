# Hash-chained ledger (`Blockchain` class) in Dafny

This project models the ledger at the centre of a small star-registry
blockchain service. The ledger is a key-value store mapping a block height
to a block. `addBlock` stamps a new block with the time. On an empty store
it turns the block into the genesis block. Otherwise it gives the block
height last + 1 and copies the previous block's hash into it. It then seals
the block with the digest of its serialisation and writes it.
`validateBlock` recomputes one block's digest. `validateChain` checks every
block and every adjacent hash link.

Modules:

- `Timestamps` (Timestamps.dfy): the `time` field, which is the decimal
  millisecond clock with its last three characters cut off.
- `Blocks` (Blocks.dfy): the `Block` record, the genesis body, and a
  `Codec` holding the serialiser (`JSON.stringify`) and the digest
  (`SHA256`). Both are arbitrary functions, so the proofs hold for any
  serialiser and any hash function. The module also defines sealing and the
  integrity test.
- `Ledger` (Ledger.dfy): the store as a value (`map<int, Block>`),
  `NextStore` (what one `addBlock` does to it), `LinkErrors` (what the link
  check reports), the invariant `Sound` ("dense heights, every block valid
  and linked to its predecessor"), and the lemmas about them.
- `Chain` (Blockchain.dfy): the `Blockchain` class. It has a `store` field
  and imperative methods that follow the source step by step. Each method
  is proved against the `Ledger` functions.
- `Wrappers` (Wrappers.dfy): `Option`. `None` stands for a read of a
  missing height. In the source such a read never settles, so the promise
  that waits on it never answers.

The clock, the serialiser and the hash function are parameters: a
millisecond reading `ms` and the `Codec` the ledger is built with.

The model follows these details of the code:
- `validateChain` keeps its per-block integrity results apart from the link
  errors, and the model reports them as two separate results.
- The genesis block keeps whatever `previousBlockHash` the block already
  had.
- The genesis block is written under the block's own `height` field, which
  is assumed to be 0 for a freshly built block (Block.js is not part of this
  model).
- `time` is a string.

## Model

| member | source | states |
|---|---|---|
| `Timestamps.Decimal` | Blockchain.js:30 | the clock reading written in decimal is a non-empty string of digits |
| `Timestamps.ValueOfDecimal` | Blockchain.js:30 | reading the decimal rendering back gives the number it renders (round trip) |
| `Timestamps.DropLastThree` | Blockchain.js:30 | `slice(0, -3)` gives "" for strings of up to three characters; otherwise it gives the string minus its last three characters |
| `Timestamps.SecondsAreWholeSeconds` | Blockchain.js:30 | the block time is `Decimal(ms / 1000)` for `ms >= 1000` and "" below that; in every case its value is the whole seconds `ms / 1000` |
| `Timestamps.Seconds` | Blockchain.js:30 | the `time` string: the decimal clock reading minus its last three characters; `SecondsAreWholeSeconds` proves it is the whole seconds |
| `Blocks.Codec.Hash` | Blockchain.js:42 | `SHA256(JSON.stringify(b)).toString()`, the digest of the serialised block for arbitrary serialiser and hash; `SealedIsValid` and `TamperedIsInvalid` are proved for any choice of both |
| `Blocks.Codec.ValidBlock` | Blockchain.js:105-113 | `validateBlock`'s comparison: the stored hash equals the digest of the block with its hash cleared; `ValidIsSealed`, `SealedIsValid` and `TamperedIsInvalid` describe it |
| `Blocks.NewBlock` | Blockchain.js:23 | a freshly built block has the given body, an empty hash and height 0 |
| `Blocks.Codec.Seal` | Blockchain.js:42 | sealing changes only the `hash` field |
| `Blocks.Codec.SealedIsValid` | Blockchain.js:99-119 | a block sealed while its hash field was empty passes `validateBlock`'s test |
| `Blocks.Codec.ValidIsSealed` | Blockchain.js:105-113 | a block passes the test exactly when it equals the seal of itself with the hash cleared |
| `Blocks.Codec.TamperedIsInvalid` | Blockchain.js:105-119 | replacing the hash of a valid block with any other string makes it fail the test |
| `Ledger.LastHeight` | Blockchain.js:73-83 | the last height is -1 exactly when the store is empty; on a dense store it is a stored height, and the next height is free |
| `Ledger.CoveredIsDense` | Blockchain.js:132-136 | if every height from 0 to the counted last height is stored, no other key is stored |
| `Ledger.Prefix` | Blockchain.js:133-136 | the blocks fetched for heights 0 .. n-1 form a list of length n whose i-th element is the block stored at i |
| `Ledger.LinkErrors` | Blockchain.js:143-153 | the positions the pair-walking comparison records; every position names a pair inside the chain. `LinkErrorsExact`, `LinkErrorsIncreasing`, `LinkedHasNoErrors` and `OneBrokenLink` describe it completely |
| `Ledger.LinkErrorsExact` | Blockchain.js:143-153 | position p is reported exactly when `0 <= p < length-1` and block p's hash differs from block p+1's `previousBlockHash`; no error for a chain of 0 or 1 blocks |
| `Ledger.LinkErrorsIncreasing` | Blockchain.js:145-151 | the reported positions are strictly increasing: each broken link is reported once, in order |
| `Ledger.LinkedHasNoErrors` | Blockchain.js:143-153 | a chain whose adjacent pairs all link reports no error |
| `Ledger.OneBrokenLink` | Blockchain.js:143-153 | a chain with exactly one broken pair at p reports exactly `[p]` |
| `Ledger.NextStore` | Blockchain.js:28-57 | the store after one `addBlock`: no key is removed and at most one is added; on a non-empty store either nothing changes or only the entry at the height equal to the store size is written and every other entry keeps its value. `GenesisAppend`, `LinkedAppend`, `StalledAppend`, `GapOverwrite` and `AppendKeepsSound` describe each case |
| `Ledger.GenesisAppend` | Blockchain.js:48-55 | on an empty store exactly one block is written, under the block's own height; its body is the genesis sentinel whatever body was supplied; it keeps the supplied height and link, is stamped with the time, and passes the integrity test if its hash field was empty |
| `Ledger.LinkedAppend` | Blockchain.js:35-47 | on a dense non-empty store the new block is written at height last+1 (the keys grow by exactly that height). It carries that height and the hash of the block at `last`, keeps its body, and gets the time. Every earlier entry is unchanged, and the block passes the integrity test if its hash field was empty |
| `Ledger.StalledAppend` | Blockchain.js:38 | if the block at the counted last height is missing, the read never answers and nothing is written |
| `Ledger.GapOverwrite` | Blockchain.js:35-44 | on a store with a gap, where both the counted last height (store size minus one) and the height equal to the store size are stored, `addBlock` writes a new block at the latter in place of the stored one (the keys stay the same), linked to the block at the counted last height; every other entry is unchanged |
| `Ledger.GapOverwriteExample` | Blockchain.js:35-44 | with blocks at heights 1 and 2 only, adding a block with a different body replaces the block at height 2, because `db.put` replaces an existing key |
| `Ledger.ExtendKeepsSound` | Blockchain.js:35-44 | writing a valid block whose height is the store size and that links to the last block keeps the store sound |
| `Ledger.AppendKeepsSound` | Blockchain.js:28-57 | `addBlock` keeps "dense, every block valid and linked, genesis body at 0" for a block with an empty hash field (and, on an empty store, height 0) |
| `Ledger.SoundHasNoLinkErrors` | Blockchain.js:143-153 | a sound store has every height up to the last one stored, and the link check reports nothing |
| `Ledger.ForgedHashDetected` | Blockchain.js:99-153 | forging one block's hash in a sound store makes exactly that block fail the integrity test. The link check then reports exactly that position when a block follows it, and nothing otherwise |
| `Ledger.ReplayIsSound` | Blockchain.js:28-57 | a chain built only by successive `addBlock` calls from empty, with fresh blocks, is sound. It holds one block per call and reports no link error |
| `Chain.CompareLinks` | Blockchain.js:143-153 | the pair-walking loop records exactly `LinkErrors(blocks)` |
| `Chain.Blockchain.constructor` | Blockchain.js:19-25 | an existing non-empty store is kept as it is; an empty one gets the genesis block; soundness is kept |
| `Chain.Blockchain.LastBlockHeight` | Blockchain.js:73-84 | counting the entries one by one from -1 gives the number of entries minus one, and gives -1 exactly when the store is empty |
| `Chain.Blockchain.GetBlock` | Blockchain.js:88-95 | returns the block stored at that height; `None` when nothing is stored there |
| `Chain.Blockchain.SaveBlock` | Blockchain.js:61-69 | writes one key and changes nothing else |
| `Chain.Blockchain.AddBlock` | Blockchain.js:28-57 | the new store is `NextStore` of the old one (see the `Ledger` lemmas). A sound store stays sound when the block's hash field is empty and, on an empty store, its height is 0 |
| `Chain.Blockchain.ValidateBlock` | Blockchain.js:99-123 | answers exactly when the height is stored, with true exactly when the stored hash equals the digest of the block with its hash cleared; the store is not changed |
| `Chain.Blockchain.ValidateChain` | Blockchain.js:127-161 | answers exactly when the heights are dense, with one integrity verdict per height and the link errors of the chain. On a sound store every verdict is true and there is no link error. The store is not changed |

## Left out

- LevelDB is not modelled. The store is an in-memory map from height to
  block, and the callbacks, streams and `level` itself are left out. Blocks
  are held already parsed: `JSON.parse(JSON.stringify(b))` is taken to
  give back `b`, and the string form of the keys is not modelled.
- `addBlock` changes the caller's block object in place: it writes its
  `time`, `height`, `previousBlockHash`, `hash` and `body` fields
  (Blockchain.js:30, 36, 40, 42, 50). The model takes the block by value
  and returns nothing to the caller, so it does not capture that update or
  any aliasing of the object. Both visible callers pass a freshly built
  block and never use it again (Blockchain.js:23, BlockController.js:47).
- Ledger.NextStore: the store is append-only (no earlier entry changes) only
  when it is dense. On a store with a gap, the counted last height is below
  the highest stored height, and `addBlock` then replaces the stored block
  at height `|m|` (`GapOverwrite`, `GapOverwriteExample`). The source
  behaves the same way, since `db.put` replaces an existing key.
- A failed `db.put` is not modelled: the model's `SaveBlock` always writes.
  The source only logs the rejection.
- `SHA256` and `JSON.stringify` are arbitrary functions in a `Codec`.
  Collision resistance is not assumed. So a block whose hash field was
  non-empty when it was sealed may or may not pass the integrity test, and
  the model proves nothing about that case.
- Block.js is not part of this model. `NewBlock` assumes its constructor
  leaves `hash`, `time` and `previousBlockHash` empty and `height` 0. The
  body is modelled as a string, although the source accepts any JSON value.
- The asynchronous behaviour is not modelled:
  - the constructor starts genesis creation without waiting for it;
  - two overlapping `addBlock` calls can both read the same last height;
  - `addBlock` does not wait for the write;
  - `validateChain` prints its error log before the comparison callback
    runs. The model returns the results instead of printing them.
  Every operation is modelled as running to completion, one at a time.
- Logging is not modelled. When `validateChain` finds a broken link, the
  source pushes both a message and the position into its error log. The
  model records the position only.
- A read of a missing height never settles in the source. The model returns
  `None`, and `AddBlock` then writes nothing.
- BlockController.js (the HTTP routes) is not part of this model. This
  includes its refusal of an empty body.
- The unused `chain` and `chainLength` fields of the class are not
  modelled.
