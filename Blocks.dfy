/**
 * A block of the ledger and the digest that seals it. The serialisation
 * (`JSON.stringify`) and the hash function (`SHA256` of crypto-js) are
 * foreign code: a `Codec` carries them as arbitrary functions, so nothing
 * proved here depends on how they work.
 */
module Blocks {

  /** The body `addBlock` forces on the first block of an empty store. */
  const GenesisBody: string := "First block in the chain - Genesis block"

  datatype Block = Block(
    hash: string,
    height: int,
    body: string,
    time: string,
    previousBlockHash: string)

  /** A block as its constructor leaves it: empty hash, height 0, empty time and link. */
  function NewBlock(body: string): (b: Block)
    ensures b.body == body && b.hash == "" && b.height == 0
  {
    Block("", 0, body, "", "")
  }

  datatype Codec = Codec(serialize: Block -> string, sha256: string -> string)
  {
    /** `SHA256(JSON.stringify(b)).toString()`. */
    function Hash(b: Block): string
    {
      sha256(serialize(b))
    }

    /** `b` with its hash field set to the digest of `b` as it stands. */
    function Seal(b: Block): (r: Block)
      ensures r.(hash := b.hash) == b
    {
      b.(hash := Hash(b))
    }

    /** `validateBlock`'s test: the stored hash is the digest of the block with its hash field cleared. */
    predicate ValidBlock(b: Block)
    {
      b.hash == Hash(b.(hash := ""))
    }

    /** Sealing a block whose hash field is empty yields a block that passes the integrity test. */
    lemma SealedIsValid(b: Block)
      requires b.hash == ""
      ensures ValidBlock(Seal(b))
    {
      assert Seal(b).(hash := "") == b;
    }

    /** A block passes the integrity test exactly when it is the seal of its own cleared form. */
    lemma ValidIsSealed(b: Block)
      ensures ValidBlock(b) <==> b == Seal(b.(hash := ""))
    {
    }

    /** Changing the hash of a valid block to anything else makes it fail the test. */
    lemma TamperedIsInvalid(b: Block, forged: string)
      requires ValidBlock(b) && forged != b.hash
      ensures !ValidBlock(b.(hash := forged))
    {
      assert b.(hash := forged).(hash := "") == b.(hash := "");
    }
  }
}
