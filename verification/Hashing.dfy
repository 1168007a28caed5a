/** Bytes and the two domain-separated hashes of
    internal/merkle/merkle.go (section 2.1.1 of RFC 9162).

    Sha256 is a constant of function type that is given no value, so every
    statement of the project holds for each function from byte strings to
    32-byte strings.  Nothing is assumed about it; the soundness lemmas say
    over which byte strings it must not collide. */
module Hashing {

  newtype byte = x: int | 0 <= x < 256

  type Bytes = seq<byte>

  const HASH_SIZE := 32

  type Hash = h: Bytes | |h| == HASH_SIZE witness seq(HASH_SIZE, _ => 0)

  /** EmptyHash, the zero value of Go's type Hash. */
  function ZeroHash(): Hash {
    seq(HASH_SIZE, _ => 0)
  }

  const Sha256: Bytes -> Hash

  function LeafInput(data: Bytes): Bytes {
    [0] + data
  }

  function InteriorInput(left: Hash, right: Hash): Bytes {
    [1] + left + right
  }

  function LeafHash(data: Bytes): Hash {
    Sha256(LeafInput(data))
  }

  function InteriorHash(left: Hash, right: Hash): Hash {
    Sha256(InteriorInput(left, right))
  }

  /** No two different members of `inputs` have the same hash. */
  ghost predicate CollisionFree(inputs: set<Bytes>) {
    forall x, y :: x in inputs && y in inputs && Sha256(x) == Sha256(y) ==> x == y
  }

  lemma LeafInputInjective(x: Bytes, y: Bytes)
    requires LeafInput(x) == LeafInput(y)
    ensures x == y
  {
    assert LeafInput(x)[1..] == x;
    assert LeafInput(y)[1..] == y;
  }

  lemma InteriorInputInjective(l: Hash, r: Hash, l': Hash, r': Hash)
    requires InteriorInput(l, r) == InteriorInput(l', r')
    ensures l == l' && r == r'
  {
    var x, y := InteriorInput(l, r), InteriorInput(l', r');
    assert x[1..1 + HASH_SIZE] == l && x[1 + HASH_SIZE..] == r;
    assert y[1..1 + HASH_SIZE] == l' && y[1 + HASH_SIZE..] == r';
  }

  /** The prefix bytes 0x00 and 0x01 keep leaves and interior nodes apart. */
  lemma DomainsDisjoint(data: Bytes, l: Hash, r: Hash)
    ensures LeafInput(data) != InteriorInput(l, r)
  {
    assert LeafInput(data)[0] == 0 && InteriorInput(l, r)[0] == 1;
  }

  lemma EqualLeaves(x: Bytes, y: Bytes, inputs: set<Bytes>)
    requires CollisionFree(inputs) && {LeafInput(x), LeafInput(y)} <= inputs
    requires LeafHash(x) == LeafHash(y)
    ensures x == y
  {
    assert LeafInput(x) in inputs && LeafInput(y) in inputs;
    LeafInputInjective(x, y);
  }

  lemma EqualInteriors(l: Hash, r: Hash, l': Hash, r': Hash, inputs: set<Bytes>)
    requires CollisionFree(inputs)
    requires {InteriorInput(l, r), InteriorInput(l', r')} <= inputs
    requires InteriorHash(l, r) == InteriorHash(l', r')
    ensures l == l' && r == r'
  {
    assert InteriorInput(l, r) in inputs && InteriorInput(l', r') in inputs;
    InteriorInputInjective(l, r, l', r');
  }

  lemma LeafIsNotInterior(x: Bytes, l: Hash, r: Hash, inputs: set<Bytes>)
    requires CollisionFree(inputs) && {LeafInput(x), InteriorInput(l, r)} <= inputs
    ensures LeafHash(x) != InteriorHash(l, r)
  {
    assert LeafInput(x) in inputs && InteriorInput(l, r) in inputs;
    DomainsDisjoint(x, l, r);
  }
}
