/**
  Content hashes of trie nodes (consensus/src/ipld_codec.rs, consensus/src/trie.rs).
  The tagged Blake3-over-CBOR digest is a parameter h from tagged payloads to an
  abstract digest type; lemmas that need it assume h has no collisions.
 */
module NodeHash {
  import opened Common
  import opened Trie

  type Hash(==, !new, 0)

  /** What is fed to the digest; the constructor is the domain tag. */
  datatype Payload =
    | LeafPayload(path: Path, value: Bytes)
    | ExtensionPayload(path: Path, childHash: Hash)
    | BranchPayload(children: seq<Option<Hash>>, branchValue: Option<Bytes>)
    | EmptyTrie

  type Hasher = Payload -> Hash

  ghost predicate CollisionFree(h: Hasher) {
    forall x: Payload, y: Payload :: h(x) == h(y) ==> x == y
  }

  /** The plain recursive hash of a subtree. */
  function HashOf(h: Hasher, n: Node): Hash
    decreases n, if n.Branch? then |n.children| + 2 else 0
  {
    match n
    case Leaf(path, value) => h(LeafPayload(path, value))
    case Extension(path, child) => h(ExtensionPayload(path, HashOf(h, child)))
    case Branch(children, value) => h(BranchPayload(ChildHashes(h, n), value))
  }

  function ChildHashes(h: Hasher, n: Node): (s: seq<Option<Hash>>)
    requires n.Branch?
    ensures |s| == |n.children|
    decreases n, |n.children| + 1
  {
    HashesFrom(h, n, 0)
  }

  function HashesFrom(h: Hasher, n: Node, i: nat): (s: seq<Option<Hash>>)
    requires n.Branch? && i <= |n.children|
    ensures |s| == |n.children| - i
    ensures forall j | i <= j < |n.children| ::
      s[j - i] == if n.children[j].Some? then Some(HashOf(h, n.children[j].value)) else None
    decreases n, |n.children| - i
  {
    if i == |n.children| then []
    else [if n.children[i].Some? then Some(HashOf(h, n.children[i].value)) else None] + HashesFrom(h, n, i + 1)
  }

  function RootHash(h: Hasher, root: Option<Node>): Hash {
    if root.None? then h(EmptyTrie) else HashOf(h, root.value)
  }

  /** Without collisions the hash pins down the whole subtree. */
  lemma {:induction false} HashInjective(h: Hasher, a: Node, b: Node)
    requires CollisionFree(h) && HashOf(h, a) == HashOf(h, b)
    ensures a == b
    decreases a
  {
    match a
    case Leaf(path, value) =>
      assert b.Leaf?;
    case Extension(path, child) =>
      assert b.Extension?;
      HashInjective(h, child, b.child);
    case Branch(children, value) =>
      assert b.Branch? && ChildHashes(h, a) == ChildHashes(h, b);
      forall i | 0 <= i < |children| ensures children[i] == b.children[i] {
        assert ChildHashes(h, a)[i] == ChildHashes(h, b)[i];
        if children[i].Some? {
          HashInjective(h, children[i].value, b.children[i].value);
        }
      }
      assert children == b.children;
  }
}
