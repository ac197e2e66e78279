/**
  The hex-nibble Merkle-Patricia trie of consensus/src/trie.rs as a value:
  nodes, lookup, insertion with its node splits, and the canonical shape.
  Memo cells and hashes live in NodeHash.dfy and MemoNode.dfy.
 */
module Trie {
  import opened Common

  type Path = seq<U8>

  datatype Node =
    | Leaf(path: Path, value: Bytes)
    | Extension(path: Path, child: Node)
    | Branch(children: Children, branchValue: Option<Bytes>)

  // `[Option<Box<MptNode>>; 16]`. The length is part of Canonical; the source's test
  // "nibble > 15" on an existing branch is the array's bounds check.
  type Children = seq<Option<Node>>

  /** Longest key the ledger accepts, in bytes. */
  const MAX_KEY_BYTES := 512

  datatype Error = InvalidInput | OutOfMemory | NotFound

  function NoChildren(): (s: Children)
    ensures |s| == 16
    ensures forall i | 0 <= i < 16 :: s[i] == None
  {
    EmptySlots()
  }

  // ---------- keys and nibble paths ----------

  predicate IsNibbles(p: Path) {
    forall i | 0 <= i < |p| :: p[i] < 16
  }

  function BytesToNibbles(key: Bytes): (p: Path)
    ensures |p| == 2 * |key|
    ensures IsNibbles(p)
  {
    if key == [] then [] else [key[0] / 16, key[0] % 16] + BytesToNibbles(key[1..])
  }

  lemma {:induction false} BytesToNibblesInjective(a: Bytes, b: Bytes)
    requires BytesToNibbles(a) == BytesToNibbles(b)
    ensures a == b
  {
    assert |a| == |b|;
    if a != [] {
      var pa, pb := BytesToNibbles(a), BytesToNibbles(b);
      assert pa[0] == a[0] / 16 && pa[1] == a[0] % 16;
      assert pb[0] == b[0] / 16 && pb[1] == b[0] % 16;
      assert a[0] == b[0];
      assert pa[2..] == BytesToNibbles(a[1..]) && pb[2..] == BytesToNibbles(b[1..]);
      BytesToNibblesInjective(a[1..], b[1..]);
      assert a == [a[0]] + a[1..] && b == [b[0]] + b[1..];
    }
  }

  /** Each byte's high nibble comes before its low one. */
  lemma {:induction false} NibblesOfByte(key: Bytes, i: nat)
    requires i < |key|
    ensures 16 * BytesToNibbles(key)[2 * i] + BytesToNibbles(key)[2 * i + 1] == key[i]
  {
    if i > 0 { NibblesOfByte(key[1..], i - 1); }
  }

  /** a and b share exactly their first n elements. */
  predicate PartAt(a: Path, b: Path, n: nat) {
    n <= |a| && n <= |b| && a[..n] == b[..n] && (n < |a| && n < |b| ==> a[n] != b[n])
  }

  function CommonPrefixLen(a: Path, b: Path): (n: nat)
    ensures PartAt(a, b, n)
  {
    if a == [] || b == [] || a[0] != b[0] then 0
    else
      var m := CommonPrefixLen(a[1..], b[1..]);
      assert a[..m + 1] == [a[0]] + a[1..][..m];
      assert b[..m + 1] == [b[0]] + b[1..][..m];
      m + 1
  }

  // ---------- lookup ----------

  /** The value stored under a nibble path: what the trie means as a map. */
  function Lookup(n: Node, key: Path): Option<Bytes>
    decreases n
  {
    match n
    case Leaf(path, value) => if path == key then Some(value) else None
    case Extension(path, child) => if path <= key then Lookup(child, key[|path|..]) else None
    case Branch(children, value) =>
      if key == [] then value
      else if key[0] >= |children| || children[key[0]].None? then None
      else Lookup(children[key[0]].value, key[1..])
  }

  // ---------- insertion ----------

  function InsertInto(node: Node, key: Path, value: Bytes): Result<Node, Error>
    decreases node, 1
  {
    match node
    case Leaf(path, prior) => InsertLeaf(path, prior, key, value)
    case Extension(path, child) => InsertExtension(path, child, key, value)
    case Branch(_, _) => InsertBranch(node, key, value)
  }

  function Wrap(prefix: Path, branch: Node): Node {
    if prefix == [] then branch else Extension(prefix, branch)
  }

  /** Hang a new leaf for the remaining path `rest` on a branch, or put the value on the branch itself. */
  function PlaceLeaf(b: Node, rest: Path, value: Bytes): Result<Node, Error>
    requires b.Branch?
  {
    if rest == [] then Ok(Branch(b.children, Some(value)))
    else if rest[0] >= |b.children| then Err(InvalidInput)
    else Ok(Branch(b.children[rest[0] := Some(Leaf(rest[1..], value))], b.branchValue))
  }

  function InsertLeaf(leafPath: Path, leafValue: Bytes, key: Path, value: Bytes): Result<Node, Error> {
    if leafPath == key then Ok(Leaf(leafPath, value))
    else
      SplitLeaf(leafPath, leafValue, key, value, CommonPrefixLen(leafPath, key))
  }

  function SplitLeaf(leafPath: Path, leafValue: Bytes, key: Path, value: Bytes, shared: nat): Result<Node, Error>
    requires shared <= |leafPath| && shared <= |key|
  {
    var b :- PlaceLeaf(Branch(NoChildren(), None), leafPath[shared..], leafValue);
    var branch :- PlaceLeaf(b, key[shared..], value);
    Ok(Wrap(leafPath[..shared], branch))
  }

  function InsertExtension(path: Path, child: Node, key: Path, value: Bytes): Result<Node, Error>
    decreases child, 2
  {
    var shared := CommonPrefixLen(path, key);
    if shared == |path| then
      var newChild :- InsertInto(child, key[shared..], value);
      Ok(Extension(path, newChild))
    else SplitExtension(path, child, key, value, shared)
  }

  function SplitExtension(path: Path, child: Node, key: Path, value: Bytes, shared: nat): Result<Node, Error>
    requires shared < |path| && shared <= |key|
  {
    if path[shared] > 15 then Err(InvalidInput)
    else
      var existing := Wrap(path[shared + 1..], child);
      var branch :- PlaceLeaf(Branch(NoChildren()[path[shared] := Some(existing)], None), key[shared..], value);
      Ok(Wrap(path[..shared], branch))
  }

  function InsertBranch(node: Node, key: Path, value: Bytes): Result<Node, Error>
    requires node.Branch?
    decreases node, 0
  {
    var children, prior := node.children, node.branchValue;
    if key == [] then Ok(Branch(children, Some(value)))
    else if key[0] >= |children| then Err(InvalidInput)
    else
      match children[key[0]]
      case None => Ok(Branch(children[key[0] := Some(Leaf(key[1..], value))], prior))
      case Some(child) =>
        var newChild :- InsertInto(child, key[1..], value);
        Ok(Branch(children[key[0] := Some(newChild)], prior))
  }

  // ---------- canonical shape ----------

  /** Slot 0..15 is a child, slot 16 is the branch's own value. */
  predicate Occupied(children: Children, value: Option<Bytes>, slot: nat)
    requires slot <= 16 && |children| == 16
  {
    if slot < 16 then children[slot].Some? else value.Some?
  }

  ghost predicate TwoEntries(children: Children, value: Option<Bytes>)
    requires |children| == 16
  {
    exists s: nat, t: nat :: s < t <= 16 && Occupied(children, value, s) && Occupied(children, value, t)
  }

  /** Paths are nibbles, extensions are non-empty and sit over a branch, branches hold two entries or more. */
  ghost predicate Canonical(n: Node) {
    match n
    case Leaf(path, _) => IsNibbles(path)
    case Extension(path, child) => IsNibbles(path) && path != [] && child.Branch? && Canonical(child)
    case Branch(children, value) =>
      && |children| == 16
      && TwoEntries(children, value)
      && forall i | 0 <= i < 16 :: children[i].Some? ==> Canonical(children[i].value)
  }

  /** A slot that a path's first nibble leads to; 16 stands for the branch's own value. */
  function SlotOf(rest: Path): nat
    requires IsNibbles(rest)
  {
    if rest == [] then 16 else rest[0]
  }

  /** Children are canonical, though the branch may still have fewer than two entries. */
  ghost predicate PartialBranch(b: Node) {
    && b.Branch?
    && |b.children| == 16
    && forall i | 0 <= i < 16 :: b.children[i].Some? ==> Canonical(b.children[i].value)
  }

  lemma PlaceLeafShape(b: Node, rest: Path, value: Bytes)
    requires PartialBranch(b) && IsNibbles(rest)
    ensures var r := PlaceLeaf(b, rest, value);
      && r.Ok? && PartialBranch(r.value)
      && forall s: nat | s <= 16 ::
        Occupied(r.value.children, r.value.branchValue, s) <==>
          s == SlotOf(rest) || Occupied(b.children, b.branchValue, s)
  {
  }

  lemma PlaceLeafLookup(b: Node, rest: Path, value: Bytes, k: Path)
    requires PartialBranch(b) && IsNibbles(rest)
    ensures var r := PlaceLeaf(b, rest, value);
      && r.Ok?
      && Lookup(r.value, k) == if k == rest then Some(value)
                               else if rest != [] && k != [] && k[0] == rest[0] then None
                               else Lookup(b, k)
  {
    if rest != [] && k != [] && k[0] == rest[0] {
      assert k == [k[0]] + k[1..] && rest == [rest[0]] + rest[1..];
    }
  }

  lemma TwoSlots(b: Node, s: nat, t: nat)
    requires PartialBranch(b) && s <= 16 && t <= 16 && s != t
    requires Occupied(b.children, b.branchValue, s) && Occupied(b.children, b.branchValue, t)
    ensures Canonical(b)
  {
    var lo, hi := Min(s, t), Max(s, t);
    assert Occupied(b.children, b.branchValue, lo) && Occupied(b.children, b.branchValue, hi);
  }

  lemma SplitSlotsDiffer(a: Path, b: Path, n: nat)
    requires IsNibbles(a) && IsNibbles(b) && a != b && PartAt(a, b, n)
    ensures SlotOf(a[n..]) != SlotOf(b[n..])
  {
    assert a == a[..n] + a[n..] && b == b[..n] + b[n..];
  }

  lemma SplitLeafCanonical(path: Path, prior: Bytes, key: Path, value: Bytes, n: nat)
    requires IsNibbles(path) && IsNibbles(key) && path != key && PartAt(path, key, n)
    ensures var r := SplitLeaf(path, prior, key, value, n); r.Ok? && Canonical(r.value)
  {
    var e := Branch(NoChildren(), None);
    PlaceLeafShape(e, path[n..], prior);
    var b := PlaceLeaf(e, path[n..], prior).value;
    PlaceLeafShape(b, key[n..], value);
    SplitSlotsDiffer(path, key, n);
    TwoSlots(PlaceLeaf(b, key[n..], value).value, SlotOf(path[n..]), SlotOf(key[n..]));
  }

  lemma SplitExtensionCanonical(path: Path, child: Node, key: Path, value: Bytes, n: nat)
    requires Canonical(Extension(path, child)) && IsNibbles(key) && PartAt(path, key, n) && n < |path|
    ensures var r := SplitExtension(path, child, key, value, n); r.Ok? && Canonical(r.value)
  {
    var existing := Wrap(path[n + 1..], child);
    assert Canonical(existing);
    var b := Branch(NoChildren()[path[n] := Some(existing)], None);
    assert Occupied(b.children, b.branchValue, path[n]);
    PlaceLeafShape(b, key[n..], value);
    TwoSlots(PlaceLeaf(b, key[n..], value).value, path[n], SlotOf(key[n..]));
  }

  /** Insertion never fails on nibble keys and keeps the canonical shape. */
  lemma {:induction false} InsertCanonical(n: Node, key: Path, value: Bytes)
    requires Canonical(n) && IsNibbles(key)
    ensures InsertInto(n, key, value).Ok?
    ensures Canonical(InsertInto(n, key, value).value)
    ensures n.Branch? ==> InsertInto(n, key, value).value.Branch?
    decreases n
  {
    match n
    case Leaf(path, prior) =>
      if path != key {
        SplitLeafCanonical(path, prior, key, value, CommonPrefixLen(path, key));
      }
    case Extension(path, child) =>
      var shared := CommonPrefixLen(path, key);
      if shared == |path| {
        InsertCanonical(child, key[shared..], value);
      } else {
        SplitExtensionCanonical(path, child, key, value, shared);
      }
    case Branch(children, prior) =>
      var s: nat, t: nat :| s < t <= 16 && Occupied(children, prior, s) && Occupied(children, prior, t);
      if key == [] || children[key[0]].None? {
        PlaceLeafShape(n, key, value);
        TwoSlots(PlaceLeaf(n, key, value).value, s, t);
      } else {
        InsertCanonical(children[key[0]].value, key[1..], value);
        assert InsertInto(n, key, value) == InsertBranch(n, key, value);
        var r := InsertInto(n, key, value).value;
        assert Occupied(r.children, r.branchValue, s) && Occupied(r.children, r.branchValue, t);
        TwoSlots(r, s, t);
      }
  }

  /** Insertion changes exactly one key's lookup. */
  lemma {:induction false} InsertLookup(n: Node, key: Path, value: Bytes, k: Path)
    requires Canonical(n) && IsNibbles(key)
    ensures InsertInto(n, key, value).Ok?
    ensures Lookup(InsertInto(n, key, value).value, k) == if k == key then Some(value) else Lookup(n, k)
    decreases n
  {
    match n
    case Leaf(path, prior) =>
      if path != key {
        SplitLeafLookup(path, prior, key, value, CommonPrefixLen(path, key), k);
      }
    case Extension(path, child) =>
      var shared := CommonPrefixLen(path, key);
      if shared == |path| {
        InsertCanonical(child, key[shared..], value);
        SplitPrefix(key, k, shared);
        assert path == key[..shared];
        if path <= k {
          InsertLookup(child, key[shared..], value, k[shared..]);
        }
      } else {
        SplitExtensionLookup(path, child, key, value, shared, k);
      }
    case Branch(children, prior) =>
      if key == [] || children[key[0]].None? {
        PlaceLeafLookup(n, key, value, k);
      } else {
        InsertCanonical(children[key[0]].value, key[1..], value);
        if k != [] && k[0] == key[0] {
          assert k == [k[0]] + k[1..] && key == [key[0]] + key[1..];
          InsertLookup(children[key[0]].value, key[1..], value, k[1..]);
        }
      }
  }

  lemma WrapLookup(prefix: Path, branch: Node, k: Path)
    ensures Lookup(Wrap(prefix, branch), k) == if prefix <= k then Lookup(branch, k[|prefix|..]) else None
  {
    if prefix == [] { assert k[0..] == k; }
  }

  /** A key equals `full` exactly when it has the prefix and the same remainder. */
  lemma SplitPrefix(full: Path, k: Path, n: nat)
    requires n <= |full|
    ensures k == full <==> full[..n] <= k && k[n..] == full[n..]
    ensures full <= k <==> full[..n] <= k && full[n..] <= k[n..]
    ensures full <= k ==> k[|full|..] == k[n..][|full| - n..]
  {
    assert full == full[..n] + full[n..];
    if full[..n] <= k {
      assert k == full[..n] + k[n..];
    }
    if full <= k {
      assert k[n..] == full[n..] + k[|full|..];
    }
  }

  lemma SplitLeafLookup(path: Path, prior: Bytes, key: Path, value: Bytes, n: nat, k: Path)
    requires IsNibbles(path) && IsNibbles(key) && path != key && PartAt(path, key, n)
    ensures var r := SplitLeaf(path, prior, key, value, n);
      r.Ok? && Lookup(r.value, k) == if k == key then Some(value) else if k == path then Some(prior) else None
  {
    var e := Branch(NoChildren(), None);
    var b := PlaceLeaf(e, path[n..], prior).value;
    PlaceLeafShape(e, path[n..], prior);
    var branch := PlaceLeaf(b, key[n..], value).value;
    WrapLookup(path[..n], branch, k);
    SplitPrefix(path, k, n);
    SplitPrefix(key, k, n);
    SplitSlotsDiffer(path, key, n);
    if path[..n] <= k {
      PlaceLeafLookup(e, path[n..], prior, k[n..]);
      PlaceLeafLookup(b, key[n..], value, k[n..]);
    }
  }

  lemma ExtensionLookup(path: Path, child: Node, k: Path)
    ensures Lookup(Extension(path, child), k) == if path <= k then Lookup(child, k[|path|..]) else None
  {
  }

  lemma OneChildLookup(nibble: U8, child: Node, k: Path)
    requires nibble < 16
    ensures Lookup(Branch(NoChildren()[nibble := Some(child)], None), k) ==
      if k != [] && k[0] == nibble then Lookup(child, k[1..]) else None
  {
  }

  /** Below the shared part, a split extension answers the new key or its old child. */
  lemma SplitBranchLookup(path: Path, child: Node, key: Path, value: Bytes, n: nat, sub: Path)
    requires Canonical(Extension(path, child)) && IsNibbles(key) && PartAt(path, key, n) && n < |path|
    ensures var b := Branch(NoChildren()[path[n] := Some(Wrap(path[n + 1..], child))], None);
      var r := PlaceLeaf(b, key[n..], value);
      && r.Ok?
      && Lookup(r.value, sub) == if sub == key[n..] then Some(value)
                                 else if path[n..] <= sub then Lookup(child, sub[|path| - n..]) else None
  {
    hide Lookup;
    var existing := Wrap(path[n + 1..], child);
    var b := Branch(NoChildren()[path[n] := Some(existing)], None);
    PlaceLeafLookup(b, key[n..], value, sub);
    OneChildLookup(path[n], existing, sub);
    SplitPrefix(path[n..], sub, 1);
    assert path[n..][1..] == path[n + 1..];
    if sub != [] {
      assert sub == [sub[0]] + sub[1..];
      WrapLookup(path[n + 1..], child, sub[1..]);
    }
  }

  lemma SplitExtensionLookup(path: Path, child: Node, key: Path, value: Bytes, n: nat, k: Path)
    requires Canonical(Extension(path, child)) && IsNibbles(key) && PartAt(path, key, n) && n < |path|
    ensures var r := SplitExtension(path, child, key, value, n);
      r.Ok? && Lookup(r.value, k) == if k == key then Some(value) else Lookup(Extension(path, child), k)
  {
    hide Lookup, PlaceLeaf, Canonical;
    ExtensionLookup(path, child, k);
    PathIsNibbles(path, child);
    var b := Branch(NoChildren()[path[n] := Some(Wrap(path[n + 1..], child))], None);
    SplitBranchLookup(path, child, key, value, n, if path[..n] <= k then k[n..] else []);
    WrapLookup(path[..n], PlaceLeaf(b, key[n..], value).value, k);
    SplitPrefix(path, k, n);
    SplitPrefix(key, k, n);
  }

  lemma PathIsNibbles(path: Path, child: Node)
    requires Canonical(Extension(path, child))
    ensures IsNibbles(path)
  {
  }

  // ---------- a canonical tree is determined by its lookups ----------

  /** Every canonical tree stores some key; a branch stores one beginning at any occupied slot. */
  lemma {:induction false} StoredKey(n: Node) returns (k: Path)
    requires Canonical(n)
    ensures Lookup(n, k).Some?
    decreases n
  {
    match n
    case Leaf(path, _) =>
      k := path;
    case Extension(path, child) =>
      var rest := StoredKey(child);
      k := path + rest;
      assert k[|path|..] == rest;
    case Branch(children, value) =>
      var s: nat, t: nat :| s < t <= 16 && Occupied(children, value, s) && Occupied(children, value, t);
      k := SlotKey(n, s);
  }

  ghost predicate AtSlot(k: Path, slot: nat) {
    if slot < 16 then |k| > 0 && k[0] == slot else k == []
  }

  lemma {:induction false} SlotKey(n: Node, slot: nat) returns (k: Path)
    requires n.Branch? && Canonical(n) && slot <= 16 && Occupied(n.children, n.branchValue, slot)
    ensures Lookup(n, k).Some? && AtSlot(k, slot)
    decreases n, 0
  {
    if slot == 16 {
      k := [];
    } else {
      var rest := StoredKey(n.children[slot].value);
      k := [slot] + rest;
      assert k[1..] == rest;
    }
  }

  /** A branch stores two keys that part ways at their first nibble. */
  lemma DivergingKeys(n: Node) returns (k0: Path, k1: Path)
    requires n.Branch? && Canonical(n)
    ensures Lookup(n, k0).Some? && Lookup(n, k1).Some?
    ensures k0 != k1 && (k0 == [] || k1 == [] || k0[0] != k1[0])
  {
    var s: nat, t: nat :| s < t <= 16 && Occupied(n.children, n.branchValue, s) &&
      Occupied(n.children, n.branchValue, t);
    k0 := SlotKey(n, s);
    k1 := SlotKey(n, t);
  }

  ghost predicate SameLookups(a: Node, b: Node) {
    forall k: Path :: Lookup(a, k) == Lookup(b, k)
  }

  /** Two canonical trees with the same lookups are the same tree. */
  lemma {:induction false} CanonicalUnique(a: Node, b: Node)
    requires Canonical(a) && Canonical(b) && SameLookups(a, b)
    ensures a == b
    decreases a
  {
    if a.Leaf? && b.Leaf? {
      assert Lookup(a, a.path) == Lookup(b, a.path);
    } else if a.Leaf? {
      ManyKeys(b, a);
    } else if b.Leaf? {
      ManyKeys(a, b);
    } else if a.Extension? && b.Extension? {
      ExtensionPathPrefix(a, b);
      ExtensionPathPrefix(b, a);
      assert a.path == b.path;
      forall k: Path ensures Lookup(a.child, k) == Lookup(b.child, k) {
        assert (a.path + k)[|a.path|..] == k;
        assert Lookup(a, a.path + k) == Lookup(b, a.path + k);
      }
      CanonicalUnique(a.child, b.child);
    } else if a.Extension? {
      ExtensionIsNotBranch(a, b);
    } else if b.Extension? {
      ExtensionIsNotBranch(b, a);
    } else {
      assert Lookup(a, []) == Lookup(b, []);
      forall i | 0 <= i < 16 ensures a.children[i] == b.children[i] {
        BranchSlotSame(a, b, i);
        if a.children[i].Some? {
          CanonicalUnique(a.children[i].value, b.children[i].value);
        }
      }
      assert a.children == b.children;
    }
  }

  lemma BranchSlotSame(a: Node, b: Node, i: nat)
    requires a.Branch? && b.Branch? && Canonical(a) && Canonical(b) && SameLookups(a, b) && i < 16
    ensures a.children[i].Some? <==> b.children[i].Some?
    ensures a.children[i].Some? ==> SameLookups(a.children[i].value, b.children[i].value)
  {
    if a.children[i].Some? {
      var k := SlotKey(a, i);
      assert Lookup(b, k).Some?;
    }
    if b.children[i].Some? {
      var k := SlotKey(b, i);
      assert Lookup(a, k).Some?;
    }
    if a.children[i].Some? {
      forall k: Path ensures Lookup(a.children[i].value, k) == Lookup(b.children[i].value, k) {
        assert ([i] + k)[1..] == k;
        assert Lookup(a, [i] + k) == Lookup(b, [i] + k);
      }
    }
  }

  /** A tree that is not a leaf stores two keys, so it cannot agree with a leaf. */
  lemma ManyKeys(n: Node, leaf: Node)
    requires Canonical(n) && !n.Leaf? && leaf.Leaf?
    ensures !SameLookups(n, leaf)
  {
    var prefix := if n.Extension? then n.path else [];
    var k0, k1 := DivergingKeys(if n.Extension? then n.child else n);
    assert (prefix + k0)[|prefix|..] == k0 && (prefix + k1)[|prefix|..] == k1;
    assert prefix == [] ==> prefix + k0 == k0 && prefix + k1 == k1;
    var k := if prefix + k0 == leaf.path then prefix + k1 else prefix + k0;
    assert Lookup(n, k) != Lookup(leaf, k);
  }

  lemma ExtensionIsNotBranch(e: Node, b: Node)
    requires Canonical(e) && Canonical(b) && e.Extension? && b.Branch?
    ensures !SameLookups(e, b)
  {
    var k0, k1 := DivergingKeys(b);
    var k := if k0 != [] && e.path[0] == k0[0] then k1 else k0;
    assert Lookup(e, k) != Lookup(b, k);
  }

  lemma ExtensionPathPrefix(a: Node, b: Node)
    requires Canonical(a) && Canonical(b) && a.Extension? && b.Extension? && SameLookups(a, b)
    ensures b.path <= a.path
  {
    var k0, k1 := DivergingKeys(a.child);
    var f0, f1 := a.path + k0, a.path + k1;
    assert f0[|a.path|..] == k0 && f1[|a.path|..] == k1;
    assert Lookup(b, f0).Some? && Lookup(b, f1).Some?;
    assert b.path <= f0 && b.path <= f1;
  }
}
