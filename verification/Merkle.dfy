/**
 The Merkle root: the in-place, level-by-level loop of HashTree against a tree built from the
 root down. Hashes are numbers, zero being the all-zero hash; the pair hash is a parameter.
 */
module Merkles {
  import opened Actions

  const ZERO_HASH: Hash := 0

  type PairHash = (Hash, Hash) -> Hash

  // ---------- the tree ----------

  datatype Tree = Leaf(hash: Hash) | Fork(left: Tree, right: Tree)

  function TreeHash(pair: PairHash, t: Tree): Hash {
    match t
    case Leaf(h) => h
    case Fork(l, r) => pair(TreeHash(pair, l), TreeHash(pair, r))
  }

  /** How many nodes a tree over `n` leaves has `height` levels above them. */
  function Width(n: nat, height: nat): (w: nat)
    ensures n > 0 ==> w > 0
    ensures w <= n
  {
    if height == 0 then n else (Width(n, height - 1) + 1) / 2
  }

  /** The `k`-th node of a level, built downwards; the last node of an odd level is used twice. */
  function Node(leaves: seq<Hash>, height: nat, k: nat): Tree
    requires k < Width(|leaves|, height)
  {
    if height == 0 then Leaf(leaves[k])
    else Fork(Node(leaves, height - 1, 2 * k), Node(leaves, height - 1, Right(Width(|leaves|, height - 1), k)))
  }

  /** Where the right child of node `k` is on a level of `width` nodes. */
  function Right(width: nat, k: nat): (r: nat)
    requires 2 * k < width
    ensures r < width
  {
    if 2 * k + 1 < width then 2 * k + 1 else 2 * k
  }

  /** The least height at which a single node is left. */
  function Height(n: nat): (h: nat)
    requires n > 0
    ensures Width(n, h) == 1
  {
    if n == 1 then 0
    else
      WidthShift((n + 1) / 2, n, Height((n + 1) / 2));
      Height((n + 1) / 2) + 1
  }

  lemma {:induction false} WidthShift(m: nat, n: nat, height: nat)
    requires m == (n + 1) / 2
    ensures Width(n, height + 1) == Width(m, height)
  {
    if height > 0 {
      WidthShift(m, n, height - 1);
    }
  }

  function MerkleTree(leaves: seq<Hash>): Tree
    requires leaves != []
  {
    Node(leaves, Height(|leaves|), 0)
  }

  // ---------- level by level ----------

  /** The level above `s`. */
  function Level(pair: PairHash, s: seq<Hash>): (up: seq<Hash>)
    ensures |up| == (|s| + 1) / 2
  {
    seq((|s| + 1) / 2, k requires 0 <= k < (|s| + 1) / 2 =>
      pair(s[2 * k], if 2 * k + 1 < |s| then s[2 * k + 1] else s[2 * k]))
  }

  function Root(pair: PairHash, s: seq<Hash>): Hash
    requires s != []
    decreases |s|
  {
    if |s| == 1 then s[0] else Root(pair, Level(pair, s))
  }

  lemma NodeHash(pair: PairHash, leaves: seq<Hash>, height: nat, k: nat)
    requires height > 0 && k < Width(|leaves|, height)
    ensures 2 * k < Width(|leaves|, height - 1)
    ensures
      var right := Right(Width(|leaves|, height - 1), k);
      TreeHash(pair, Node(leaves, height, k)) ==
      pair(TreeHash(pair, Node(leaves, height - 1, 2 * k)), TreeHash(pair, Node(leaves, height - 1, right)))
  {
  }

  /** `up` has the node hashes that `s` has one level higher. */
  ghost predicate OneLevelUp(pair: PairHash, s: seq<Hash>, up: seq<Hash>, height: nat) {
    && Width(|up|, height) == Width(|s|, height + 1)
    && forall k {:trigger Node(up, height, k)} | 0 <= k < Width(|up|, height) ::
         TreeHash(pair, Node(up, height, k)) == TreeHash(pair, Node(s, height + 1, k))
  }

  lemma LevelIsOneUp(pair: PairHash, s: seq<Hash>)
    ensures OneLevelUp(pair, s, Level(pair, s), 0)
  {
    forall k | 0 <= k < |Level(pair, s)| ensures Level(pair, s)[k] == TreeHash(pair, Node(s, 1, k)) {
      NodeHash(pair, s, 1, k);
    }
  }

  lemma HigherIsOneUp(pair: PairHash, s: seq<Hash>, up: seq<Hash>, height: nat)
    requires OneLevelUp(pair, s, up, height)
    ensures OneLevelUp(pair, s, up, height + 1)
  {
    var h := height + 1;
    forall k {:trigger Node(up, h, k)} | 0 <= k < Width(|up|, h)
      ensures TreeHash(pair, Node(up, h, k)) == TreeHash(pair, Node(s, h + 1, k))
    {
      NodeHash(pair, up, h, k);
      NodeHash(pair, s, height + 2, k);
    }
  }

  /** A node above the next level is a node one level higher above this one. */
  lemma {:induction false} NodeOfLevel(pair: PairHash, s: seq<Hash>, height: nat)
    ensures OneLevelUp(pair, s, Level(pair, s), height)
  {
    if height == 0 {
      LevelIsOneUp(pair, s);
    } else {
      NodeOfLevel(pair, s, height - 1);
      HigherIsOneUp(pair, s, Level(pair, s), height - 1);
    }
  }

  /** Folding level by level gives the hash of the tree. */
  lemma {:induction false} RootIsTreeHash(pair: PairHash, s: seq<Hash>)
    requires s != []
    ensures Root(pair, s) == TreeHash(pair, MerkleTree(s))
    decreases |s|
  {
    if |s| > 1 {
      var up := Level(pair, s);
      RootIsTreeHash(pair, up);
      NodeOfLevel(pair, s, Height(|up|));
      assert Node(up, Height(|up|), 0) == MerkleTree(up);
    }
  }

  /** Doubling the last node of an odd level does not change the level above. */
  lemma PaddingIsHarmless(pair: PairHash, s: seq<Hash>)
    requires |s| % 2 == 1
    ensures Level(pair, s + [s[|s| - 1]]) == Level(pair, s)
  {
  }

  /** One round of folding, after an odd level has been padded. */
  lemma RoundKeepsRoot(pair: PairHash, s: seq<Hash>, even: seq<Hash>)
    requires |s| > 1 && even == Padded(s)
    ensures Root(pair, Level(pair, even)) == Root(pair, s)
  {
    if |s| % 2 == 1 {
      PaddingIsHarmless(pair, s);
    }
  }

  // ---------- what the root commits to ----------

  ghost predicate CollisionFree(pair: PairHash) {
    forall a, b, c, d :: pair(a, b) == pair(c, d) ==> a == c && b == d
  }

  lemma LevelIsInjective(pair: PairHash, s: seq<Hash>, t: seq<Hash>)
    requires CollisionFree(pair) && |s| == |t| && Level(pair, s) == Level(pair, t)
    ensures s == t
  {
    forall i | 0 <= i < |s| ensures s[i] == t[i] {
      assert Level(pair, s)[i / 2] == Level(pair, t)[i / 2];
      assert i == 2 * (i / 2) || i == 2 * (i / 2) + 1;
    }
  }

  /** Among leaf lists of one length, the root determines the leaves. */
  lemma {:induction false} RootIsInjective(pair: PairHash, s: seq<Hash>, t: seq<Hash>)
    requires CollisionFree(pair) && s != [] && |s| == |t|
    ensures Root(pair, s) == Root(pair, t) <==> s == t
    decreases |s|
  {
    if Root(pair, s) == Root(pair, t) {
      if |s| > 1 {
        RootIsInjective(pair, Level(pair, s), Level(pair, t));
        LevelIsInjective(pair, s, t);
      } else {
        assert s[0] == t[0];
      }
    }
  }

  /** The lengths matter: an odd list and the list with its last leaf doubled share their root. */
  lemma DoubledLastLeaf(pair: PairHash, s: seq<Hash>)
    requires |s| > 1 && |s| % 2 == 1
    ensures Root(pair, s + [s[|s| - 1]]) == Root(pair, s)
  {
    PaddingIsHarmless(pair, s);
  }

  // ---------- how the root is put together ----------

  function Power(k: nat): (p: nat)
    ensures p > 0
  {
    if k == 0 then 1 else 2 * Power(k - 1)
  }

  /** Leaves raised by a number of levels, even where one node is left already. */
  function Raised(pair: PairHash, s: seq<Hash>, k: nat): seq<Hash>
    decreases k
  {
    if k == 0 then s else Raised(pair, Level(pair, s), k - 1)
  }

  lemma LevelOfSum(pair: PairHash, s: seq<Hash>, t: seq<Hash>)
    requires |s| % 2 == 0
    ensures Level(pair, s + t) == Level(pair, s) + Level(pair, t)
  {
    var up, sum := Level(pair, s + t), Level(pair, s) + Level(pair, t);
    assert |up| == |sum|;
    forall i | 0 <= i < |up| ensures up[i] == sum[i] {
      if i < |s| / 2 {
        assert (s + t)[2 * i] == s[2 * i] && (s + t)[2 * i + 1] == s[2 * i + 1];
      } else {
        assert (s + t)[2 * i] == t[2 * (i - |s| / 2)];
      }
    }
  }

  /**
   The root is the pair hash of the root of the left half and what becomes of the right half, in this
   order. The left half is a full tree; the right half may be shorter and is raised as far as the left.
   */
  lemma {:induction false} RootOfHalves(pair: PairHash, s: seq<Hash>, t: seq<Hash>, k: nat)
    requires |s| == Power(k) && 0 < |t| <= Power(k)
    ensures |Raised(pair, t, k)| == 1
    ensures Root(pair, s + t) == pair(Root(pair, s), Raised(pair, t, k)[0])
    decreases k
  {
    if k == 0 {
      assert Level(pair, s + t) == [pair(s[0], t[0])];
    } else {
      LevelOfSum(pair, s, t);
      RootOfHalves(pair, Level(pair, s), Level(pair, t), k - 1);
    }
  }

  /** A right half that is a full tree, too, comes to its root. */
  lemma {:induction false} FullIsRaised(pair: PairHash, t: seq<Hash>, k: nat)
    requires |t| == Power(k)
    ensures Raised(pair, t, k) == [Root(pair, t)]
    decreases k
  {
    if k > 0 {
      FullIsRaised(pair, Level(pair, t), k - 1);
    }
  }

  /** A single leaf is its own root; raised on the right of a larger tree it is paired with itself. */
  lemma SingleLeaf(pair: PairHash, h: Hash)
    ensures Root(pair, [h]) == h && Raised(pair, [h], 1) == [pair(h, h)]
  {
    assert Level(pair, [h]) == [pair(h, h)];
  }

  // ---------- HashTree ----------

  /** The leaves as NewMerkleTree stores them when there are at least two. */
  function Padded(leaves: seq<Hash>): (s: seq<Hash>)
    requires leaves != []
    ensures |s| % 2 == 0 && leaves <= s
  {
    if |leaves| % 2 == 1 then leaves + [leaves[|leaves| - 1]] else leaves
  }

  class Merkle {
    const pair: PairHash
    var root: Hash
    const leaf: array<Hash>
    var size: nat
    ghost const leaves: seq<Hash>

    ghost predicate Valid()
      reads this, leaf
    {
      && leaves != []
      && (root == ZERO_HASH || root == Root(pair, leaves))
      && if |leaves| == 1 then size == 1 && root == leaves[0] else size == leaf.Length && leaf[..] == Padded(leaves)
    }

    /** NewMerkleTree, given at least one leaf */
    constructor (pair: PairHash, hashes: seq<Hash>)
      requires hashes != []
      ensures Valid() && this.pair == pair && leaves == hashes && fresh(leaf)
    {
      var n := |hashes|;
      var store := new Hash[(n + 1) / 2 * 2];
      forall i | 0 <= i < n {
        store[i] := hashes[i];
      }
      var top, count := ZERO_HASH, n;
      if n == 1 {
        top := store[0];
      } else if n != store.Length {
        store[n] := store[n - 1];
        count := store.Length;
      }
      this.pair, leaf, leaves, root, size := pair, store, hashes, top, count;
      new;
      assert n > 1 ==> leaf[..] == Padded(hashes);
    }

    /**
     HashTree. Nothing is returned where the program indexes an empty slice: that is so for a
     single all-zero leaf, and only then.
     */
    method HashTree() returns (r: Option<Hash>)
      requires Valid()
      modifies this`root
      ensures Valid()
      ensures r == if leaves == [ZERO_HASH] then None else Some(TreeHash(pair, MerkleTree(leaves)))
      ensures root == if r.Some? then r.value else old(root)
    {
      RootIsTreeHash(pair, leaves);
      if root != ZERO_HASH {
        return Some(root);
      }
      if size / 2 == 0 {
        assert leaves == [leaves[0]];
        return None;
      }
      var merkle := FirstRound();
      var top := FoldLevels(pair, merkle);
      root := top;
      r := Some(top);
    }

    /** The first round works on the stored leaves. */
    method FirstRound() returns (merkle: array<Hash>)
      requires Valid() && |leaves| > 1
      ensures fresh(merkle) && merkle.Length > 0 && Root(pair, merkle[..]) == Root(pair, leaves)
    {
      var length := size / 2;
      merkle := new Hash[length];
      ghost var up := Level(pair, leaf[..]);
      for i := 0 to length
        invariant forall k :: 0 <= k < i ==> merkle[k] == up[k]
      {
        merkle[i] := pair(leaf[2 * i], leaf[2 * i + 1]);
      }
      assert merkle[..] == up;
      RoundKeepsRoot(pair, leaves, leaf[..]);
    }
  }

  /** The remaining rounds, each in place in the same slice. */
  method FoldLevels(pair: PairHash, buffer: array<Hash>) returns (root: Hash)
    requires buffer.Length > 0
    modifies buffer
    ensures root == Root(pair, old(buffer[..]))
  {
    var merkle, length := buffer, buffer.Length;
    assert merkle[..length] == buffer[..];
    while length > 1
      invariant 0 < length <= merkle.Length && (merkle == buffer || fresh(merkle))
      invariant Root(pair, merkle[..length]) == Root(pair, old(buffer[..]))
    {
      ghost var s := merkle[..length];
      if length % 2 != 0 {
        merkle := Append(merkle, length);
        length := length + 1;
      }
      ghost var even := merkle[..length];
      RoundKeepsRoot(pair, s, even);
      length := length / 2;
      assert merkle[..2 * length] == even;
      FoldInPlace(pair, merkle, length);
      assert merkle[..length] == Level(pair, even);
    }
    root := merkle[0];
  }

  /** append(merkle, merkle[length-1]): in place while there is room, otherwise in a new array. */
  method Append(merkle: array<Hash>, length: nat) returns (longer: array<Hash>)
    requires 0 < length <= merkle.Length
    modifies merkle
    ensures longer == merkle || fresh(longer)
    ensures length < longer.Length && longer[..length + 1] == old(merkle[..length]) + [old(merkle[length - 1])]
  {
    longer := merkle;
    if length == merkle.Length {
      longer := new Hash[2 * length];
      forall i | 0 <= i < length {
        longer[i] := merkle[i];
      }
    }
    longer[length] := longer[length - 1];
  }

  /** One round: each slot is read for the last time no later than it is overwritten. */
  method FoldInPlace(pair: PairHash, merkle: array<Hash>, length: nat)
    requires 2 * length <= merkle.Length
    modifies merkle
    ensures merkle[..length] == Level(pair, old(merkle[..2 * length]))
  {
    ghost var s := merkle[..2 * length];
    for i := 0 to length
      invariant forall k :: 0 <= k < i ==> merkle[k] == Level(pair, s)[k]
      invariant forall k :: i <= k < 2 * length ==> merkle[k] == s[k]
    {
      merkle[i] := pair(merkle[2 * i], merkle[2 * i + 1]);
    }
  }

  /** NewMerkleTree: no leaves, no tree. */
  method NewMerkleTree(pair: PairHash, leaves: seq<Hash>) returns (mk: Merkle?)
    ensures mk == null <==> leaves == []
    ensures mk != null ==> mk.Valid() && fresh(mk) && mk.pair == pair && mk.leaves == leaves
  {
    if leaves == [] {
      return null;
    }
    mk := new Merkle(pair, leaves);
  }

  /** Asking twice gives the same answer: the cache agrees with the computation. */
  method HashTreeTwice(mk: Merkle) returns (first: Option<Hash>, second: Option<Hash>)
    requires mk.Valid()
    modifies mk`root
    ensures first == second
  {
    first := mk.HashTree();
    second := mk.HashTree();
  }
}
