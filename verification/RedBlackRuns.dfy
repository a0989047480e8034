/**
  Whole runs of AK::RedBlackTree<K, V>: every tree reachable by inserting and removing keys
  holds exactly the keys of a sorted list treated the same way, and is balanced.
 */
module RedBlackRuns {
  import opened Common
  import opened RedBlackShape
  import opened RedBlackTrees

  datatype Op = Insert(key: int) | Remove(key: int)

  // ----- the sorted list a tree stands for -----

  function InsertKey(s: seq<int>, k: int): seq<int> {
    if s == [] then [k] else if k < s[0] then [k] + s else [s[0]] + InsertKey(s[1..], k)
  }

  function RemoveKey(s: seq<int>, k: int): seq<int> {
    if s == [] then [] else if s[0] == k then s[1..] else [s[0]] + RemoveKey(s[1..], k)
  }

  function Replay(ops: seq<Op>): seq<int> {
    if ops == [] then []
    else
      var s := Replay(ops[..|ops| - 1]);
      match ops[|ops| - 1]
      case Insert(k) => InsertKey(s, k)
      case Remove(k) => RemoveKey(s, k)
  }

  ghost function Keys(s: seq<Node>): seq<int> {
    seq(|s|, i requires 0 <= i < |s| => s[i].key)
  }

  lemma {:induction false} InsertKeySplits(a: seq<int>, b: seq<int>, k: int)
    requires forall j | 0 <= j < |a| :: a[j] <= k
    requires forall j | 0 <= j < |b| :: k < b[j]
    ensures InsertKey(a + b, k) == a + [k] + b
  {
    if a == [] {
      assert a + b == b && a + [k] + b == [k] + b;
    } else {
      assert (a + b)[1..] == a[1..] + b;
      InsertKeySplits(a[1..], b, k);
    }
  }

  lemma {:induction false} RemoveKeyAnywhere(s: seq<int>, i: nat)
    requires i < |s| && forall j, k | 0 <= j < k < |s| :: s[j] <= s[k]
    ensures RemoveKey(s, s[i]) == s[..i] + s[i + 1..]
  {
    if s[0] == s[i] {
      assert forall j | 0 <= j <= i :: s[0] <= s[j] <= s[i];
      assert s[1..] == s[..i] + s[i + 1..];
    } else {
      RemoveKeyAnywhere(s[1..], i - 1);
      assert s[..i] + s[i + 1..] == [s[0]] + (s[1..][..i - 1] + s[1..][i..]);
    }
  }

  lemma {:induction false} RemoveKeyAbsent(s: seq<int>, k: int)
    requires k !in s
    ensures RemoveKey(s, k) == s
  {
    if s != [] {
      RemoveKeyAbsent(s[1..], k);
    }
  }

  lemma KeysOfInsertion(s: seq<Node>, i: nat, n: Node)
    requires i <= |s|
    requires forall m | m in s[..i] :: m.key <= n.key
    requires forall m | m in s[i..] :: n.key < m.key
    ensures Keys(s[..i] + [n] + s[i..]) == InsertKey(Keys(s), n.key)
  {
    var a, b := Keys(s[..i]), Keys(s[i..]);
    assert Keys(s) == a + b;
    forall j | 0 <= j < |a| ensures a[j] <= n.key {
      assert s[..i][j] in s[..i];
    }
    forall j | 0 <= j < |b| ensures n.key < b[j] {
      assert s[i..][j] in s[i..];
    }
    InsertKeySplits(a, b, n.key);
  }

  lemma KeysOfRemoval(s: seq<Node>, i: nat)
    requires Sorted(s) && i < |s|
    ensures Keys(Without(s, i)) == RemoveKey(Keys(s), s[i].key)
  {
    RemoveKeyAnywhere(Keys(s), i);
    assert Keys(Without(s, i)) == Keys(s)[..i] + Keys(s)[i + 1..];
  }

  /** RedBlackTree::insert(key, value): a fresh node goes in. */
  method InsertInto(t: RedBlackTree, key: int)
    requires t.Ok()
    modifies t, t.nodes
    ensures t.Ok() && fresh(t.nodes - old(t.nodes))
    ensures Keys(Inorder(t.tree)) == InsertKey(old(Keys(Inorder(t.tree))), key)
  {
    ghost var s := Inorder(t.tree);
    var node := new Node(key);
    ghost var i := t.Insert(node);
    KeysOfInsertion(s, i, node);
  }

  /** RedBlackTree::remove(key): says whether there was a node to remove. */
  method RemoveFrom(t: RedBlackTree, key: int) returns (found: bool)
    requires t.Ok()
    modifies t, t.nodes
    ensures t.Ok() && t.nodes <= old(t.nodes)
    ensures found == (key in old(Keys(Inorder(t.tree))))
    ensures Keys(Inorder(t.tree)) == RemoveKey(old(Keys(Inorder(t.tree))), key)
  {
    ghost var s := Inorder(t.tree);
    var node := t.Find(key);
    if node == null {
      forall j | 0 <= j < |s| ensures Keys(s)[j] != key {
        assert s[j] in s;
      }
      RemoveKeyAbsent(Keys(s), key);
      return false;
    }
    InorderNodes(t.tree);
    ghost var i := t.Remove(node);
    assert Keys(s)[i] == key;
    KeysOfRemoval(s, i);
    return true;
  }

  /** Every reachable tree. */
  method Run(ops: seq<Op>) returns (t: RedBlackTree)
    ensures t.Ok() && Keys(Inorder(t.tree)) == Replay(ops) && t.size == |Replay(ops)|
    ensures Pow2(Height(t.tree)) <= (t.size + 1) * (t.size + 1)
    ensures fresh(t) && fresh(t.nodes)
  {
    t := new RedBlackTree();
    for k := 0 to |ops|
      invariant t.Ok() && fresh(t) && fresh(t.nodes)
      invariant Keys(Inorder(t.tree)) == Replay(ops[..k])
    {
      assert ops[..k + 1][..k] == ops[..k];
      match ops[k] {
        case Insert(key) => InsertInto(t, key);
        case Remove(key) => var _ := RemoveFrom(t, key);
      }
    }
    assert ops[..|ops|] == ops;
    HeightBound(t.tree);
  }
}
