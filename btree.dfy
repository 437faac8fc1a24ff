/**
 * The node type and the observable views of a binary search tree shared by
 * the iterative and the recursive variant: the key set, the key-to-value map,
 * the search path, the three traversal orders and the height.
 *
 * A tree exclusively owns its children and has no back references, so a tree
 * is modelled as a value; a slot `bst_node_t **` inside it is a context (the
 * frames passed on the way down from the root) together with the subtree it
 * holds.
 */
module BTree {
  import opened Wrappers

  /** `bst_node_t`: a character key, an integer value and two owned subtrees; `Nil` is NULL. */
  datatype Tree = Nil | Node(left: Tree, key: char, value: int, right: Tree)

  /** What the traversal collector records of a node. */
  datatype Item = Item(key: char, value: int)

  function Size(t: Tree): nat
  {
    match t
    case Nil => 0
    case Node(l, _, _, r) => Size(l) + 1 + Size(r)
  }

  function Max(a: nat, b: nat): nat
  {
    if a < b then b else a
  }

  /** Height with the empty tree at height 0. */
  function Height(t: Tree): nat
  {
    match t
    case Nil => 0
    case Node(l, _, _, r) => 1 + Max(Height(l), Height(r))
  }

  function Keys(t: Tree): set<char>
  {
    match t
    case Nil => {}
    case Node(l, k, _, r) => Keys(l) + {k} + Keys(r)
  }

  /** The key-to-value map held by the tree; a node's own entry wins over its subtrees'. */
  function ToMap(t: Tree): (m: map<char, int>)
    ensures m.Keys == Keys(t)
  {
    match t
    case Nil => map[]
    case Node(l, k, v, r) => (ToMap(l) + ToMap(r))[k := v]
  }

  /** The ordered-key invariant: smaller keys to the left, greater keys to the right. */
  predicate BST(t: Tree)
  {
    match t
    case Nil => true
    case Node(l, k, _, r) =>
      && (forall x :: x in Keys(l) ==> x < k)
      && (forall x :: x in Keys(r) ==> k < x)
      && BST(l) && BST(r)
  }

  /** Every node's subtree heights differ by at most one. */
  predicate Balanced(t: Tree)
  {
    match t
    case Nil => true
    case Node(l, _, _, r) =>
      -1 <= Height(l) - Height(r) <= 1 && Balanced(l) && Balanced(r)
  }

  /** The value of the first node with key `k` on the comparison path from the root. */
  function Find(t: Tree, k: char): Option<int>
  {
    match t
    case Nil => None
    case Node(l, x, v, r) =>
      if x == k then Some(v) else if x < k then Find(r, k) else Find(l, k)
  }

  lemma {:induction false} FindOnlyKeys(t: Tree, k: char)
    ensures Find(t, k).Some? ==> k in Keys(t)
  {
    match t
    case Nil =>
    case Node(l, x, _, r) =>
      if x != k {
        FindOnlyKeys(l, k);
        FindOnlyKeys(r, k);
      }
  }

  /** On a BST the comparison path finds exactly the keys of the tree, with their values. */
  lemma {:induction false} FindIsLookup(t: Tree, k: char)
    requires BST(t)
    ensures Find(t, k) == if k in ToMap(t) then Some(ToMap(t)[k]) else None
  {
    match t
    case Nil =>
    case Node(l, x, v, r) =>
      if x < k {
        FindIsLookup(r, k);
        assert k !in Keys(l);
      } else if k < x {
        FindIsLookup(l, k);
        assert k !in Keys(r);
      }
  }

  /** Preorder: node, left subtree, right subtree. */
  function PreorderOf(t: Tree): (s: seq<Item>)
    ensures |s| == Size(t)
  {
    match t
    case Nil => []
    case Node(l, k, v, r) => [Item(k, v)] + PreorderOf(l) + PreorderOf(r)
  }

  /** Inorder: left subtree, node, right subtree. */
  function InorderOf(t: Tree): (s: seq<Item>)
    ensures |s| == Size(t)
  {
    match t
    case Nil => []
    case Node(l, k, v, r) => InorderOf(l) + [Item(k, v)] + InorderOf(r)
  }

  /** Postorder: left subtree, right subtree, node. */
  function PostorderOf(t: Tree): (s: seq<Item>)
    ensures |s| == Size(t)
  {
    match t
    case Nil => []
    case Node(l, k, v, r) => PostorderOf(l) + PostorderOf(r) + [Item(k, v)]
  }

  /** The three traversals visit the same nodes, each exactly once. */
  lemma {:induction false} TraversalsArePermutations(t: Tree)
    ensures multiset(PreorderOf(t)) == multiset(InorderOf(t)) == multiset(PostorderOf(t))
  {
    match t
    case Nil =>
    case Node(l, _, _, r) =>
      TraversalsArePermutations(l);
      TraversalsArePermutations(r);
  }

  function KeysOf(s: seq<Item>): set<char>
  {
    set x | x in s :: x.key
  }

  lemma {:induction false} InorderKeys(t: Tree)
    ensures KeysOf(InorderOf(t)) == Keys(t)
  {
    match t
    case Nil =>
    case Node(l, k, v, r) =>
      InorderKeys(l);
      InorderKeys(r);
      assert InorderOf(t) == InorderOf(l) + [Item(k, v)] + InorderOf(r);
      forall y
        ensures y in KeysOf(InorderOf(t)) <==> y in Keys(t)
      {
        if y in Keys(t) {
          if y in Keys(l) {
            var x :| x in InorderOf(l) && x.key == y;
            assert x in InorderOf(t);
          } else if y in Keys(r) {
            var x :| x in InorderOf(r) && x.key == y;
            assert x in InorderOf(t);
          } else {
            assert Item(k, v) in InorderOf(t);
          }
        }
      }
  }

  lemma SplitLast<T>(s: seq<T>)
    requires s != []
    ensures s == s[..|s| - 1] + [s[|s| - 1]]
  {
  }

  lemma SeqUnit<T>(a: seq<T>)
    ensures a + [] == a && [] + a == a
  {
  }

  lemma SeqAssoc<T>(a: seq<T>, b: seq<T>, c: seq<T>)
    ensures (a + b) + c == a + (b + c)
  {
  }

  /** Strictly increasing keys. */
  predicate Increasing(s: seq<Item>)
  {
    forall i, j :: 0 <= i < j < |s| ==> s[i].key < s[j].key
  }

  lemma IncreasingAroundSplit(a: seq<Item>, x: Item, b: seq<Item>)
    requires Increasing(a + [x] + b)
    ensures Increasing(a) && Increasing(b)
    ensures forall y :: y in a ==> y.key < x.key
    ensures forall y :: y in b ==> x.key < y.key
  {
    var s := a + [x] + b;
    assert s[|a|] == x;
    forall y | y in a ensures y.key < x.key {
      var i :| 0 <= i < |a| && a[i] == y;
      assert s[i] == y;
    }
    forall y | y in b ensures x.key < y.key {
      var i :| 0 <= i < |b| && b[i] == y;
      assert s[|a| + 1 + i] == y;
    }
    forall i, j | 0 <= i < j < |a| ensures a[i].key < a[j].key {
      assert s[i] == a[i] && s[j] == a[j];
    }
    forall i, j | 0 <= i < j < |b| ensures b[i].key < b[j].key {
      assert s[|a| + 1 + i] == b[i] && s[|a| + 1 + j] == b[j];
    }
  }

  lemma IncreasingAroundJoin(a: seq<Item>, x: Item, b: seq<Item>)
    requires Increasing(a) && Increasing(b)
    requires forall y :: y in a ==> y.key < x.key
    requires forall y :: y in b ==> x.key < y.key
    ensures Increasing(a + [x] + b)
  {
    var s := a + [x] + b;
    forall i, j | 0 <= i < j < |s| ensures s[i].key < s[j].key {
      var si := if i < |a| then a[i] else if i == |a| then x else b[i - |a| - 1];
      var sj := if j < |a| then a[j] else if j == |a| then x else b[j - |a| - 1];
      assert s[i] == si && s[j] == sj;
      if i < |a| { assert a[i] in a; }
      if j > |a| { assert b[j - |a| - 1] in b; }
    }
  }

  /** The ordered-key invariant holds exactly when the inorder keys strictly increase. */
  lemma {:induction false} BstIffInorderIncreasing(t: Tree)
    ensures BST(t) <==> Increasing(InorderOf(t))
  {
    match t
    case Nil =>
    case Node(l, k, v, r) =>
      BstIffInorderIncreasing(l);
      BstIffInorderIncreasing(r);
      InorderKeys(l);
      InorderKeys(r);
      var a, b := InorderOf(l), InorderOf(r);
      if Increasing(InorderOf(t)) {
        IncreasingAroundSplit(a, Item(k, v), b);
        forall x | x in Keys(l) ensures x < k {
          var y :| y in a && y.key == x;
        }
        forall x | x in Keys(r) ensures k < x {
          var y :| y in b && y.key == x;
        }
      }
      if BST(t) {
        forall y | y in a ensures y.key < k {
          assert y.key in KeysOf(a);
        }
        forall y | y in b ensures k < y.key {
          assert y.key in KeysOf(b);
        }
        IncreasingAroundJoin(a, Item(k, v), b);
      }
  }

  /** The map a sequence of (key, value) items describes, later items winning. */
  function ItemsMap(s: seq<Item>): map<char, int>
  {
    if s == [] then map[] else ItemsMap(s[..|s| - 1])[s[|s| - 1].key := s[|s| - 1].value]
  }

  lemma {:induction false} ItemsMapConcat(a: seq<Item>, b: seq<Item>)
    ensures ItemsMap(a + b) == ItemsMap(a) + ItemsMap(b)
    decreases |b|
  {
    if b == [] {
      assert a + b == a;
    } else {
      assert (a + b)[..|a + b| - 1] == a + b[..|b| - 1];
      ItemsMapConcat(a, b[..|b| - 1]);
    }
  }

  lemma ItemsMapSnoc(a: seq<Item>, x: Item)
    ensures ItemsMap(a + [x]) == ItemsMap(a)[x.key := x.value]
  {
    assert (a + [x])[..|a|] == a;
  }

  lemma MapJoinCommutes(ml: map<char, int>, mr: map<char, int>, k: char, v: int)
    requires k !in mr
    ensures ml[k := v] + mr == (ml + mr)[k := v]
  {
  }

  /** A BST's map is the map of its inorder items: the inorder sequence determines the content. */
  lemma {:induction false} InorderDescribesMap(t: Tree)
    requires BST(t)
    ensures ItemsMap(InorderOf(t)) == ToMap(t)
  {
    match t
    case Nil =>
    case Node(l, k, v, r) =>
      InorderDescribesMap(l);
      InorderDescribesMap(r);
      var a, b := InorderOf(l), InorderOf(r);
      assert InorderOf(t) == (a + [Item(k, v)]) + b;
      ItemsMapConcat(a + [Item(k, v)], b);
      ItemsMapSnoc(a, Item(k, v));
      assert k !in ToMap(r);
      MapJoinCommutes(ToMap(l), ToMap(r), k, v);
  }

  /** The frame a slot pointer leaves behind when it moves into a child. */
  datatype Frame =
    | WentLeft(key: char, value: int, right: Tree)
    | WentRight(left: Tree, key: char, value: int)

  function Fill(f: Frame, s: Tree): Tree
  {
    match f
    case WentLeft(k, v, r) => Node(s, k, v, r)
    case WentRight(l, k, v) => Node(l, k, v, s)
  }

  /** The whole tree, given the frames from the root down to a slot and the slot's subtree. */
  function Plug(ctx: seq<Frame>, s: Tree): Tree
    decreases |ctx|
  {
    if ctx == [] then s else Fill(ctx[0], Plug(ctx[1..], s))
  }

  lemma {:induction false} PlugSnoc(ctx: seq<Frame>, f: Frame, s: Tree)
    ensures Plug(ctx + [f], s) == Plug(ctx, Fill(f, s))
    decreases |ctx|
  {
    if ctx != [] {
      assert (ctx + [f])[1..] == ctx[1..] + [f];
      PlugSnoc(ctx[1..], f, s);
    }
  }
}
