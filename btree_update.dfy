/**
 * What insertion, removal of the rightmost node and deletion do to a tree,
 * as functions shared by the iterative and the recursive variant, and the
 * lemmas that say what they mean: the key set, the map, the ordered-key
 * invariant and the slot that is rewritten.
 *
 * Removal is modelled as written: the rightmost node's slot becomes empty and
 * its left subtree is dropped. `RemoveRightmost` and `DeletedFixed` are the
 * corrected operations that promote that left subtree.
 */
module BTreeUpdate {
  import opened Wrappers
  import opened BTree

  /** Upsert along the comparison path: overwrite the value of the node found, else hang a new leaf where the path ends. */
  function Inserted(t: Tree, k: char, v: int): Tree
  {
    match t
    case Nil => Node(Nil, k, v, Nil)
    case Node(l, x, w, rt) =>
      if x == k then Node(l, x, v, rt)
      else if x < k then Node(l, x, w, Inserted(rt, k, v))
      else Node(Inserted(l, k, v), x, w, rt)
  }

  /** An upsert adds exactly its key, and grows the tree by one node exactly when the key was not found. */
  lemma {:induction false} InsertedKeys(t: Tree, k: char, v: int)
    ensures Keys(Inserted(t, k, v)) == Keys(t) + {k}
    ensures Size(Inserted(t, k, v)) == if Find(t, k).None? then Size(t) + 1 else Size(t)
  {
    match t
    case Nil =>
    case Node(l, x, w, rt) =>
      if x < k {
        InsertedKeys(rt, k, v);
      } else if k < x {
        InsertedKeys(l, k, v);
      }
  }

  /** The frames the comparison descent for `k` passes before it stops. */
  function DescentPath(t: Tree, k: char): seq<Frame>
  {
    match t
    case Nil => []
    case Node(l, x, w, r) =>
      if x == k then []
      else if x < k then [WentRight(l, x, w)] + DescentPath(r, k)
      else [WentLeft(x, w, r)] + DescentPath(l, k)
  }

  /** The subtree in the slot where the descent for `k` stops: empty, or a node with key `k`. */
  function Reached(t: Tree, k: char): (s: Tree)
    ensures s == Nil || s.key == k
  {
    match t
    case Nil => Nil
    case Node(l, x, _, r) =>
      if x == k then t else if x < k then Reached(r, k) else Reached(l, k)
  }

  lemma {:induction false} DescentSplits(t: Tree, k: char)
    ensures t == Plug(DescentPath(t, k), Reached(t, k))
    ensures Find(t, k) == if Reached(t, k) == Nil then None else Some(Reached(t, k).value)
  {
    match t
    case Nil =>
    case Node(l, x, w, r) =>
      if x < k {
        DescentSplits(r, k);
      } else if k < x {
        DescentSplits(l, k);
      }
  }

  /** Insertion rewrites exactly the slot where the descent stops: a found node gets the new value, an empty slot a new leaf. */
  lemma {:induction false} InsertedRewritesSlot(t: Tree, k: char, v: int)
    ensures t == Plug(DescentPath(t, k), Reached(t, k))
    ensures Inserted(t, k, v) ==
              Plug(DescentPath(t, k),
                   if Reached(t, k) == Nil then Node(Nil, k, v, Nil) else Reached(t, k).(value := v))
  {
    DescentSplits(t, k);
    match t
    case Nil =>
    case Node(l, x, w, r) =>
      if x < k {
        InsertedRewritesSlot(r, k, v);
      } else if k < x {
        InsertedRewritesSlot(l, k, v);
      }
  }

  /** Insertion keeps the ordered-key invariant and updates the map at `k`. */
  lemma {:induction false} InsertedContent(t: Tree, k: char, v: int)
    requires BST(t)
    ensures BST(Inserted(t, k, v))
    ensures ToMap(Inserted(t, k, v)) == ToMap(t)[k := v]
  {
    match t
    case Nil =>
      assert ToMap(Nil) + ToMap(Nil) == map[];
    case Node(l, x, w, r) =>
      if x == k {
        MapUpdateTwice(ToMap(l) + ToMap(r), x, w, v);
      } else if x < k {
        InsertedContent(r, k, v);
        InsertedRightStep(l, x, w, r, Inserted(r, k, v), k, v);
      } else {
        InsertedContent(l, k, v);
        InsertedLeftStep(l, x, w, r, Inserted(l, k, v), k, v);
      }
  }

  /** Inserting into the right subtree of a node with a smaller key. */
  lemma InsertedRightStep(l: Tree, x: char, w: int, r: Tree, r': Tree, k: char, v: int)
    requires BST(Node(l, x, w, r)) && x < k
    requires BST(r') && Keys(r') == Keys(r) + {k} && ToMap(r') == ToMap(r)[k := v]
    ensures BST(Node(l, x, w, r'))
    ensures ToMap(Node(l, x, w, r')) == ToMap(Node(l, x, w, r))[k := v]
  {
    assert k !in ToMap(l);
    MapUpdateInRight(ToMap(l), ToMap(r), x, w, k, v);
  }

  /** Inserting into the left subtree of a node with a larger key. */
  lemma InsertedLeftStep(l: Tree, x: char, w: int, r: Tree, l': Tree, k: char, v: int)
    requires BST(Node(l, x, w, r)) && k < x
    requires BST(l') && Keys(l') == Keys(l) + {k} && ToMap(l') == ToMap(l)[k := v]
    ensures BST(Node(l', x, w, r))
    ensures ToMap(Node(l', x, w, r)) == ToMap(Node(l, x, w, r))[k := v]
  {
    assert k !in ToMap(r);
    MapUpdateInLeft(ToMap(l), ToMap(r), x, w, k, v);
  }

  lemma MapUpdateTwice(m: map<char, int>, x: char, w: int, v: int)
    ensures m[x := w][x := v] == m[x := v]
  {
  }

  lemma MapUpdateInRight(ml: map<char, int>, mr: map<char, int>, x: char, w: int, k: char, v: int)
    requires k != x && k !in ml
    ensures (ml + mr[k := v])[x := w] == (ml + mr)[x := w][k := v]
  {
  }

  lemma MapUpdateInLeft(ml: map<char, int>, mr: map<char, int>, x: char, w: int, k: char, v: int)
    requires k != x && k !in mr
    ensures (ml[k := v] + mr)[x := w] == (ml + mr)[x := w][k := v]
  {
  }

  /** Inserts the items one after the other, as a sequence of `bst_insert` calls does. */
  function InsertAll(t: Tree, s: seq<Item>): Tree
    decreases |s|
  {
    if s == [] then t else InsertAll(Inserted(t, s[0].key, s[0].value), s[1..])
  }

  // ---------------------------------------------------------------------
  // Replacing a node by the rightmost node of a subtree
  // ---------------------------------------------------------------------

  /** Key and value of the rightmost node, reached by following right children. */
  function RightmostItem(t: Tree): Item
    requires t != Nil
  {
    if t.right == Nil then Item(t.key, t.value) else RightmostItem(t.right)
  }

  /** The left subtree of the rightmost node. */
  function RightmostLeft(t: Tree): Tree
    requires t != Nil
  {
    if t.right == Nil then t.left else RightmostLeft(t.right)
  }

  /** The frames from the root of `t` down the right spine to the rightmost node. */
  function RightSpine(t: Tree): seq<Frame>
    requires t != Nil
  {
    if t.right == Nil then [] else [WentRight(t.left, t.key, t.value)] + RightSpine(t.right)
  }

  /** As written: the rightmost node's slot becomes empty (its left subtree goes with it). */
  function CutRightmost(t: Tree): (r: Tree)
    requires t != Nil
    ensures Size(r) < Size(t)
  {
    if t.right == Nil then Nil else Node(t.left, t.key, t.value, CutRightmost(t.right))
  }

  /** Corrected: the rightmost node's left subtree is promoted into its slot. */
  function RemoveRightmost(t: Tree): (r: Tree)
    requires t != Nil
    ensures Size(r) < Size(t)
  {
    if t.right == Nil then t.left else Node(t.left, t.key, t.value, RemoveRightmost(t.right))
  }

  /** Only the rightmost slot changes: every node off the right spine stays where it was. */
  lemma {:induction false} RightmostSlot(t: Tree)
    requires t != Nil
    ensures forall i :: 0 <= i < |RightSpine(t)| ==> RightSpine(t)[i].WentRight?
    ensures t == Plug(RightSpine(t), Node(RightmostLeft(t), RightmostItem(t).key, RightmostItem(t).value, Nil))
    ensures CutRightmost(t) == Plug(RightSpine(t), Nil)
    ensures RemoveRightmost(t) == Plug(RightSpine(t), RightmostLeft(t))
  {
    if t.right != Nil {
      RightmostSlot(t.right);
    }
  }

  /** On a BST the rightmost node holds the greatest key. */
  lemma {:induction false} RightmostIsMax(t: Tree)
    requires t != Nil && BST(t)
    ensures RightmostItem(t).key in ToMap(t) && ToMap(t)[RightmostItem(t).key] == RightmostItem(t).value
    ensures forall x :: x in Keys(t) ==> x <= RightmostItem(t).key
    ensures Keys(RightmostLeft(t)) <= Keys(t) - {RightmostItem(t).key}
  {
    if t.right != Nil {
      RightmostIsMax(t.right);
    }
  }

  /**
   * What the as-written removal does: the ordered-key invariant survives, and the
   * map loses the rightmost key together with every key of the rightmost node's left subtree.
   */
  lemma {:induction false} CutRightmostContent(t: Tree)
    requires t != Nil && BST(t)
    ensures BST(CutRightmost(t))
    ensures Keys(CutRightmost(t)) <= Keys(t)
    ensures ToMap(CutRightmost(t)) == ToMap(t) - ({RightmostItem(t).key} + Keys(RightmostLeft(t)))
  {
    if t.right != Nil {
      CutRightmostContent(t.right);
      RightmostIsMax(t.right);
      var gone := {RightmostItem(t).key} + Keys(RightmostLeft(t));
      assert t.key !in gone;
      assert forall x :: x in gone ==> x !in Keys(t.left);
      MapDropRight(ToMap(t.left), ToMap(t.right), t.key, t.value, gone);
    }
  }

  /** Removing keys that only the right map holds commutes with the join of a node. */
  lemma MapDropRight(ml: map<char, int>, mr: map<char, int>, k: char, v: int, gone: set<char>)
    requires k !in gone && forall x :: x in gone ==> x !in ml
    ensures (ml + (mr - gone))[k := v] == (ml + mr)[k := v] - gone
  {
  }

  /** The as-written removal keeps every key exactly when the rightmost node has no left child. */
  lemma CutRightmostLeaf(t: Tree)
    requires t != Nil && BST(t) && RightmostLeft(t) == Nil
    ensures ToMap(CutRightmost(t)) == ToMap(t) - {RightmostItem(t).key}
  {
    CutRightmostContent(t);
  }

  /** The corrected removal loses only the rightmost key. */
  lemma {:induction false} RemoveRightmostContent(t: Tree)
    requires t != Nil && BST(t)
    ensures BST(RemoveRightmost(t))
    ensures Keys(RemoveRightmost(t)) <= Keys(t)
    ensures ToMap(RemoveRightmost(t)) == ToMap(t) - {RightmostItem(t).key}
  {
    if t.right != Nil {
      RemoveRightmostContent(t.right);
      RightmostIsMax(t.right);
      MapDropRight(ToMap(t.left), ToMap(t.right), t.key, t.value, {RightmostItem(t).key});
    } else {
      assert t.key !in Keys(t.left);
    }
  }

  // ---------------------------------------------------------------------
  // Deletion
  // ---------------------------------------------------------------------

  /**
   * The four child-shape cases applied to the node that holds the key (as written):
   * a leaf is removed, a one-child node is replaced by that child, and a two-child
   * node takes key and value of the rightmost node of its left subtree, whose slot
   * becomes empty.
   */
  function RemoveNode(s: Tree): (r: Tree)
    ensures s != Nil ==> Size(r) < Size(s)
  {
    match s
    case Nil => Nil
    case Node(l, x, w, rt) =>
      if l == Nil && rt == Nil then Nil
      else if l != Nil && rt != Nil then Node(CutRightmost(l), RightmostItem(l).key, RightmostItem(l).value, rt)
      else if rt != Nil then rt
      else l
  }

  /** Deletion as the recursive variant does it: descend by comparison, rewrite the node found. */
  function Deleted(t: Tree, k: char): Tree
  {
    match t
    case Nil => Nil
    case Node(l, x, w, r) =>
      if x == k then RemoveNode(t)
      else if x < k then Node(l, x, w, Deleted(r, k))
      else Node(Deleted(l, k), x, w, r)
  }

  /**
   * Deletion as the iterative variant does it: after rewriting the slot the loop
   * does not stop but examines the same slot again.
   */
  function DeletedIter(t: Tree, k: char): Tree
    decreases Size(t)
  {
    match t
    case Nil => Nil
    case Node(l, x, w, r) =>
      if x == k then DeletedIter(RemoveNode(t), k)
      else if x < k then Node(l, x, w, DeletedIter(r, k))
      else Node(DeletedIter(l, k), x, w, r)
  }

  /** Deletion rewrites exactly the slot where the descent stops, by the child-shape rule. */
  lemma {:induction false} DeletedRewritesSlot(t: Tree, k: char)
    ensures t == Plug(DescentPath(t, k), Reached(t, k))
    ensures Deleted(t, k) == Plug(DescentPath(t, k), RemoveNode(Reached(t, k)))
  {
    DescentSplits(t, k);
    match t
    case Nil =>
    case Node(l, x, w, r) =>
      if x < k {
        DeletedRewritesSlot(r, k);
      } else if k < x {
        DeletedRewritesSlot(l, k);
      }
  }

  /** Deleting a key the descent does not find changes nothing, in both variants. */
  lemma {:induction false} DeleteAbsentUnchanged(t: Tree, k: char)
    requires Find(t, k).None?
    ensures Deleted(t, k) == t
    ensures DeletedIter(t, k) == t
  {
    match t
    case Nil =>
    case Node(l, x, w, r) =>
      if x < k {
        DeleteAbsentUnchanged(r, k);
      } else {
        DeleteAbsentUnchanged(l, k);
      }
  }

  /** The keys the as-written removal drops besides `k`: the left subtree of the in-order predecessor. */
  function Dropped(s: Tree): set<char>
  {
    if s != Nil && s.left != Nil && s.right != Nil then Keys(RightmostLeft(s.left)) else {}
  }

  /** The in-order predecessor used for a two-child node has a left child of its own. */
  predicate PredecessorHasLeftChild(t: Tree, k: char)
  {
    var s := Reached(t, k);
    s != Nil && s.left != Nil && s.right != Nil && RightmostLeft(s.left) != Nil
  }

  lemma RemoveNodeContent(s: Tree)
    requires s != Nil && BST(s)
    ensures BST(RemoveNode(s))
    ensures Dropped(s) <= Keys(s) - {s.key}
    ensures ToMap(RemoveNode(s)) == ToMap(s) - ({s.key} + Dropped(s))
  {
    if s.left != Nil && s.right != Nil {
      TwoChildCase(s);
    } else {
      OnlyChildCase(s);
    }
  }

  /** A node with two children takes the predecessor's key and value; the as-written cut loses `Dropped(s)`. */
  lemma TwoChildCase(s: Tree)
    requires s != Nil && BST(s) && s.left != Nil && s.right != Nil
    ensures BST(RemoveNode(s))
    ensures Dropped(s) <= Keys(s) - {s.key}
    ensures ToMap(RemoveNode(s)) == ToMap(s) - ({s.key} + Dropped(s))
  {
    CutRightmostContent(s.left);
    RightmostIsMax(s.left);
    PromotePredecessor(s, CutRightmost(s.left), Keys(RightmostLeft(s.left)));
  }

  /** A node with two children takes the predecessor's key and value; the corrected removal loses nothing else. */
  lemma TwoChildCaseFixed(s: Tree)
    requires s != Nil && BST(s) && s.left != Nil && s.right != Nil
    ensures BST(RemoveNodeFixed(s))
    ensures ToMap(RemoveNodeFixed(s)) == ToMap(s) - {s.key}
  {
    RemoveRightmostContent(s.left);
    RightmostIsMax(s.left);
    var p := RightmostItem(s.left);
    assert {p.key} + {} == {p.key} && {s.key} + {} == {s.key};
    PromotePredecessor(s, RemoveRightmost(s.left), {});
    assert RemoveNodeFixed(s) == Node(RemoveRightmost(s.left), p.key, p.value, s.right);
  }

  /** A node with at most one child is replaced by that child (or by the empty tree). */
  lemma OnlyChildCase(s: Tree)
    requires s != Nil && BST(s) && (s.left == Nil || s.right == Nil)
    ensures BST(RemoveNode(s))
    ensures Dropped(s) <= Keys(s) - {s.key}
    ensures ToMap(RemoveNode(s)) == ToMap(s) - ({s.key} + Dropped(s))
  {
    assert Dropped(s) == {};
    assert {s.key} + {} == {s.key};
    assert ToMap(s) == (ToMap(s.left) + ToMap(s.right))[s.key := s.value];
    if s.right != Nil {
      assert RemoveNode(s) == s.right && s.key !in Keys(s.right);
      OnlyChildMap(s.right, s.key, s.value, ToMap(s.left));
    } else {
      assert RemoveNode(s) == s.left && s.key !in Keys(s.left);
      OnlyChildMap(s.left, s.key, s.value, ToMap(s.right));
    }
  }

  /**
   * The node `(k, v)` whose other child is empty holds exactly the child's map and `k`.
   * `empty` stands for `map[]`; as a parameter it keeps the map display out of the
   * solver's terms, where it made this step costly.
   */
  lemma OnlyChildMap(c: Tree, k: char, v: int, empty: map<char, int>)
    requires empty == map[] && k !in Keys(c)
    ensures (empty + ToMap(c))[k := v] - {k} == ToMap(c)
    ensures (ToMap(c) + empty)[k := v] - {k} == ToMap(c)
  {
    assert empty + ToMap(c) == ToMap(c);
    assert ToMap(c) + empty == ToMap(c);
    MapUpdateRemove(ToMap(c), k, v);
  }

  lemma MapUpdateRemove(m: map<char, int>, k: char, v: int)
    requires k !in m
    ensures m[k := v] - {k} == m
  {
  }

  /**
   * The two-child case, for either removal of the predecessor: if `rest` is the left
   * subtree without its rightmost key and the keys `lost`, the node that takes the
   * predecessor's key and value is a BST whose map lost the node's key and `lost`.
   */
  lemma PromotePredecessor(s: Tree, rest: Tree, lost: set<char>)
    requires s != Nil && s.left != Nil && BST(s)
    requires BST(rest) && Keys(rest) <= Keys(s.left)
    requires lost <= Keys(s.left) - {RightmostItem(s.left).key}
    requires ToMap(rest) == ToMap(s.left) - ({RightmostItem(s.left).key} + lost)
    ensures BST(Node(rest, RightmostItem(s.left).key, RightmostItem(s.left).value, s.right))
    ensures ToMap(Node(rest, RightmostItem(s.left).key, RightmostItem(s.left).value, s.right))
            == ToMap(s) - ({s.key} + lost)
  {
    var p := RightmostItem(s.left);
    RightmostIsMax(s.left);
    var ml, mr := ToMap(s.left), ToMap(s.right);
    assert p.key in Keys(s.left) && p.key < s.key;
    assert forall y :: y in Keys(rest) ==> y in ml && y != p.key;
    PromotedOrdered(rest, p.key, p.value, s.key, s.right, Keys(s.left));
    assert s.key !in ml && s.key !in mr && p.key !in mr;
    assert lost !! mr.Keys by {
      forall y | y in lost ensures y !in mr {
        assert y < s.key;
      }
    }
    MapPromote(ml, mr, s.key, s.value, p.key, p.value, lost);
  }

  /** The predecessor's key sits between what is left of the left subtree and the right subtree. */
  lemma PromotedOrdered(rest: Tree, pk: char, pv: int, x: char, right: Tree, left: set<char>)
    requires BST(rest) && BST(right) && pk < x
    requires forall y :: y in Keys(rest) ==> y in left && y != pk
    requires forall y :: y in left ==> y <= pk
    requires forall y :: y in Keys(right) ==> x < y
    ensures BST(Node(rest, pk, pv, right))
  {
  }

  /** The map identity behind the two-child case: the predecessor's entry moves up into the node. */
  lemma MapPromote(ml: map<char, int>, mr: map<char, int>, x: char, w: int, pk: char, pv: int, lost: set<char>)
    requires pk in ml && ml[pk] == pv && x !in ml && x !in mr && pk !in mr
    requires lost <= ml.Keys - {pk} && lost !! mr.Keys
    ensures ((ml - ({pk} + lost)) + mr)[pk := pv] == (ml + mr)[x := w] - ({x} + lost)
  {
    var a := ((ml - ({pk} + lost)) + mr)[pk := pv];
    var b := (ml + mr)[x := w] - ({x} + lost);
    assert a.Keys == b.Keys;
  }

  /**
   * As written, deletion keeps the ordered-key invariant, and the map loses `k`
   * and, in the two-child case, the left subtree of the in-order predecessor.
   */
  lemma {:induction false} DeletedContent(t: Tree, k: char)
    requires BST(t)
    ensures BST(Deleted(t, k))
    ensures Dropped(Reached(t, k)) <= Keys(t) - {k}
    ensures ToMap(Deleted(t, k)) == ToMap(t) - ({k} + Dropped(Reached(t, k)))
  {
    match t
    case Nil =>
    case Node(l, x, w, r) =>
      if x == k {
        RemoveNodeContent(t);
      } else if x < k {
        DeletedContent(r, k);
        DeletedRightStep(l, x, w, r, Deleted(r, k), k, Dropped(Reached(r, k)));
      } else {
        DeletedContent(l, k);
        DeletedLeftStep(l, x, w, r, Deleted(l, k), k, Dropped(Reached(l, k)));
      }
  }

  /** Deleting `k` from the right subtree of a node with a smaller key. */
  lemma DeletedRightStep(l: Tree, x: char, w: int, r: Tree, r': Tree, k: char, lost: set<char>)
    requires BST(Node(l, x, w, r)) && x < k
    requires BST(r') && lost <= Keys(r) - {k} && ToMap(r') == ToMap(r) - ({k} + lost)
    ensures BST(Node(l, x, w, r'))
    ensures lost <= Keys(Node(l, x, w, r)) - {k}
    ensures ToMap(Node(l, x, w, r')) == ToMap(Node(l, x, w, r)) - ({k} + lost)
  {
    assert Keys(r') <= Keys(r) by {
      forall y | y in Keys(r') ensures y in Keys(r) {
        assert y in ToMap(r');
      }
    }
    assert k !in ToMap(l);
    MapDropRight(ToMap(l), ToMap(r), x, w, {k} + lost);
  }

  /** Deleting `k` from the left subtree of a node with a larger key. */
  lemma DeletedLeftStep(l: Tree, x: char, w: int, r: Tree, l': Tree, k: char, lost: set<char>)
    requires BST(Node(l, x, w, r)) && k < x
    requires BST(l') && lost <= Keys(l) - {k} && ToMap(l') == ToMap(l) - ({k} + lost)
    ensures BST(Node(l', x, w, r))
    ensures lost <= Keys(Node(l, x, w, r)) - {k}
    ensures ToMap(Node(l', x, w, r)) == ToMap(Node(l, x, w, r)) - ({k} + lost)
  {
    assert Keys(l') <= Keys(l) by {
      forall y | y in Keys(l') ensures y in Keys(l) {
        assert y in ToMap(l');
      }
    }
    assert k !in ToMap(r);
    MapDropLeft(ToMap(l), ToMap(r), x, w, {k} + lost);
  }

  lemma MapDropLeft(ml: map<char, int>, mr: map<char, int>, k: char, v: int, gone: set<char>)
    requires k !in gone && forall x :: x in gone ==> x !in mr
    ensures ((ml - gone) + mr)[k := v] == (ml + mr)[k := v] - gone
  {
  }

  /** Deletion never adds a key and always removes `k`. */
  lemma DeletedKeysShrink(t: Tree, k: char)
    requires BST(t)
    ensures Keys(Deleted(t, k)) <= Keys(t) - {k}
  {
    DeletedContent(t, k);
  }

  /** The key set becomes exactly the old one without `k` if and only if the predecessor has no left child. */
  lemma DeletedKeysExact(t: Tree, k: char)
    requires BST(t)
    ensures Keys(Deleted(t, k)) == Keys(t) - {k} <==> !PredecessorHasLeftChild(t, k)
  {
    DeletedContent(t, k);
    var s := Reached(t, k);
    if PredecessorHasLeftChild(t, k) {
      var q := RightmostLeft(s.left);
      assert q.key in Dropped(s);
      assert q.key in Keys(t) - {k};
      assert q.key !in Keys(Deleted(t, k));
    }
  }

  lemma {:induction false} NotKeyNotFound(t: Tree, k: char)
    requires k !in Keys(t)
    ensures Find(t, k).None?
  {
    FindOnlyKeys(t, k);
  }

  /** On a BST the iterative loop's extra passes change nothing: both variants delete alike. */
  lemma {:induction false} DeletedIterOnBst(t: Tree, k: char)
    requires BST(t)
    ensures DeletedIter(t, k) == Deleted(t, k)
  {
    match t
    case Nil =>
    case Node(l, x, w, r) =>
      if x == k {
        RemoveNodeContent(t);
        assert k !in Keys(RemoveNode(t));
        NotKeyNotFound(RemoveNode(t), k);
        DeleteAbsentUnchanged(RemoveNode(t), k);
      } else if x < k {
        DeletedIterOnBst(r, k);
      } else {
        DeletedIterOnBst(l, k);
      }
  }

  /** Corrected child-shape rule: the two-child case promotes the predecessor's left subtree. */
  function RemoveNodeFixed(s: Tree): Tree
  {
    match s
    case Nil => Nil
    case Node(l, x, w, rt) =>
      if l == Nil && rt == Nil then Nil
      else if l != Nil && rt != Nil then Node(RemoveRightmost(l), RightmostItem(l).key, RightmostItem(l).value, rt)
      else if rt != Nil then rt
      else l
  }

  /** Corrected deletion. */
  function DeletedFixed(t: Tree, k: char): Tree
  {
    match t
    case Nil => Nil
    case Node(l, x, w, r) =>
      if x == k then RemoveNodeFixed(t)
      else if x < k then Node(l, x, w, DeletedFixed(r, k))
      else Node(DeletedFixed(l, k), x, w, r)
  }

  /** Corrected deletion removes exactly `k` from the map and keeps the ordered-key invariant. */
  lemma {:induction false} DeletedFixedContent(t: Tree, k: char)
    requires BST(t)
    ensures BST(DeletedFixed(t, k))
    ensures ToMap(DeletedFixed(t, k)) == ToMap(t) - {k}
  {
    match t
    case Nil =>
    case Node(l, x, w, r) =>
      if x == k {
        if l != Nil && r != Nil {
          TwoChildCaseFixed(t);
        } else {
          OnlyChildCase(t);
        }
      } else if x < k {
        DeletedFixedContent(r, k);
        assert {k} + {} == {k};
        DeletedRightStep(l, x, w, r, DeletedFixed(r, k), k, {});
      } else {
        DeletedFixedContent(l, k);
        assert {k} + {} == {k};
        DeletedLeftStep(l, x, w, r, DeletedFixed(l, k), k, {});
      }
  }
}
