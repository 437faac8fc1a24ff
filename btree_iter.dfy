/**
 * The iterative variant of the binary search tree. A `bst_node_t **node` slot
 * that walks down the tree is a context `ctx` (the frames above the slot) and
 * the subtree `node` the slot holds; writing the slot and leaving the loop
 * gives back the whole tree `Plug(ctx, node)`. The explicit stacks of stack.h
 * are sequences whose last element is the top.
 */
module BTreeIter {
  import opened Wrappers
  import opened BTree
  import opened BTreeUpdate

  /** `bst_init`: the tree becomes empty. */
  method Init() returns (tree: Tree)
    ensures tree == Nil && Keys(tree) == {} && ToMap(tree) == map[]
  {
    tree := Nil;
  }

  /**
   * `bst_search`: `prior` is the caller's `*value`. Found exactly when a node with
   * `key` lies on the comparison path; otherwise the out-value is left as it was.
   */
  method Search(tree: Tree, key: char, prior: int) returns (found: bool, value: int)
    ensures found <==> Find(tree, key).Some?
    ensures found ==> value == Find(tree, key).value
    ensures !found ==> value == prior
    ensures BST(tree) ==> (found <==> key in Keys(tree)) && (found ==> value == ToMap(tree)[key])
  {
    if BST(tree) {
      FindIsLookup(tree, key);
    }
    var node := tree;
    while node != Nil
      invariant Find(node, key) == Find(tree, key)
      decreases Size(node)
    {
      if node.key == key {
        return true, node.value;
      }
      if node.key < key {
        node := node.right;
      } else {
        node := node.left;
      }
    }
    return false, prior;
  }

  /** `bst_insert`: an upsert that walks the slot pointer down the comparison path. */
  method Insert(tree: Tree, key: char, value: int) returns (r: Tree)
    ensures r == Inserted(tree, key, value)
    ensures Keys(r) == Keys(tree) + {key}
    ensures BST(tree) ==> BST(r) && ToMap(r) == ToMap(tree)[key := value]
  {
    InsertedKeys(tree, key, value);
    if BST(tree) {
      InsertedContent(tree, key, value);
    }
    var ctx: seq<Frame> := [];
    var node := tree;
    while node != Nil
      invariant Plug(ctx, Inserted(node, key, value)) == Inserted(tree, key, value)
      decreases Size(node)
    {
      if node.key == key {
        r := Plug(ctx, node.(value := value));
        return;
      }
      var f := if node.key < key then WentRight(node.left, node.key, node.value)
               else WentLeft(node.key, node.value, node.right);
      var next := if node.key < key then node.right else node.left;
      PlugSnoc(ctx, f, Inserted(next, key, value));
      ctx, node := ctx + [f], next;
    }
    r := Plug(ctx, Node(Nil, key, value, Nil));
  }

  /**
   * `bst_replace_by_rightmost`: walks right to the rightmost slot. The target's new
   * key and value are returned in `key` and `value`; `rest` is the subtree with
   * the rightmost slot set to empty.
   */
  method ReplaceByRightmost(tree: Tree) returns (key: char, value: int, rest: Tree)
    requires tree != Nil
    ensures Item(key, value) == RightmostItem(tree)
    ensures rest == CutRightmost(tree)
    ensures BST(tree) ==> && (forall x :: x in Keys(tree) ==> x <= key)
                          && ToMap(rest) == ToMap(tree) - ({key} + Keys(RightmostLeft(tree)))
  {
    if BST(tree) {
      RightmostIsMax(tree);
      CutRightmostContent(tree);
    }
    var ctx: seq<Frame> := [];
    var node := tree;
    while node.right != Nil
      invariant node != Nil
      invariant RightmostItem(node) == RightmostItem(tree)
      invariant Plug(ctx, CutRightmost(node)) == CutRightmost(tree)
      decreases Size(node)
    {
      var f := WentRight(node.left, node.key, node.value);
      PlugSnoc(ctx, f, CutRightmost(node.right));
      ctx, node := ctx + [f], node.right;
    }
    key, value := node.key, node.value;
    rest := Plug(ctx, Nil);
  }

  /**
   * `bst_delete`: the loop does not stop after rewriting the slot, it examines the
   * same slot again until the slot is empty.
   */
  method Delete(tree: Tree, key: char) returns (r: Tree)
    ensures r == DeletedIter(tree, key)
    ensures Find(tree, key).None? ==> r == tree
    ensures BST(tree) ==> && r == Deleted(tree, key) && BST(r)
                          && ToMap(r) == ToMap(tree) - ({key} + Dropped(Reached(tree, key)))
  {
    if Find(tree, key).None? {
      DeleteAbsentUnchanged(tree, key);
    }
    if BST(tree) {
      DeletedIterOnBst(tree, key);
      DeletedContent(tree, key);
    }
    var ctx: seq<Frame> := [];
    var node := tree;
    while node != Nil
      invariant Plug(ctx, DeletedIter(node, key)) == DeletedIter(tree, key)
      decreases Size(node)
    {
      if node.key == key {
        if node.right == Nil && node.left == Nil {
          node := Nil;
        } else if node.right != Nil && node.left != Nil {
          var k, v, rest := ReplaceByRightmost(node.left);
          node := Node(rest, k, v, node.right);
        } else if node.right != Nil {
          node := node.right;
        } else {
          node := node.left;
        }
      } else {
        var f := if node.key < key then WentRight(node.left, node.key, node.value)
                 else WentLeft(node.key, node.value, node.right);
        var next := if node.key < key then node.right else node.left;
        PlugSnoc(ctx, f, DeletedIter(next, key));
        ctx, node := ctx + [f], next;
      }
    }
    r := Plug(ctx, Nil);
  }

  predicate NonNil(stack: seq<Tree>)
  {
    forall i :: 0 <= i < |stack| ==> stack[i] != Nil
  }

  /** The preorder of every tree on the stack, top first. */
  ghost function PreorderAll(stack: seq<Tree>): seq<Item>
  {
    if stack == [] then [] else PreorderOf(stack[|stack| - 1]) + PreorderAll(stack[..|stack| - 1])
  }

  lemma NonNilPop(stack: seq<Tree>)
    requires stack != [] && NonNil(stack)
    ensures stack[|stack| - 1] != Nil && NonNil(stack[..|stack| - 1])
  {
  }

  lemma NonNilPush(stack: seq<Tree>, t: Tree)
    requires NonNil(stack) && t != Nil
    ensures NonNil(stack + [t])
  {
  }

  /** The stack after `bst_dispose` pops `node` and pushes its right and then its left child. */
  function ChildrenPushed(below: seq<Tree>, node: Tree): seq<Tree>
    requires node != Nil
  {
    below + (if node.right != Nil then [node.right] else []) + (if node.left != Nil then [node.left] else [])
  }

  lemma PreorderAllPush(stack: seq<Tree>, t: Tree)
    ensures PreorderAll(stack + [t]) == PreorderOf(t) + PreorderAll(stack)
  {
    assert (stack + [t])[..|stack|] == stack;
  }

  /** One pass of the dispose loop: the popped node is owed first, then its children's preorders. */
  lemma DisposeStep(below: seq<Tree>, node: Tree)
    requires node != Nil
    ensures PreorderAll(below + [node]) == [Item(node.key, node.value)] + PreorderAll(ChildrenPushed(below, node))
    ensures NonNil(below) ==> NonNil(ChildrenPushed(below, node))
  {
    if NonNil(below) {
      var withRight := below + (if node.right != Nil then [node.right] else []);
      if node.right != Nil {
        NonNilPush(below, node.right);
      }
      if node.left != Nil {
        NonNilPush(withRight, node.left);
      }
    }
    PreorderAllPush(below, node);
    var it, pl, pr, pa := [Item(node.key, node.value)], PreorderOf(node.left), PreorderOf(node.right), PreorderAll(below);
    var withRight := below + (if node.right != Nil then [node.right] else []);
    if node.right != Nil {
      PreorderAllPush(below, node.right);
    } else {
      assert withRight == below;
      assert pr + pa == pa;
    }
    assert PreorderAll(withRight) == pr + pa;
    if node.left != Nil {
      PreorderAllPush(withRight, node.left);
    } else {
      assert ChildrenPushed(below, node) == withRight;
      assert pl + (pr + pa) == pr + pa;
    }
    assert PreorderAll(ChildrenPushed(below, node)) == pl + (pr + pa);
    assert PreorderOf(node) == it + pl + pr;
    SeqAssoc(it + pl, pr, pa);
    SeqAssoc(it, pl, pr + pa);
  }

  /**
   * `bst_dispose`: pops a node, pushes its right and then its left child and frees
   * it. `released` lists the freed nodes in order: the loop frees in preorder.
   */
  method Dispose(tree: Tree) returns (r: Tree, ghost released: seq<Item>)
    ensures r == Nil
    ensures released == PreorderOf(tree)
  {
    released := [];
    if tree == Nil {
      return Nil, released;
    }
    var stack := [tree];
    PreorderAllPush([], tree);
    while stack != []
      invariant NonNil(stack)
      invariant released + PreorderAll(stack) == PreorderOf(tree)
      decreases |PreorderAll(stack)|
    {
      ghost var below := stack[..|stack| - 1];
      var node := stack[|stack| - 1];
      assert node != Nil && stack == below + [node] by {
        SplitLast(stack);
        NonNilPop(stack);
      }
      ghost var owed := PreorderAll(stack);
      stack := stack[..|stack| - 1];
      if node.right != Nil {
        stack := stack + [node.right];
      }
      if node.left != Nil {
        stack := stack + [node.left];
      }
      assert stack == ChildrenPushed(below, node);
      ghost var it := [Item(node.key, node.value)];
      assert && NonNil(stack)
             && (released + it) + PreorderAll(stack) == PreorderOf(tree)
             && |PreorderAll(stack)| < |owed| by {
        NonNilPop(below + [node]);
        DisposeStep(below, node);
        SeqAssoc(released, it, PreorderAll(stack));
      }
      released := released + it;
    }
    r := Nil;
  }

  /** The nodes `bst_leftmost_*` pushes: the subtree's root and its left descendants, top last. */
  function LeftChain(t: Tree): (s: seq<Tree>)
    ensures NonNil(s)
  {
    match t
    case Nil => []
    case Node(l, _, _, _) => [t] + LeftChain(l)
  }

  /** Preorder output still owed for the stack: the right subtree of each node, top first. */
  ghost function PendingPre(stack: seq<Tree>): seq<Item>
  {
    if stack == [] then []
    else
      var top := stack[|stack| - 1];
      (if top.Node? then PreorderOf(top.right) else []) + PendingPre(stack[..|stack| - 1])
  }

  lemma PendingPrePush(stack: seq<Tree>, t: Tree)
    requires t != Nil
    ensures PendingPre(stack + [t]) == PreorderOf(t.right) + PendingPre(stack)
  {
    assert (stack + [t])[..|stack|] == stack;
  }

  /** One pass of `bst_leftmost_preorder`: pushing `node` and appending it keeps the owed output. */
  lemma LeftmostPreorderStep(items: seq<Item>, stack: seq<Tree>, node: Tree)
    requires node != Nil
    ensures (items + [Item(node.key, node.value)]) + PreorderOf(node.left) + PendingPre(stack + [node])
            == items + PreorderOf(node) + PendingPre(stack)
  {
    PendingPrePush(stack, node);
    var it, pl, pr, pp := [Item(node.key, node.value)], PreorderOf(node.left), PreorderOf(node.right), PendingPre(stack);
    assert PreorderOf(node) == it + pl + pr;
    calc {
      (items + it) + pl + (pr + pp);
      { SeqAssoc(items + it, pl, pr + pp); SeqAssoc(items, it, pl + (pr + pp)); }
      items + (it + (pl + (pr + pp)));
      { SeqAssoc(pl, pr, pp); SeqAssoc(it, pl + pr, pp); SeqAssoc(it, pl, pr); }
      items + ((it + pl + pr) + pp);
      { SeqAssoc(items, it + pl + pr, pp); }
      items + (it + pl + pr) + pp;
    }
  }

  lemma LeftChainStep(stack: seq<Tree>, node: Tree)
    requires node != Nil
    ensures (stack + [node]) + LeftChain(node.left) == stack + LeftChain(node)
  {
    SeqAssoc(stack, [node], LeftChain(node.left));
  }

  /** Popping `node` from the stack: its right subtree's preorder is what the popped entry owed. */
  lemma PreorderPop(out: seq<Item>, stack: seq<Tree>, node: Tree)
    requires node != Nil
    ensures out + PendingPre(stack + [node]) == out + PreorderOf(node.right) + PendingPre(stack)
    ensures node.right == Nil ==> PendingPre(stack + [node]) == PendingPre(stack)
    ensures |PendingPre(stack + [node])| == |PreorderOf(node.right)| + |PendingPre(stack)|
  {
    PendingPrePush(stack, node);
    SeqAssoc(out, PreorderOf(node.right), PendingPre(stack));
  }

  /** `bst_leftmost_preorder`: pushes the left chain and appends each node to the items as it is pushed. */
  method LeftmostPreorder(tree: Tree, stack: seq<Tree>, items: seq<Item>)
    returns (stack': seq<Tree>, items': seq<Item>)
    ensures stack' == stack + LeftChain(tree)
    ensures NonNil(stack) ==> NonNil(stack')
    ensures items' + PendingPre(stack') == items + PreorderOf(tree) + PendingPre(stack)
    ensures tree != Nil ==> |items'| > |items|
  {
    stack', items' := stack, items;
    var node := tree;
    while node != Nil
      invariant stack' + LeftChain(node) == stack + LeftChain(tree)
      invariant NonNil(stack) ==> NonNil(stack')
      invariant items' + PreorderOf(node) + PendingPre(stack') == items + PreorderOf(tree) + PendingPre(stack)
      invariant |items'| - |items| == |stack'| - |stack|
      decreases Size(node)
    {
      LeftChainStep(stack', node);
      if NonNil(stack) {
        NonNilPush(stack', node);
      }
      LeftmostPreorderStep(items', stack', node);
      stack', items' := stack' + [node], items' + [Item(node.key, node.value)];
      node := node.left;
    }
    SeqUnit(items');
  }

  /** `bst_preorder` with an explicit stack: appends the tree's nodes to `items` in node-left-right order. */
  method Preorder(tree: Tree, items: seq<Item>) returns (out: seq<Item>)
    ensures out == items + PreorderOf(tree)
  {
    var toVisit: seq<Tree>;
    toVisit, out := LeftmostPreorder(tree, [], items);
    while toVisit != []
      invariant NonNil(toVisit)
      invariant out + PendingPre(toVisit) == items + PreorderOf(tree)
      decreases |PendingPre(toVisit)|, |toVisit|
    {
      SplitLast(toVisit);
      NonNilPop(toVisit);
      var node := toVisit[|toVisit| - 1];
      toVisit := toVisit[..|toVisit| - 1];
      PreorderPop(out, toVisit, node);
      if node.right != Nil {
        toVisit, out := LeftmostPreorder(node.right, toVisit, out);
      }
    }
  }

  /** Inorder output still owed for the stack: each node, then its right subtree, top first. */
  ghost function PendingIn(stack: seq<Tree>): seq<Item>
  {
    if stack == [] then []
    else
      var top := stack[|stack| - 1];
      (if top.Node? then [Item(top.key, top.value)] + InorderOf(top.right) else []) + PendingIn(stack[..|stack| - 1])
  }

  lemma PendingInPush(stack: seq<Tree>, t: Tree)
    requires t != Nil
    ensures PendingIn(stack + [t]) == [Item(t.key, t.value)] + InorderOf(t.right) + PendingIn(stack)
  {
    assert (stack + [t])[..|stack|] == stack;
  }

  /** Pushing `node` in `bst_leftmost_inorder`: what is owed moves from the node to its left subtree. */
  lemma LeftmostInorderStep(stack: seq<Tree>, node: Tree)
    requires node != Nil
    ensures InorderOf(node.left) + PendingIn(stack + [node]) == InorderOf(node) + PendingIn(stack)
  {
    PendingInPush(stack, node);
    var it, il, ir, pp := [Item(node.key, node.value)], InorderOf(node.left), InorderOf(node.right), PendingIn(stack);
    assert InorderOf(node) == il + it + ir;
    calc {
      il + (it + ir + pp);
      { SeqAssoc(it, ir, pp); SeqAssoc(il, it, ir + pp); }
      (il + it) + (ir + pp);
      { SeqAssoc(il + it, ir, pp); }
      il + it + ir + pp;
    }
  }

  /** `bst_leftmost_inorder`: pushes the left chain of `tree`. */
  method LeftmostInorder(tree: Tree, stack: seq<Tree>) returns (stack': seq<Tree>)
    ensures stack' == stack + LeftChain(tree)
    ensures NonNil(stack) ==> NonNil(stack')
    ensures PendingIn(stack') == InorderOf(tree) + PendingIn(stack)
  {
    stack' := stack;
    var node := tree;
    while node != Nil
      invariant stack' + LeftChain(node) == stack + LeftChain(tree)
      invariant NonNil(stack) ==> NonNil(stack')
      invariant InorderOf(node) + PendingIn(stack') == InorderOf(tree) + PendingIn(stack)
      decreases Size(node)
    {
      LeftChainStep(stack', node);
      if NonNil(stack) {
        NonNilPush(stack', node);
      }
      LeftmostInorderStep(stack', node);
      stack' := stack' + [node];
      node := node.left;
    }
  }

  /** Popping `node`: the item it owed goes out first, then its right subtree is owed. */
  lemma InorderPop(out: seq<Item>, stack: seq<Tree>, node: Tree)
    requires node != Nil
    ensures out + PendingIn(stack + [node]) == (out + [Item(node.key, node.value)]) + (InorderOf(node.right) + PendingIn(stack))
    ensures node.right == Nil ==> PendingIn(stack + [node]) == [Item(node.key, node.value)] + PendingIn(stack)
    ensures |PendingIn(stack + [node])| == 1 + |InorderOf(node.right)| + |PendingIn(stack)|
  {
    PendingInPush(stack, node);
    var it, ir, pp := [Item(node.key, node.value)], InorderOf(node.right), PendingIn(stack);
    SeqAssoc(it, ir, pp);
    SeqAssoc(out, it, ir + pp);
  }

  /** `bst_inorder` with an explicit stack: appends the tree's nodes to `items` in left-node-right order. */
  method Inorder(tree: Tree, items: seq<Item>) returns (out: seq<Item>)
    ensures out == items + InorderOf(tree)
  {
    var toVisit := LeftmostInorder(tree, []);
    out := items;
    while toVisit != []
      invariant NonNil(toVisit)
      invariant out + PendingIn(toVisit) == items + InorderOf(tree)
      decreases |PendingIn(toVisit)|
    {
      SplitLast(toVisit);
      NonNilPop(toVisit);
      var node := toVisit[|toVisit| - 1];
      toVisit := toVisit[..|toVisit| - 1];
      InorderPop(out, toVisit, node);
      out := out + [Item(node.key, node.value)];
      if node.right != Nil {
        toVisit := LeftmostInorder(node.right, toVisit);
      }
    }
  }

  /** A run of `n` first-visit flags. */
  function Trues(n: nat): (r: seq<bool>)
    ensures |r| == n && forall i :: 0 <= i < n ==> r[i]
  {
    seq(n, _ => true)
  }

  lemma TruesSnoc(n: nat)
    ensures Trues(n) + [true] == Trues(n + 1)
  {
  }

  /**
   * Postorder output still owed for the two stacks: a node on its first visit still
   * owes its right subtree before itself; on its second visit only itself.
   */
  ghost function PendingPost(stack: seq<Tree>, first: seq<bool>): seq<Item>
    requires |stack| == |first|
  {
    if stack == [] then []
    else
      var top, n := stack[|stack| - 1], |stack| - 1;
      (if top.Node? then (if first[n] then PostorderOf(top.right) else []) + [Item(top.key, top.value)] else [])
      + PendingPost(stack[..n], first[..n])
  }

  /** Loop passes still to run: two per node not yet reached, one for a node waiting on its second visit. */
  ghost function Steps(stack: seq<Tree>, first: seq<bool>): nat
    requires |stack| == |first|
  {
    if stack == [] then 0
    else
      var top, n := stack[|stack| - 1], |stack| - 1;
      (if top.Node? && first[n] then 2 + 2 * Size(top.right) else 1) + Steps(stack[..n], first[..n])
  }

  lemma PendingPostPush(stack: seq<Tree>, first: seq<bool>, t: Tree, b: bool)
    requires |stack| == |first| && t != Nil
    ensures PendingPost(stack + [t], first + [b])
            == (if b then PostorderOf(t.right) else []) + [Item(t.key, t.value)] + PendingPost(stack, first)
  {
    assert (stack + [t])[..|stack|] == stack;
    assert (first + [b])[..|first|] == first;
  }

  lemma StepsPush(stack: seq<Tree>, first: seq<bool>, t: Tree, b: bool)
    requires |stack| == |first| && t != Nil
    ensures Steps(stack + [t], first + [b]) == (if b then 2 + 2 * Size(t.right) else 1) + Steps(stack, first)
  {
    assert (stack + [t])[..|stack|] == stack;
    assert (first + [b])[..|first|] == first;
  }

  /** Pushing `node` with a first-visit flag: what is owed moves from the node to its left subtree. */
  lemma LeftmostPostorderStep(stack: seq<Tree>, first: seq<bool>, node: Tree)
    requires |stack| == |first| && node != Nil
    ensures PostorderOf(node.left) + PendingPost(stack + [node], first + [true])
            == PostorderOf(node) + PendingPost(stack, first)
    ensures 2 * Size(node.left) + Steps(stack + [node], first + [true]) == 2 * Size(node) + Steps(stack, first)
  {
    PendingPostPush(stack, first, node, true);
    StepsPush(stack, first, node, true);
    var it, pl, pr, pp := [Item(node.key, node.value)], PostorderOf(node.left), PostorderOf(node.right), PendingPost(stack, first);
    assert PostorderOf(node) == pl + pr + it;
    calc {
      pl + (pr + it + pp);
      { SeqAssoc(pr, it, pp); SeqAssoc(pl, pr, it + pp); }
      (pl + pr) + (it + pp);
      { SeqAssoc(pl + pr, it, pp); }
      pl + pr + it + pp;
    }
  }

  /** `bst_leftmost_postorder`: pushes the left chain of `tree`, each node marked as a first visit. */
  method LeftmostPostorder(tree: Tree, stack: seq<Tree>, first: seq<bool>)
    returns (stack': seq<Tree>, first': seq<bool>)
    requires |stack| == |first|
    ensures stack' == stack + LeftChain(tree)
    ensures NonNil(stack) ==> NonNil(stack')
    ensures first' == first + Trues(|LeftChain(tree)|)
    ensures PendingPost(stack', first') == PostorderOf(tree) + PendingPost(stack, first)
    ensures Steps(stack', first') == 2 * Size(tree) + Steps(stack, first)
  {
    stack', first' := stack, first;
    var node := tree;
    while node != Nil
      invariant stack' + LeftChain(node) == stack + LeftChain(tree)
      invariant NonNil(stack) ==> NonNil(stack')
      invariant |stack| <= |stack'|
      invariant first' == first + Trues(|stack'| - |stack|)
      invariant PostorderOf(node) + PendingPost(stack', first') == PostorderOf(tree) + PendingPost(stack, first)
      invariant 2 * Size(node) + Steps(stack', first') == 2 * Size(tree) + Steps(stack, first)
      decreases Size(node)
    {
      LeftChainStep(stack', node);
      if NonNil(stack) {
        NonNilPush(stack', node);
      }
      LeftmostPostorderStep(stack', first', node);
      TruesSnoc(|stack'| - |stack|);
      SeqAssoc(first, Trues(|stack'| - |stack|), [true]);
      first' := first' + [true];
      stack' := stack' + [node];
      node := node.left;
    }
  }

  /** The first visit of `node`: its flag turns false and its right subtree comes to be owed first. */
  lemma PostorderFlip(stack: seq<Tree>, first: seq<bool>, node: Tree)
    requires |stack| == |first| && node != Nil
    ensures PendingPost(stack + [node], first + [true])
            == PostorderOf(node.right) + PendingPost(stack + [node], first + [false])
    ensures Steps(stack + [node], first + [true]) == 1 + 2 * Size(node.right) + Steps(stack + [node], first + [false])
  {
    var pr, it, pp := PostorderOf(node.right), [Item(node.key, node.value)], PendingPost(stack, first);
    PendingPostPush(stack, first, node, true);
    assert PendingPost(stack + [node], first + [true]) == pr + it + pp;
    PendingPostPush(stack, first, node, false);
    assert PendingPost(stack + [node], first + [false]) == [] + it + pp;
    assert [] + it == it;
    SeqAssoc(pr, it, pp);
    StepsPush(stack, first, node, true);
    StepsPush(stack, first, node, false);
  }

  /** The second visit of `node`: it goes out and leaves the stacks. */
  lemma PostorderEmit(out: seq<Item>, stack: seq<Tree>, first: seq<bool>, node: Tree)
    requires |stack| == |first| && node != Nil
    ensures out + PendingPost(stack + [node], first + [false])
            == (out + [Item(node.key, node.value)]) + PendingPost(stack, first)
    ensures Steps(stack + [node], first + [false]) == 1 + Steps(stack, first)
  {
    var it, pp := [Item(node.key, node.value)], PendingPost(stack, first);
    PendingPostPush(stack, first, node, false);
    assert PendingPost(stack + [node], first + [false]) == [] + it + pp;
    assert [] + it == it;
    SeqAssoc(out, it, pp);
    StepsPush(stack, first, node, false);
  }

  /** `bst_postorder` with a node stack and a first-visit stack: appends in left-right-node order. */
  method Postorder(tree: Tree, items: seq<Item>) returns (out: seq<Item>)
    ensures out == items + PostorderOf(tree)
  {
    var toVisit, first := LeftmostPostorder(tree, [], []);
    out := items;
    while toVisit != []
      invariant |toVisit| == |first|
      invariant NonNil(toVisit)
      invariant out + PendingPost(toVisit, first) == items + PostorderOf(tree)
      decreases Steps(toVisit, first)
    {
      var node := toVisit[|toVisit| - 1];
      ghost var below := toVisit[..|toVisit| - 1];
      SplitLast(toVisit);
      SplitLast(first);
      NonNilPop(toVisit);
      var firstVisit := first[|first| - 1];
      first := first[..|first| - 1];
      if firstVisit {
        PostorderFlip(below, first, node);
        first := first + [false];
        SeqAssoc(out, PostorderOf(node.right), PendingPost(toVisit, first));
        toVisit, first := LeftmostPostorder(node.right, toVisit, first);
      } else {
        PostorderEmit(out, below, first, node);
        out := out + [Item(node.key, node.value)];
        toVisit := toVisit[..|toVisit| - 1];
      }
    }
  }
}
