/**
 * The recursive variant of the binary search tree. Each function that takes a
 * `bst_node_t **tree` slot returns the subtree the slot holds afterwards; the
 * caller's assignment of that subtree back into its own slot is the write
 * through the pointer. The items collector is a sequence that each traversal
 * extends.
 */
module BTreeRec {
  import opened Wrappers
  import opened BTree
  import opened BTreeUpdate

  /** `bst_init`: the tree becomes empty. */
  method Init() returns (tree: Tree)
    ensures tree == Nil && Keys(tree) == {} && ToMap(tree) == map[]
  {
    tree := Nil;
  }

  /**
   * `bst_search`: `prior` is the caller's `*value`. Found exactly when a node with
   * `key` lies on the comparison path; otherwise the out-value is left as it was.
   */
  method Search(tree: Tree, key: char, prior: int) returns (found: bool, value: int)
    ensures found <==> Find(tree, key).Some?
    ensures found ==> value == Find(tree, key).value
    ensures !found ==> value == prior
    ensures BST(tree) ==> (found <==> key in Keys(tree)) && (found ==> value == ToMap(tree)[key])
  {
    if BST(tree) {
      FindIsLookup(tree, key);
    }
    if tree == Nil {
      return false, prior;
    }
    if tree.key < key {
      found, value := Search(tree.right, key, prior);
    } else if tree.key > key {
      found, value := Search(tree.left, key, prior);
    } else {
      found, value := true, tree.value;
    }
  }

  /** `bst_insert`: an upsert by recursion on the slot; an empty slot gets a new leaf. */
  method Insert(tree: Tree, key: char, value: int) returns (r: Tree)
    ensures r == Inserted(tree, key, value)
    ensures Keys(r) == Keys(tree) + {key}
    ensures BST(tree) ==> BST(r) && ToMap(r) == ToMap(tree)[key := value]
  {
    if BST(tree) {
      InsertedContent(tree, key, value);
    }
    if tree == Nil {
      r := Node(Nil, key, value, Nil);
    } else if tree.key == key {
      r := tree.(value := value);
    } else if tree.key < key {
      var right := Insert(tree.right, key, value);
      r := tree.(right := right);
    } else {
      var left := Insert(tree.left, key, value);
      r := tree.(left := left);
    }
  }

  /**
   * `bst_replace_by_rightmost`: recurses into the right slot until it has no right
   * child, hands that node's key and value to the target and empties the slot.
   */
  method ReplaceByRightmost(tree: Tree) returns (key: char, value: int, rest: Tree)
    requires tree != Nil
    ensures Item(key, value) == RightmostItem(tree)
    ensures rest == CutRightmost(tree)
    ensures BST(tree) ==> && (forall x :: x in Keys(tree) ==> x <= key)
                          && ToMap(rest) == ToMap(tree) - ({key} + Keys(RightmostLeft(tree)))
  {
    if BST(tree) {
      RightmostIsMax(tree);
      CutRightmostContent(tree);
    }
    if tree.right != Nil {
      var right;
      key, value, right := ReplaceByRightmost(tree.right);
      rest := tree.(right := right);
    } else {
      key, value := tree.key, tree.value;
      rest := Nil;
    }
  }

  /** `bst_delete`: descends by comparison and rewrites the first node with `key`; then stops. */
  method Delete(tree: Tree, key: char) returns (r: Tree)
    ensures r == Deleted(tree, key)
    ensures Find(tree, key).None? ==> r == tree
    ensures BST(tree) ==> && BST(r)
                          && ToMap(r) == ToMap(tree) - ({key} + Dropped(Reached(tree, key)))
  {
    if Find(tree, key).None? {
      DeleteAbsentUnchanged(tree, key);
    }
    if BST(tree) {
      DeletedContent(tree, key);
    }
    if tree == Nil {
      return Nil;
    }
    if tree.key == key {
      if tree.right == Nil && tree.left == Nil {
        r := Nil;
      } else if tree.right != Nil && tree.left != Nil {
        var k, v, rest := ReplaceByRightmost(tree.left);
        r := Node(rest, k, v, tree.right);
      } else if tree.right != Nil {
        r := tree.right;
      } else {
        r := tree.left;
      }
    } else if tree.key < key {
      var right := Delete(tree.right, key);
      r := tree.(right := right);
    } else {
      var left := Delete(tree.left, key);
      r := tree.(left := left);
    }
  }

  /**
   * `bst_dispose`: disposes the left and the right subtree, then frees the node.
   * `released` lists the freed nodes in order: the recursion frees in postorder.
   */
  method Dispose(tree: Tree) returns (r: Tree, ghost released: seq<Item>)
    ensures r == Nil
    ensures released == PostorderOf(tree)
  {
    if tree == Nil {
      return Nil, [];
    }
    var left, right;
    ghost var leftReleased, rightReleased;
    left, leftReleased := Dispose(tree.left);
    right, rightReleased := Dispose(tree.right);
    released := leftReleased + rightReleased + [Item(tree.key, tree.value)];
    r := Nil;
  }

  /** `bst_preorder`: appends the node, then the left and the right subtree. */
  method Preorder(tree: Tree, items: seq<Item>) returns (out: seq<Item>)
    ensures out == items + PreorderOf(tree)
  {
    if tree == Nil {
      return items;
    }
    var it := [Item(tree.key, tree.value)];
    out := items + it;
    out := Preorder(tree.left, out);
    out := Preorder(tree.right, out);
    SeqAssoc(items + it, PreorderOf(tree.left), PreorderOf(tree.right));
    SeqAssoc(items, it, PreorderOf(tree.left) + PreorderOf(tree.right));
    SeqAssoc(it, PreorderOf(tree.left), PreorderOf(tree.right));
  }

  /** `bst_inorder`: appends the left subtree, the node, then the right subtree. */
  method Inorder(tree: Tree, items: seq<Item>) returns (out: seq<Item>)
    ensures out == items + InorderOf(tree)
  {
    if tree == Nil {
      return items;
    }
    var it := [Item(tree.key, tree.value)];
    out := Inorder(tree.left, items);
    out := out + it;
    out := Inorder(tree.right, out);
    SeqAssoc(items + InorderOf(tree.left), it, InorderOf(tree.right));
    SeqAssoc(items, InorderOf(tree.left), it + InorderOf(tree.right));
    SeqAssoc(InorderOf(tree.left), it, InorderOf(tree.right));
  }

  /** `bst_postorder`: appends the left and the right subtree, then the node. */
  method Postorder(tree: Tree, items: seq<Item>) returns (out: seq<Item>)
    ensures out == items + PostorderOf(tree)
  {
    if tree == Nil {
      return items;
    }
    var it := [Item(tree.key, tree.value)];
    out := Postorder(tree.left, items);
    out := Postorder(tree.right, out);
    out := out + it;
    SeqAssoc(items + PostorderOf(tree.left), PostorderOf(tree.right), it);
    SeqAssoc(items, PostorderOf(tree.left), PostorderOf(tree.right) + it);
    SeqAssoc(PostorderOf(tree.left), PostorderOf(tree.right), it);
  }
}
