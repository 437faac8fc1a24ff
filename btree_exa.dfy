/**
 * The two applications built on the tree: counting character classes of a
 * NUL-terminated string, and rebuilding a tree into a height-balanced one by
 * inserting the middle of its in-order sequence first. Both drive the tree
 * through the iterative variant's operations.
 */
module BTreeExa {
  import opened Wrappers
  import opened BTree
  import opened BTreeUpdate
  import BTreeIter

  // ---------------------------------------------------------------------
  // Character classes
  // ---------------------------------------------------------------------

  /** `is_alpha`: an ASCII letter of either case. */
  predicate IsAlpha(c: char)
  {
    ('a' <= c <= 'z') || ('A' <= c <= 'Z')
  }

  /** `to_lower`: an upper-case ASCII letter becomes its lower-case letter, anything else is kept. */
  function ToLower(c: char): char
  {
    if 'A' <= c <= 'Z' then (c as int - 'A' as int + 'a' as int) as char else c
  }

  /** The keys the counter can produce: lower-case letters, the space and the catch-all '_'. */
  predicate IsClass(c: char)
  {
    ('a' <= c <= 'z') || c == ' ' || c == '_'
  }

  /** The class `letter_count` files a character under. */
  function Normalize(c: char): char
  {
    var l := ToLower(c);
    if !IsAlpha(l) && l != ' ' then '_' else l
  }

  /** Lower-casing keeps letters letters, lands in 'a'..'z' exactly on letters, and is idempotent. */
  lemma ToLowerFacts(c: char)
    ensures IsAlpha(ToLower(c)) <==> IsAlpha(c)
    ensures ('a' <= ToLower(c) <= 'z') <==> IsAlpha(c)
    ensures !('A' <= c <= 'Z') ==> ToLower(c) == c
    ensures 'A' <= c <= 'Z' ==> ToLower(c) as int - 'a' as int == c as int - 'A' as int
    ensures ToLower(ToLower(c)) == ToLower(c)
  {
  }

  /** Every character lands in a class; letters by their lower case, the space as itself, the rest as '_'. */
  lemma NormalizeFacts(c: char)
    ensures IsClass(Normalize(c))
    ensures IsAlpha(c) ==> Normalize(c) == ToLower(c)
    ensures c == ' ' ==> Normalize(c) == ' '
    ensures !IsAlpha(c) && c != ' ' ==> Normalize(c) == '_'
  {
    ToLowerFacts(c);
  }

  // ---------------------------------------------------------------------
  // letter_count
  // ---------------------------------------------------------------------

  /** Index of the terminating NUL, or the length when there is none. */
  function NulIndex(s: seq<char>): (n: nat)
    ensures n <= |s|
    ensures forall j :: 0 <= j < n ==> s[j] != '\0'
    ensures n < |s| ==> s[n] == '\0'
  {
    if s == [] || s[0] == '\0' then 0 else 1 + NulIndex(s[1..])
  }

  /** How many characters of `s` fall in class `c`. */
  function Occurrences(s: seq<char>, c: char): nat
  {
    if s == [] then 0
    else Occurrences(s[..|s| - 1], c) + (if Normalize(s[|s| - 1]) == c then 1 else 0)
  }

  /** The counts as the loop accumulates them: read, add one, write back, character by character. */
  function Counts(s: seq<char>): map<char, int>
  {
    if s == [] then map[]
    else
      var m, c := Counts(s[..|s| - 1]), Normalize(s[|s| - 1]);
      m[c := (if c in m then m[c] else 0) + 1]
  }

  /** The accumulated counts are the number of occurrences of each class, and only classes occur. */
  lemma {:induction false} CountsAreOccurrences(s: seq<char>)
    ensures forall c :: c in Counts(s) <==> Occurrences(s, c) > 0
    ensures forall c :: c in Counts(s) ==> Counts(s)[c] == Occurrences(s, c)
    ensures forall c :: c in Counts(s) ==> IsClass(c)
  {
    if s != [] {
      CountsAreOccurrences(s[..|s| - 1]);
      NormalizeFacts(s[|s| - 1]);
    }
  }

  /** Sum of the values stored in the tree. */
  function TreeSum(t: Tree): int
  {
    match t
    case Nil => 0
    case Node(l, _, v, r) => TreeSum(l) + v + TreeSum(r)
  }

  /** An upsert changes the sum by the new value minus the value it overwrites, if any. */
  lemma {:induction false} InsertedSum(t: Tree, k: char, v: int)
    ensures TreeSum(Inserted(t, k, v)) == TreeSum(t) + v - (if Find(t, k).Some? then Find(t, k).value else 0)
  {
    match t
    case Nil =>
    case Node(l, x, w, r) =>
      if x < k {
        InsertedSum(r, k, v);
      } else if k < x {
        InsertedSum(l, k, v);
      }
  }

  /** Scanning past a non-NUL character stays within the string's NUL index. */
  lemma NulIndexStep(s: seq<char>, i: nat)
    requires i <= NulIndex(s) && i < |s| && s[i] != '\0'
    ensures i + 1 <= NulIndex(s)
  {
  }

  /** A scan that stops at a NUL or at the end without passing the NUL index has reached it. */
  lemma NulIndexExit(s: seq<char>, i: nat)
    requires i <= NulIndex(s) && !(i < |s| && s[i] != '\0')
    ensures i == NulIndex(s)
  {
  }

  lemma CountsStep(input: seq<char>, i: nat)
    requires i < |input|
    ensures Counts(input[..i + 1]) ==
            var m, c := Counts(input[..i]), Normalize(input[i]);
            m[c := (if c in m then m[c] else 0) + 1]
  {
    assert input[..i + 1][..i] == input[..i];
  }

  /**
   * `letter_count`: starts from an empty tree and, for each character before the
   * terminating NUL, searches its class with a default of 0 and inserts the count
   * plus one.
   */
  method LetterCount(input: seq<char>) returns (tree: Tree)
    ensures BST(tree)
    ensures ToMap(tree) == Counts(input[..NulIndex(input)])
    ensures forall c :: c in Keys(tree) ==> IsClass(c)
    ensures forall c :: c in Keys(tree) <==> Occurrences(input[..NulIndex(input)], c) > 0
    ensures forall c :: c in Keys(tree) ==> ToMap(tree)[c] == Occurrences(input[..NulIndex(input)], c)
    ensures TreeSum(tree) == NulIndex(input)
  {
    tree := BTreeIter.Init();
    var i := 0;
    while i < |input| && input[i] != '\0'
      invariant i <= NulIndex(input)
      invariant BST(tree) && ToMap(tree) == Counts(input[..i])
      invariant TreeSum(tree) == i
    {
      NulIndexStep(input, i);
      var current := ToLower(input[i]);
      if !IsAlpha(current) && current != ' ' {
        current := '_';
      }
      assert current == Normalize(input[i]);
      var found, value := BTreeIter.Search(tree, current, 0);
      value := value + 1;
      InsertedSum(tree, current, value);
      FindIsLookup(tree, current);
      tree := BTreeIter.Insert(tree, current, value);
      CountsStep(input, i);
      i := i + 1;
    }
    NulIndexExit(input, i);
    CountsAreOccurrences(input[..i]);
  }

  // ---------------------------------------------------------------------
  // balance and bst_balance
  // ---------------------------------------------------------------------

  /** Half of `n`, rounded down, counted off two at a time. */
  function Half(n: nat): (h: nat)
    ensures 2 * h <= n < 2 * h + 2
  {
    if n < 2 then 0 else 1 + Half(n - 2)
  }

  /** The center `balance` picks for `[start, end)`: half the length past `start` (see `MidHalves`). */
  function Mid(start: int, end: int): (c: int)
    requires 0 <= start < end
    ensures start <= c < end
  {
    start + Half(end - start)
  }

  /**
   * The center is C's `(start + end) / 2`, which truncates like Dafny's `/` here
   * since the sum is not negative; the lower half holds `n / 2` of the `n` items,
   * the upper half the rest but the center.
   */
  lemma MidHalves(start: int, end: int)
    requires 0 <= start < end
    ensures Mid(start, end) == (start + end) / 2
    ensures Mid(start, end) - start == (end - start) / 2
    ensures end - (Mid(start, end) + 1) == (end - start - 1) / 2
  {
  }

  /** The order in which `balance` inserts the items of `[start, end)`: the middle one, then each half. */
  function Order(items: seq<Item>, start: int, end: int): seq<Item>
    requires start < end ==> 0 <= start && end <= |items|
    decreases end - start
  {
    if start >= end then []
    else
      var center := Mid(start, end);
      [items[center]] + Order(items, start, center) + Order(items, center + 1, end)
  }

  lemma OrderUnfold(items: seq<Item>, start: int, end: int)
    requires 0 <= start < end <= |items|
    ensures Order(items, start, end)
            == [items[Mid(start, end)]] + Order(items, start, Mid(start, end)) + Order(items, Mid(start, end) + 1, end)
  {
  }

  /** Every item of the range is inserted exactly once. */
  lemma OrderIsPermutation(items: seq<Item>, start: int, end: int)
    requires 0 <= start <= end <= |items|
    ensures multiset(Order(items, start, end)) == multiset(items[start..end])
  {
    OrderPermutes(items, start, end, Order(items, start, end));
  }

  /** `OrderIsPermutation` with the order named `o`, so that the induction compares like with like. */
  lemma {:induction false} OrderPermutes(items: seq<Item>, start: int, end: int, o: seq<Item>)
    requires 0 <= start <= end <= |items| && o == Order(items, start, end)
    ensures multiset(o) == multiset(items[start..end])
    decreases end - start
  {
    if start < end {
      var center := Mid(start, end);
      var left, right := Order(items, start, center), Order(items, center + 1, end);
      OrderPermutes(items, start, center, left);
      OrderPermutes(items, center + 1, end, right);
      OrderPermutesStep(items, start, center, end, o, left, right);
    } else {
      assert items[start..end] == [];
    }
  }

  /** The inductive step of `OrderPermutes`: the center first, then the halves, is the range rearranged. */
  lemma OrderPermutesStep(items: seq<Item>, start: int, center: int, end: int, o: seq<Item>, left: seq<Item>, right: seq<Item>)
    requires 0 <= start < end <= |items| && center == Mid(start, end)
    requires o == Order(items, start, end) && left == Order(items, start, center) && right == Order(items, center + 1, end)
    requires multiset(left) == multiset(items[start..center]) && multiset(right) == multiset(items[center + 1..end])
    ensures multiset(o) == multiset(items[start..end])
  {
    OrderUnfold(items, start, end);
    SliceAround(items, start, center, end);
    MultisetAround([items[center]], left, right, items[start..center], items[center + 1..end], o, items[start..end]);
  }

  /** Putting the center first instead of between its halves keeps the multiset. */
  lemma MultisetAround(x: seq<Item>, a: seq<Item>, b: seq<Item>, a': seq<Item>, b': seq<Item>, o: seq<Item>, s: seq<Item>)
    requires o == x + a + b && s == a' + x + b'
    requires multiset(a) == multiset(a') && multiset(b) == multiset(b')
    ensures multiset(o) == multiset(s)
  {
    calc {
      multiset(x + a + b);
      multiset(x) + multiset(a) + multiset(b);
      multiset(a') + multiset(x) + multiset(b');
      multiset(a' + x + b');
    }
  }

  /** A range splits around any index inside it. */
  lemma SliceAround(s: seq<Item>, a: int, c: int, b: int)
    requires 0 <= a <= c < b <= |s|
    ensures s[a..b] == s[a..c] + [s[c]] + s[c + 1..b]
  {
    assert s[a..b] == s[a..c] + s[c..b];
    assert s[c..b] == [s[c]] + s[c + 1..b];
  }

  /** The tree of the middle item over the two recursively built halves. */
  function Build(items: seq<Item>, start: int, end: int): Tree
    requires start < end ==> 0 <= start && end <= |items|
    decreases end - start
  {
    if start >= end then Nil
    else
      var center := Mid(start, end);
      Node(Build(items, start, center), items[center].key, items[center].value, Build(items, center + 1, end))
  }

  lemma BuildUnfold(items: seq<Item>, start: int, end: int)
    requires 0 <= start < end <= |items|
    ensures Build(items, start, end)
            == Node(Build(items, start, Mid(start, end)), items[Mid(start, end)].key, items[Mid(start, end)].value,
                    Build(items, Mid(start, end) + 1, end))
  {
  }

  /** `balance`: inserts `items[center]` into the shared tree, then balances each half into it. */
  method Balance(tree: Tree, items: seq<Item>, start: int, end: int) returns (r: Tree)
    requires start < end ==> 0 <= start && end <= |items|
    ensures r == InsertAll(tree, Order(items, start, end))
    ensures tree == Nil && Increasing(items) && 0 <= start <= end <= |items| ==> r == Build(items, start, end)
    decreases end - start
  {
    if tree == Nil && Increasing(items) && 0 <= start <= end <= |items| {
      BuildByInsertion(items, start, end);
    }
    if start >= end {
      return tree;
    }
    var center := (start + end) / 2;
    MidHalves(start, end);
    r := BTreeIter.Insert(tree, items[center].key, items[center].value);
    r := Balance(r, items, start, center);
    r := Balance(r, items, center + 1, end);
    InsertAllOrder(tree, items, start, end);
  }

  /** Inserting in `balance` order: the center first, then the lower half's order, then the upper half's. */
  lemma InsertAllOrder(tree: Tree, items: seq<Item>, start: int, end: int)
    requires 0 <= start < end <= |items|
    ensures var c := Mid(start, end);
            InsertAll(tree, Order(items, start, end))
            == InsertAll(InsertAll(Inserted(tree, items[c].key, items[c].value), Order(items, start, c)), Order(items, c + 1, end))
  {
    var c := Mid(start, end);
    var x, a, b := [items[c]], Order(items, start, c), Order(items, c + 1, end);
    assert InsertAll(tree, x) == Inserted(tree, items[c].key, items[c].value) by {
      assert x[1..] == [];
    }
    assert Order(items, start, end) == x + a + b by {
      OrderUnfold(items, start, end);
    }
    calc {
      InsertAll(tree, Order(items, start, end));
      InsertAll(tree, x + a + b);
      { InsertAllConcat(tree, x + a, b); }
      InsertAll(InsertAll(tree, x + a), b);
      { InsertAllConcat(tree, x, a); }
      InsertAll(InsertAll(InsertAll(tree, x), a), b);
    }
  }

  lemma {:induction false} InsertAllConcat(t: Tree, a: seq<Item>, b: seq<Item>)
    ensures InsertAll(t, a + b) == InsertAll(InsertAll(t, a), b)
    decreases |a|
  {
    if a == [] {
      assert a + b == b;
    } else {
      assert (a + b)[0] == a[0] && (a + b)[1..] == a[1..] + b;
      InsertAllConcat(Inserted(t, a[0].key, a[0].value), a[1..], b);
    }
  }

  /** Items all smaller than a node's key all go into its left subtree. */
  lemma {:induction false} InsertAllLeft(l: Tree, x: char, w: int, r: Tree, a: seq<Item>)
    requires forall i :: 0 <= i < |a| ==> a[i].key < x
    ensures InsertAll(Node(l, x, w, r), a) == Node(InsertAll(l, a), x, w, r)
    decreases |a|
  {
    if a != [] {
      InsertAllLeft(Inserted(l, a[0].key, a[0].value), x, w, r, a[1..]);
    }
  }

  /** Items all greater than a node's key all go into its right subtree. */
  lemma {:induction false} InsertAllRight(l: Tree, x: char, w: int, r: Tree, a: seq<Item>)
    requires forall i :: 0 <= i < |a| ==> x < a[i].key
    ensures InsertAll(Node(l, x, w, r), a) == Node(l, x, w, InsertAll(r, a))
    decreases |a|
  {
    if a != [] {
      InsertAllRight(l, x, w, Inserted(r, a[0].key, a[0].value), a[1..]);
    }
  }

  /** The items `Order` yields for a range lie in that range. */
  lemma OrderWithin(items: seq<Item>, start: int, end: int)
    requires 0 <= start <= end <= |items|
    ensures forall y :: y in Order(items, start, end) ==> y in items[start..end]
  {
    OrderIsPermutation(items, start, end);
    forall y | y in Order(items, start, end) ensures y in items[start..end] {
      assert y in multiset(Order(items, start, end));
    }
  }

  /** Of increasing items, `a` (the order of `[start, c)`) lies below `items[c]` and `b` (of `[c + 1, end)`) above. */
  lemma AroundPivot(items: seq<Item>, start: int, c: int, end: int, a: seq<Item>, b: seq<Item>)
    requires Increasing(items) && 0 <= start <= c < end <= |items|
    requires a == Order(items, start, c) && b == Order(items, c + 1, end)
    ensures forall i :: 0 <= i < |a| ==> a[i].key < items[c].key
    ensures forall i :: 0 <= i < |b| ==> items[c].key < b[i].key
  {
    OrderWithin(items, start, c);
    OrderWithin(items, c + 1, end);
    forall i | 0 <= i < |a| ensures a[i].key < items[c].key {
      assert a[i] in items[start..c];
      var k :| 0 <= k < c - start && items[start..c][k] == a[i];
      assert items[start + k] == a[i];
    }
    forall i | 0 <= i < |b| ensures items[c].key < b[i].key {
      assert b[i] in items[c + 1..end];
      var k :| 0 <= k < end - (c + 1) && items[c + 1..end][k] == b[i];
      assert items[c + 1 + k] == b[i];
    }
  }

  /** Inserting increasing items in `balance` order into an empty tree builds the midpoint tree. */
  lemma {:induction false} BuildByInsertion(items: seq<Item>, start: int, end: int)
    requires Increasing(items) && 0 <= start <= end <= |items|
    ensures InsertAll(Nil, Order(items, start, end)) == Build(items, start, end)
    decreases end - start
  {
    if start < end {
      var center := Mid(start, end);
      AroundPivot(items, start, center, end, Order(items, start, center), Order(items, center + 1, end));
      BuildByInsertion(items, start, center);
      BuildByInsertion(items, center + 1, end);
      BuildByInsertionStep(items, start, end);
    } else {
      assert Order(items, start, end) == [];
    }
  }

  /** One level of `BuildByInsertion`: the halves' insertions build the halves, and their items lie on either side of the center. */
  lemma BuildByInsertionStep(items: seq<Item>, start: int, end: int)
    requires 0 <= start < end <= |items|
    requires var c, a := Mid(start, end), Order(items, start, Mid(start, end));
             forall i :: 0 <= i < |a| ==> a[i].key < items[c].key
    requires var c, b := Mid(start, end), Order(items, Mid(start, end) + 1, end);
             forall i :: 0 <= i < |b| ==> items[c].key < b[i].key
    requires InsertAll(Nil, Order(items, start, Mid(start, end))) == Build(items, start, Mid(start, end))
    requires InsertAll(Nil, Order(items, Mid(start, end) + 1, end)) == Build(items, Mid(start, end) + 1, end)
    ensures InsertAll(Nil, Order(items, start, end)) == Build(items, start, end)
  {
    var center := Mid(start, end);
    var p, a, b := items[center], Order(items, start, center), Order(items, center + 1, end);
    InsertAllOrder(Nil, items, start, end);
    BuildUnfold(items, start, end);
    PivotFirst(p.key, p.value, a, b, Build(items, start, center), Build(items, center + 1, end));
  }

  /** Into an empty tree, a pivot followed by smaller and then larger items builds the pivot over the two insertions. */
  lemma PivotFirst(key: char, value: int, a: seq<Item>, b: seq<Item>, left: Tree, right: Tree)
    requires forall i :: 0 <= i < |a| ==> a[i].key < key
    requires forall i :: 0 <= i < |b| ==> key < b[i].key
    requires InsertAll(Nil, a) == left && InsertAll(Nil, b) == right
    ensures InsertAll(InsertAll(Inserted(Nil, key, value), a), b) == Node(left, key, value, right)
  {
    calc {
      InsertAll(InsertAll(Inserted(Nil, key, value), a), b);
      InsertAll(InsertAll(Node(Nil, key, value, Nil), a), b);
      { InsertAllLeft(Nil, key, value, Nil, a); }
      InsertAll(Node(left, key, value, Nil), b);
      { InsertAllRight(left, key, value, Nil, b); }
      Node(left, key, value, right);
    }
  }

  /** The midpoint tree lists exactly the range in order. */
  lemma {:induction false} BuildInorder(items: seq<Item>, start: int, end: int)
    requires 0 <= start <= end <= |items|
    ensures InorderOf(Build(items, start, end)) == items[start..end]
    decreases end - start
  {
    if start < end {
      var center := Mid(start, end);
      var left, right := Build(items, start, center), Build(items, center + 1, end);
      var p := items[center];
      var x := [p];
      calc {
        InorderOf(Build(items, start, end));
        { BuildUnfold(items, start, end); }
        InorderOf(Node(left, p.key, p.value, right));
        { assert Item(p.key, p.value) == p; }
        InorderOf(left) + x + InorderOf(right);
        { BuildInorder(items, start, center); BuildInorder(items, center + 1, end); }
        items[start..center] + x + items[center + 1..end];
        { SliceAround(items, start, center, end); }
        items[start..end];
      }
    } else {
      assert items[start..end] == [];
    }
  }

  /** Height of a midpoint tree over `n` items: the larger half has `n / 2` items. */
  function H(n: nat): nat
  {
    if n == 0 then 0 else 1 + H(n / 2)
  }

  lemma {:induction false} HMonotone(a: nat, b: nat)
    requires a <= b
    ensures H(a) <= H(b)
  {
    if a > 0 {
      HMonotone(a / 2, b / 2);
    }
  }

  lemma {:induction false} HStep(m: nat)
    ensures H(m + 1) <= H(m) + 1
  {
    if m > 0 {
      if (m + 1) / 2 == m / 2 {
      } else {
        HStep(m / 2);
      }
    }
  }

  function Pow2(h: nat): (p: nat)
    ensures p >= 1
  {
    if h == 0 then 1 else 2 * Pow2(h - 1)
  }

  lemma {:induction false} Pow2Monotone(a: nat, b: nat)
    requires a <= b
    ensures Pow2(a) <= Pow2(b)
  {
    if a < b {
      Pow2Monotone(a, b - 1);
    }
  }

  /** A tree of height `h` holds fewer than `2^h` nodes. */
  lemma {:induction false} SizeBelowPow2(t: Tree)
    ensures Size(t) < Pow2(Height(t))
  {
    match t
    case Nil =>
    case Node(l, _, _, r) =>
      SizeBelowPow2(l);
      SizeBelowPow2(r);
      Pow2Monotone(Height(l), Height(t) - 1);
      Pow2Monotone(Height(r), Height(t) - 1);
  }

  /** Fewer than `2^h` items give a midpoint height of at most `h`. */
  lemma {:induction false} HBelow(n: nat, h: nat)
    requires n < Pow2(h)
    ensures H(n) <= h
  {
    if n > 0 {
      HBelow(n / 2, h - 1);
    }
  }

  /** No tree is shorter than the midpoint tree over as many items. */
  lemma MinimalHeight(t: Tree)
    ensures H(Size(t)) <= Height(t)
  {
    SizeBelowPow2(t);
    HBelow(Size(t), Height(t));
  }

  /** The halves of `n > 0` items the midpoint split makes differ in height by at most one, and the larger sets the height. */
  lemma HalvesBalanced(n: nat, m: nat, k: nat)
    requires n > 0 && m == n / 2 && k == (n - 1) / 2
    ensures H(n) == 1 + Max(H(m), H(k))
    ensures -1 <= H(m) - H(k) <= 1
  {
    assert H(n) == 1 + H(m);
    HMonotone(k, m);
    if m != k {
      HStep(k);
    }
  }

  /** `t` has the shape of a midpoint tree over `n` items: halves of `n / 2` and `(n - 1) / 2` items around the root. */
  predicate MidShaped(t: Tree, n: nat)
  {
    match t
    case Nil => n == 0
    case Node(l, _, _, r) => n > 0 && MidShaped(l, n / 2) && MidShaped(r, (n - 1) / 2)
  }

  /** A midpoint-shaped tree over `n` items has height `H(n)` and is balanced at every node. */
  lemma {:induction false} MidShapedBalanced(t: Tree, n: nat)
    requires MidShaped(t, n)
    ensures Height(t) == H(n) && Balanced(t)
  {
    match t
    case Nil =>
    case Node(l, _, _, r) =>
      MidShapedBalanced(l, n / 2);
      MidShapedBalanced(r, (n - 1) / 2);
      HalvesBalanced(n, n / 2, (n - 1) / 2);
  }

  /** The tree `balance` builds over `[start, end)` has the midpoint shape. */
  lemma {:induction false} BuildMidShaped(items: seq<Item>, start: int, end: int)
    requires 0 <= start <= end <= |items|
    ensures MidShaped(Build(items, start, end), end - start)
    decreases end - start
  {
    if start < end {
      var center := Mid(start, end);
      BuildUnfold(items, start, end);
      BuildMidShaped(items, start, center);
      BuildMidShaped(items, center + 1, end);
      MidHalves(start, end);
    }
  }

  /** The midpoint tree has height `H(end - start)` and every node's subtrees differ in height by at most one. */
  lemma BuildBalanced(items: seq<Item>, start: int, end: int)
    requires 0 <= start <= end <= |items|
    ensures Height(Build(items, start, end)) == H(end - start)
    ensures Balanced(Build(items, start, end))
  {
    BuildMidShaped(items, start, end);
    MidShapedBalanced(Build(items, start, end), end - start);
  }

  /**
   * `bst_balance`: collects the in-order items, balances them into a fresh tree,
   * disposes the old tree and hands back the new one.
   */
  method BstBalance(tree: Tree) returns (r: Tree)
    ensures r == InsertAll(Nil, Order(InorderOf(tree), 0, Size(tree)))
    ensures BST(tree) ==> && r == Build(InorderOf(tree), 0, Size(tree))
                          && BST(r) && Balanced(r)
                          && InorderOf(r) == InorderOf(tree)
                          && ToMap(r) == ToMap(tree)
  {
    var items := BTreeIter.Inorder(tree, []);
    assert items == InorderOf(tree);
    var balanced := BTreeIter.Init();
    balanced := Balance(balanced, items, 0, |items|);
    var disposed;
    ghost var released;
    disposed, released := BTreeIter.Dispose(tree);
    r := balanced;
    if BST(tree) {
      assert Increasing(items) by {
        BstIffInorderIncreasing(tree);
      }
      RebuiltTree(tree);
    }
  }

  /** The midpoint tree over a search tree's in-order items is a balanced search tree with the same in-order items and contents. */
  lemma RebuiltTree(tree: Tree)
    requires BST(tree)
    ensures var r := Build(InorderOf(tree), 0, Size(tree));
            && BST(r) && Balanced(r)
            && InorderOf(r) == InorderOf(tree)
            && ToMap(r) == ToMap(tree)
  {
    var items := InorderOf(tree);
    var r := Build(items, 0, |items|);
    assert InorderOf(r) == items by {
      BuildInorder(items, 0, |items|);
      assert items[0..|items|] == items;
    }
    assert Balanced(r) by {
      BuildBalanced(items, 0, |items|);
    }
    assert BST(r) by {
      BstIffInorderIncreasing(tree);
      BstIffInorderIncreasing(r);
    }
    assert ToMap(r) == ToMap(tree) by {
      InorderDescribesMap(tree);
      InorderDescribesMap(r);
    }
  }
}
