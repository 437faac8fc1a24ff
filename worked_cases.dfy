/**
 * Concrete cases: the documented `letter_count` example, a small tree and its
 * three traversals, the deletion that loses a key under the as-written
 * rightmost removal, and pointer-identity keys in the hash table.
 */
module WorkedCases {
  import opened Wrappers
  import opened BTree
  import opened BTreeUpdate
  import opened BTreeExa
  import HashTable

  /** `ms` lists the counts after each prefix of `s`: empty first, then one more for the class of each character. */
  predicate IsTrace(s: seq<char>, ms: seq<map<char, int>>)
  {
    && |ms| == |s| + 1 && ms[0] == map[]
    && forall i :: 0 <= i < |s| ==>
         var k := Normalize(s[i]);
         ms[i + 1] == ms[i][k := (if k in ms[i] then ms[i][k] else 0) + 1]
  }

  /** A trace of the counts ends in the counts of the whole string. */
  lemma {:induction false} TraceEndsInCounts(s: seq<char>, ms: seq<map<char, int>>)
    requires IsTrace(s, ms)
    ensures Counts(s) == ms[|s|]
  {
    if s != [] {
      var n := |s| - 1;
      assert IsTrace(s[..n], ms[..n + 1]) by {
        forall i | 0 <= i < n
          ensures var k := Normalize(s[..n][i]);
                  ms[..n + 1][i + 1] == ms[..n + 1][i][k := (if k in ms[..n + 1][i] then ms[..n + 1][i][k] else 0) + 1]
        {
          assert s[..n][i] == s[i];
        }
      }
      TraceEndsInCounts(s[..n], ms[..n + 1]);
    }
  }

  /** The counts after each prefix of the documented input. */
  function DocumentedTrace(): seq<map<char, int>>
  {
    [map[],
                       map['a' := 1],
                       map['a' := 1, 'b' := 1],
                       map['a' := 1, 'b' := 2],
                       map['a' := 1, 'b' := 2, 'c' := 1],
                       map['a' := 1, 'b' := 2, 'c' := 2],
                       map['a' := 1, 'b' := 2, 'c' := 3],
                       map['a' := 1, 'b' := 2, 'c' := 3, '_' := 1],
                       map['a' := 1, 'b' := 2, 'c' := 3, '_' := 1, ' ' := 1],
                       map['a' := 1, 'b' := 2, 'c' := 3, '_' := 2, ' ' := 1],
                       map['a' := 1, 'b' := 2, 'c' := 3, '_' := 3, ' ' := 1],
                       map['a' := 1, 'b' := 2, 'c' := 3, '_' := 4, ' ' := 1],
                       map['a' := 1, 'b' := 2, 'c' := 3, '_' := 4, ' ' := 2],
                       map['a' := 1, 'b' := 2, 'c' := 3, '_' := 5, ' ' := 2]]
  }

  /** The documented input and its prefix counts agree step by step. */
  lemma DocumentedTraceSteps(s: seq<char>)
    requires s == "abBccc_ 123 *"
    ensures IsTrace(s, DocumentedTrace())
  {
    var ms := DocumentedTrace();
    forall i | 0 <= i < |s|
      ensures var k := Normalize(s[i]);
              ms[i + 1] == ms[i][k := (if k in ms[i] then ms[i][k] else 0) + 1]
    {
      assert i in {0, 1, 2, 3, 4, 5, 6, 7, 8, 9, 10, 11, 12};
    }
  }

  /** The documented example: "abBccc_ 123 *" counts a 1, b 2, c 3, the space 2 and '_' 5. */
  lemma DocumentedLetterCount(s: seq<char>)
    requires s == "abBccc_ 123 *"
    ensures NulIndex(s) == |s|
    ensures Counts(s[..NulIndex(s)]) == map['a' := 1, 'b' := 2, 'c' := 3, ' ' := 2, '_' := 5]
  {
    assert forall j :: 0 <= j < |s| ==> s[j] != '\0';
    assert s[..|s|] == s;
    DocumentedTraceSteps(s);
    TraceEndsInCounts(s, DocumentedTrace());
  }

  /** The tree that inserting 5, 3, 8, 1, 4 into an empty tree builds. */
  function Sample(): Tree
  {
    Node(Node(Node(Nil, '1', 1, Nil), '3', 3, Node(Nil, '4', 4, Nil)), '5', 5, Node(Nil, '8', 8, Nil))
  }

  /** Inserting 5, 3, 8, 1, 4 into an empty tree builds the sample tree, a search tree. */
  lemma SampleByInsertion()
    ensures Inserted(Inserted(Inserted(Inserted(Inserted(Nil, '5', 5), '3', 3), '8', 8), '1', 1), '4', 4) == Sample()
    ensures BST(Sample())
  {
    var t1 := Node(Nil, '5', 5, Nil);
    var t2 := Node(Node(Nil, '3', 3, Nil), '5', 5, Nil);
    var t3 := Node(Node(Nil, '3', 3, Nil), '5', 5, Node(Nil, '8', 8, Nil));
    var t4 := Node(Node(Node(Nil, '1', 1, Nil), '3', 3, Nil), '5', 5, Node(Nil, '8', 8, Nil));
    assert Inserted(Nil, '5', 5) == t1;
    assert Inserted(t1, '3', 3) == t2;
    assert Inserted(t2, '8', 8) == t3;
    assert Inserted(t3, '1', 1) == t4;
    assert Inserted(t4, '4', 4) == Sample();
  }

  /** The sample tree's traversals list 5 3 1 4 8, 1 3 4 5 8 and 1 4 3 8 5. */
  lemma SampleTraversals()
    ensures PreorderOf(Sample()) == [Item('5', 5), Item('3', 3), Item('1', 1), Item('4', 4), Item('8', 8)]
    ensures InorderOf(Sample()) == [Item('1', 1), Item('3', 3), Item('4', 4), Item('5', 5), Item('8', 8)]
    ensures PostorderOf(Sample()) == [Item('1', 1), Item('4', 4), Item('3', 3), Item('8', 8), Item('5', 5)]
  {
    var three := Sample().left;
    assert InorderOf(three) == [Item('1', 1), Item('3', 3), Item('4', 4)];
    assert PreorderOf(three) == [Item('3', 3), Item('1', 1), Item('4', 4)];
    assert PostorderOf(three) == [Item('1', 1), Item('4', 4), Item('3', 3)];
  }

  /** Deleting '5' from the sample tree promotes '4', the greatest key of the left subtree, which is a leaf. */
  lemma DeleteRoot()
    ensures Deleted(Sample(), '5') == Node(Node(Node(Nil, '1', 1, Nil), '3', 3, Nil), '4', 4, Node(Nil, '8', 8, Nil))
    ensures Keys(Deleted(Sample(), '5')) == Keys(Sample()) - {'5'}
  {
    var left := Sample().left;
    assert RightmostItem(left) == Item('4', 4);
    assert CutRightmost(left) == Node(Node(Nil, '1', 1, Nil), '3', 3, Nil);
  }

  /**
   * After inserting c, b, d, a, deleting 'c' finds 'b' as the rightmost node of
   * the left subtree; the as-written removal drops its left child 'a', the
   * corrected removal keeps it.
   */
  lemma DeleteDropsPredecessorChild()
    ensures var a, d := Node(Nil, 'a', 0, Nil), Node(Nil, 'd', 0, Nil);
            var t := Node(Node(a, 'b', 0, Nil), 'c', 0, d);
            && Inserted(Inserted(Inserted(Inserted(Nil, 'c', 0), 'b', 0), 'd', 0), 'a', 0) == t
            && BST(t)
            && Deleted(t, 'c') == Node(Nil, 'b', 0, d)
            && 'a' in Keys(t) && 'a' !in Keys(Deleted(t, 'c'))
            && DeletedFixed(t, 'c') == Node(a, 'b', 0, d)
            && Keys(DeletedFixed(t, 'c')) == Keys(t) - {'c'}
  {
    var a, d := Node(Nil, 'a', 0, Nil), Node(Nil, 'd', 0, Nil);
    var t := Node(Node(a, 'b', 0, Nil), 'c', 0, d);
    assert Inserted(Inserted(Nil, 'c', 0), 'b', 0) == Node(Node(Nil, 'b', 0, Nil), 'c', 0, Nil);
    assert Inserted(Node(Node(Nil, 'b', 0, Nil), 'c', 0, Nil), 'd', 0) == Node(Node(Nil, 'b', 0, Nil), 'c', 0, d);
    assert t.left.right == Nil;
  }

  /** Two keys with the same characters are different keys: the table compares key pointers. */
  method SameContentsDifferentKeys() returns (first: Option<int>, second: Option<int>)
    ensures first == Some(1) && second == None
  {
    var table := new HashTable.Table<int>(7, 7);
    var k1 := new HashTable.Key("ab");
    var k2 := new HashTable.Key("ab");
    table.Insert(k1, 1);
    first := table.Get(k1);
    second := table.Get(k2);
  }

  /**
   * Inserting one key into an empty table and deleting it again: as written, the
   * bucket still reaches the freed item and the key still finds its value; the
   * corrected deletion empties the bucket.
   */
  method DeleteOnlyItem() returns (asWritten: HashTable.Table<int>, corrected: HashTable.Table<int>, key: HashTable.Key)
    ensures asWritten.Valid() && !asWritten.Sound() && asWritten.Lookup(key) == Some(1)
    ensures corrected.Valid() && corrected.Sound() && corrected.Lookup(key) == None
  {
    key := new HashTable.Key("ab");
    asWritten := new HashTable.Table<int>(7, 7);
    asWritten.Insert(key, 1);
    asWritten.DeleteAsWritten(key);
    corrected := new HashTable.Table<int>(7, 7);
    corrected.Insert(key, 1);
    corrected.Delete(key);
  }
}
