/** The keys that the program's entry point inserts into a fresh tree. */
module SampleData {
  import opened Nodes

  /** The keys the entry point inserts, in order. */
  const SampleKeys: seq<int> := [20, 12, 15, 8, 23, 45, 24, 61, 32, 4, 1, 0, 43, 38, 9, 7, 18, 99, 69, 4, 1, 24]

  /** The distinct keys among them, ascending: the last three inserted repeat
      earlier ones. */
  const Distinct: seq<int> := [0, 1, 4, 7, 8, 9, 12, 15, 18, 20, 23, 24, 32, 38, 43, 45, 61, 69, 99]

  /** A strictly increasing sequence lists as many keys as it has entries. */
  lemma {:induction false} IncreasingCount(s: seq<int>)
    requires Increasing(s)
    ensures |set k | k in s| == |s|
    decreases |s|
  {
    if |s| > 0 {
      var t := s[..|s| - 1];
      var last := s[|s| - 1];
      assert Increasing(t);
      IncreasingCount(t);
      assert last !in t by {
        forall i | 0 <= i < |t|
          ensures t[i] != last
        {
          assert t[i] == s[i];
        }
      }
      assert s == t + [last];
      assert (set k | k in s) == (set k | k in t) + {last};
    }
  }

  lemma DistinctIncreasing()
    ensures Increasing(Distinct)
  {
  }

  lemma SampleKeysAreDistinct()
    ensures forall k :: k in SampleKeys <==> k in Distinct
  {
    forall i | 0 <= i < 19
      ensures SampleKeys[i] in SampleKeys
    {
    }
  }

  /** The run stores 19 distinct keys. */
  lemma SampleKeyCount()
    ensures (set k | k in SampleKeys) == (set k | k in Distinct)
    ensures |set k | k in SampleKeys| == 19
  {
    SampleKeysAreDistinct();
    DistinctIncreasing();
    IncreasingCount(Distinct);
  }
}

/** A sequence of `insert` calls, and the sample run of the program's entry
    point: 22 keys, three of them repeated, into a fresh tree. */
module Scenario {
  import opened Nodes
  import opened TreeObject
  import opened Insertion
  import opened SampleData

  /** Insert the keys in order. */
  function InsertAll(s: RBTree, ks: seq<int>): (s': RBTree)
    requires !IsRed(s.root)
    ensures !IsRed(s'.root)
    decreases |ks|
  {
    if |ks| == 0 then s else InsertAll(Insert(s, ks[0]), ks[1..])
  }

  /** Any run of inserts keeps the tree valid and stores exactly the keys
      inserted so far. */
  lemma {:induction false} InsertAllValid(s: RBTree, ks: seq<int>)
    requires Valid(s)
    ensures Valid(InsertAll(s, ks))
    ensures Keys(InsertAll(s, ks).root) == Keys(s.root) + set k | k in ks
    decreases |ks|
  {
    if |ks| > 0 {
      InsertValid(s, ks[0]);
      var s1 := Insert(s, ks[0]);
      InsertAllValid(s1, ks[1..]);
      assert ks == [ks[0]] + ks[1..];
      assert (set k | k in ks) == {ks[0]} + set k | k in ks[1..];
    }
  }

  /** A run from a fresh tree ends with one node per distinct key, and the
      length counts them. */
  lemma RunFromEmpty(ks: seq<int>)
    ensures Valid(InsertAll(Empty(), ks))
    ensures Keys(InsertAll(Empty(), ks).root) == set k | k in ks
    ensures GetLength(InsertAll(Empty(), ks)) == |set k | k in ks|
  {
    InsertAllValid(Empty(), ks);
  }

  /** The entry point's run ends with a valid tree holding the 19 distinct
      keys, and a length of 19. */
  lemma SampleRun()
    ensures Valid(InsertAll(Empty(), SampleKeys))
    ensures Keys(InsertAll(Empty(), SampleKeys).root) == set k | k in Distinct
    ensures GetLength(InsertAll(Empty(), SampleKeys)) == 19
  {
    RunFromEmpty(SampleKeys);
    SampleKeyCount();
  }
}
