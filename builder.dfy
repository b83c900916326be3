/** Huffman tree construction: the loop shared by genererCodesHuffman and
    reconstruireArbre, which seeds a min-first queue with one leaf per
    table entry and merges the two lowest nodes until at most one is left. */
module TreeBuilder {
  import opened Wrappers
  import opened HuffmanTrees
  import opened FrequencyTable
  import opened PriorityQueues

  /** One leaf per listed key, carrying that key's count. */
  function LeafQueue(keys: seq<char>, freq: map<char, int>): (q: seq<Tree>)
    requires forall c :: c in keys ==> c in freq
    ensures |q| == |keys|
  {
    seq(|keys|, i requires 0 <= i < |keys| => Leaf(keys[i], freq[keys[i]]))
  }

  /** One leaf per entry of the table, in ascending key order. */
  function InitialQueue(freq: map<char, int>): (q: seq<Tree>)
    ensures |q| == |freq|
  {
    LeafQueue(SortedKeys(freq.Keys), freq)
  }

  /** One iteration of the build loop: poll the two lowest nodes and add
      their merge. */
  function Step(q: seq<Tree>): (r: seq<Tree>)
    requires |q| >= 2
    ensures |r| == |q| - 1
  {
    Rest(Rest(q)) + [Merge(Lowest(q), Lowest(Rest(q)))]
  }

  /** A merge step takes out two nodes whose frequencies are no higher than
      any node left behind, puts their merge in at the back, and so shrinks
      the queue by one. */
  lemma StepMergesTwoLowest(q: seq<Tree>)
    requires |q| >= 2
    ensures |Step(q)| == |q| - 1
    ensures Step(q)[|q| - 2] == Merge(Lowest(q), Lowest(Rest(q)))
    ensures Lowest(q).freq <= Lowest(Rest(q)).freq
    ensures forall u :: u in Rest(Rest(q)) ==>
              Lowest(q).freq <= u.freq && Lowest(Rest(q)).freq <= u.freq
    ensures multiset(Step(q)) + multiset{Lowest(q), Lowest(Rest(q))} ==
            multiset(q) + multiset{Merge(Lowest(q), Lowest(Rest(q)))}
  {
    PollRemovesLowest(q);
    PollRemovesLowest(Rest(q));
  }

  /** The tree the loop leaves in a queue: the single remaining node, or
      null when the queue is empty. */
  function BuildFromQueue(q: seq<Tree>): Option<Tree>
    decreases |q|
  {
    if |q| == 0 then None
    else if |q| == 1 then Some(q[0])
    else BuildFromQueue(Step(q))
  }

  /** The Huffman tree of a frequency table. Both builders in the source run
      this same computation, so the decoding tree equals the encoding tree. */
  function HuffmanTree(freq: map<char, int>): Option<Tree>
  {
    BuildFromQueue(InitialQueue(freq))
  }

  /** The seeding loop: one leaf per entry, added in iteration order. */
  method SeedQueue(keys: seq<char>, freq: map<char, int>) returns (queue: MinQueue)
    requires forall c :: c in keys ==> c in freq
    ensures fresh(queue)
    ensures queue.items == LeafQueue(keys, freq)
  {
    queue := new MinQueue();
    ghost var seeded := LeafQueue(keys, freq);
    for i := 0 to |keys|
      invariant queue.items == seeded[..i]
    {
      queue.Add(Leaf(keys[i], freq[keys[i]]));
      assert seeded[..i + 1] == seeded[..i] + [seeded[i]];
    }
    assert seeded[..|keys|] == seeded;
  }

  /** One iteration of the build loop on the queue itself. */
  method MergeLowest(queue: MinQueue)
    requires |queue.items| >= 2
    modifies queue
    ensures queue.items == Step(old(queue.items))
  {
    var left := queue.Poll();
    var right := queue.Poll();
    queue.Add(Merge(left.value, right.value));
  }

  /** reconstruireArbre (and the first half of genererCodesHuffman). */
  method ReconstructTree(freq: map<char, int>) returns (root: Option<Tree>)
    ensures root == HuffmanTree(freq)
  {
    var queue := SeedQueue(SortedKeys(freq.Keys), freq);
    while queue.Size() > 1
      invariant BuildFromQueue(queue.items) == HuffmanTree(freq)
      decreases |queue.items|
    {
      MergeLowest(queue);
    }
    root := queue.Poll();
  }

  /** The sum of the frequencies in a queue. */
  function SumFreq(q: seq<Tree>): int
  {
    if q == [] then 0 else q[0].freq + SumFreq(q[1..])
  }

  /** The letters at the leaves of all trees in a queue. */
  function QueueLetters(q: seq<Tree>): multiset<char>
  {
    if q == [] then multiset{} else multiset(Leaves(q[0])) + QueueLetters(q[1..])
  }

  lemma {:induction false} SumFreqConcat(a: seq<Tree>, b: seq<Tree>)
    ensures SumFreq(a + b) == SumFreq(a) + SumFreq(b)
  {
    if a != [] {
      assert (a + b)[1..] == a[1..] + b;
      SumFreqConcat(a[1..], b);
    } else {
      assert a + b == b;
    }
  }

  lemma {:induction false} QueueLettersConcat(a: seq<Tree>, b: seq<Tree>)
    ensures QueueLetters(a + b) == QueueLetters(a) + QueueLetters(b)
  {
    if a != [] {
      assert (a + b)[1..] == a[1..] + b;
      QueueLettersConcat(a[1..], b);
    } else {
      assert a + b == b;
    }
  }

  lemma RemoveFreq(q: seq<Tree>, i: nat)
    requires i < |q|
    ensures SumFreq(q[..i] + q[i + 1..]) + q[i].freq == SumFreq(q)
  {
    var front, back := q[..i], q[i + 1..];
    var x := [q[i]] + back;
    assert q == front + x;
    assert x[1..] == back;
    SumFreqConcat(front, x);
    SumFreqConcat(front, back);
    assert SumFreq(x) == q[i].freq + SumFreq(back);
  }

  lemma RemoveLetters(q: seq<Tree>, i: nat)
    requires i < |q|
    ensures QueueLetters(q[..i] + q[i + 1..]) + multiset(Leaves(q[i])) == QueueLetters(q)
  {
    var front, back := q[..i], q[i + 1..];
    var x := [q[i]] + back;
    assert q == front + x;
    assert x[1..] == back;
    QueueLettersConcat(front, x);
    QueueLettersConcat(front, back);
    var f, l, b := QueueLetters(front), multiset(Leaves(q[i])), QueueLetters(back);
    assert QueueLetters(x) == l + b;
    assert f + b + l == f + (l + b);
  }

  /** Polling moves one tree's frequency out of the queue. */
  lemma PollFreq(q: seq<Tree>)
    requires |q| > 0
    ensures SumFreq(Rest(q)) + Lowest(q).freq == SumFreq(q)
  {
    var i := MinIndex(q);
    assert Rest(q) == q[..i] + q[i + 1..] && Lowest(q) == q[i];
    RemoveFreq(q, i);
  }

  /** Polling moves one tree's letters out of the queue. */
  lemma PollLetters(q: seq<Tree>)
    requires |q| > 0
    ensures QueueLetters(Rest(q)) + multiset(Leaves(Lowest(q))) == QueueLetters(q)
  {
    var i := MinIndex(q);
    assert Rest(q) == q[..i] + q[i + 1..] && Lowest(q) == q[i];
    RemoveLetters(q, i);
  }

  /** A merge step keeps the total frequency of the queue. */
  lemma StepPreservesTotal(q: seq<Tree>)
    requires |q| >= 2
    ensures SumFreq(Step(q)) == SumFreq(q)
  {
    var r := Rest(q);
    var a, b := Lowest(q), Lowest(r);
    var m := Merge(a, b);
    PollFreq(q);
    PollFreq(r);
    SumFreqConcat(Rest(r), [m]);
    assert [m][1..] == [];
    assert Step(q) == Rest(r) + [m];
  }

  /** Two polls move the letters of both polled trees out of the queue. */
  lemma TwoPollsLetters(q: seq<Tree>)
    requires |q| >= 2
    ensures QueueLetters(Rest(Rest(q))) + multiset(Leaves(Lowest(Rest(q)))) + multiset(Leaves(Lowest(q))) == QueueLetters(q)
  {
    PollLetters(q);
    PollLetters(Rest(q));
  }

  /** The letters of a one-tree queue holding a merge. */
  lemma MergedLetters(a: Tree, b: Tree)
    ensures QueueLetters([Merge(a, b)]) == multiset(Leaves(a)) + multiset(Leaves(b))
  {
    assert [Merge(a, b)][1..] == [];
  }

  /** A merge step keeps the letters of the queue. */
  lemma StepPreservesLetters(q: seq<Tree>)
    requires |q| >= 2
    ensures QueueLetters(Step(q)) == QueueLetters(q)
  {
    var a, b := Lowest(q), Lowest(Rest(q));
    var rr := Rest(Rest(q));
    TwoPollsLetters(q);
    MergedLetters(a, b);
    QueueLettersConcat(rr, [Merge(a, b)]);
    var x, la, lb := QueueLetters(rr), multiset(Leaves(a)), multiset(Leaves(b));
    assert x + (la + lb) == x + lb + la;
  }

  /** A merge step keeps every queued tree well formed. */
  lemma StepPreservesWellFormed(q: seq<Tree>)
    requires |q| >= 2
    requires forall t :: t in q ==> WellFormed(t)
    ensures forall t :: t in Step(q) ==> WellFormed(t)
  {
    PollRemovesLowest(q);
    PollRemovesLowest(Rest(q));
  }

  /** What the loop leaves in a queue: nothing exactly when the queue was
      empty; otherwise one tree carrying the queue's total frequency and all
      of its letters, well formed when every queued tree is. */
  lemma {:induction false} BuildFromQueueProperties(q: seq<Tree>)
    ensures BuildFromQueue(q).None? <==> q == []
    ensures q != [] ==> BuildFromQueue(q).value.freq == SumFreq(q)
    ensures q != [] ==> multiset(Leaves(BuildFromQueue(q).value)) == QueueLetters(q)
    ensures q != [] && (forall t :: t in q ==> WellFormed(t)) ==> WellFormed(BuildFromQueue(q).value)
    decreases |q|
  {
    if |q| == 1 {
      assert q[1..] == [];
    } else if |q| >= 2 {
      StepPreservesTotal(q);
      StepPreservesLetters(q);
      if forall t :: t in q ==> WellFormed(t) {
        StepPreservesWellFormed(q);
      }
      BuildFromQueueProperties(Step(q));
    }
  }

  lemma {:induction false} InitialQueueSums(keys: seq<char>, freq: map<char, int>, q: seq<Tree>)
    requires forall c :: c in keys ==> c in freq
    requires |q| == |keys| && forall i :: 0 <= i < |q| ==> q[i] == Leaf(keys[i], freq[keys[i]])
    ensures SumFreq(q) == SumOver(keys, freq)
    ensures QueueLetters(q) == multiset(keys)
    ensures forall t :: t in q ==> WellFormed(t)
  {
    if keys != [] {
      InitialQueueSums(keys[1..], freq, q[1..]);
      assert keys == [keys[0]] + keys[1..];
    }
  }

  /** The builder returns no tree exactly when the table is empty. */
  lemma HuffmanTreeExists(freq: map<char, int>)
    ensures HuffmanTree(freq).None? <==> freq == map[]
  {
    BuildFromQueueProperties(InitialQueue(freq));
    if freq == map[] {
      assert |InitialQueue(freq)| == 0;
    }
  }

  /** The root of a non-empty table's tree carries the table's total
      frequency, and every internal node's frequency is the sum of its
      children's. */
  lemma HuffmanTreeRoot(freq: map<char, int>)
    requires freq != map[]
    ensures HuffmanTree(freq).Some?
    ensures HuffmanTree(freq).value.freq == TotalFrequency(freq)
    ensures WellFormed(HuffmanTree(freq).value)
  {
    var keys := SortedKeys(freq.Keys);
    var q := InitialQueue(freq);
    InitialQueueSums(keys, freq, q);
    BuildFromQueueProperties(q);
  }

  /** The letters of a non-empty table's tree are its keys. */
  lemma HuffmanTreeLetters(freq: map<char, int>)
    requires freq != map[]
    ensures HuffmanTree(freq).Some?
    ensures multiset(Leaves(HuffmanTree(freq).value)) == multiset(SortedKeys(freq.Keys))
  {
    var q := InitialQueue(freq);
    InitialQueueSums(SortedKeys(freq.Keys), freq, q);
    BuildFromQueueProperties(q);
  }

  /** Every key of a non-empty table sits at exactly one leaf of its tree and
      nothing else does; the tree has one internal node fewer than leaves. */
  lemma HuffmanTreeLeaves(freq: map<char, int>)
    requires freq != map[]
    ensures HuffmanTree(freq).Some?
    ensures forall c :: multiset(Leaves(HuffmanTree(freq).value))[c] == if c in freq then 1 else 0
    ensures |Leaves(HuffmanTree(freq).value)| == |freq|
    ensures InternalCount(HuffmanTree(freq).value) == |freq| - 1
  {
    HuffmanTreeLetters(freq);
    var keys := SortedKeys(freq.Keys);
    var t := HuffmanTree(freq).value;
    AscendingOnce(keys);
    assert |Leaves(t)| == |keys| by {
      assert |multiset(Leaves(t))| == |multiset(keys)|;
    }
    InternalFewerThanLeaves(t);
  }

  /** Every tree the builder returns has distinct letters. */
  lemma HuffmanTreeDistinct(freq: map<char, int>)
    requires freq != map[]
    ensures HuffmanTree(freq).Some? && DistinctLeaves(HuffmanTree(freq).value)
    ensures forall c :: c in Leaves(HuffmanTree(freq).value) <==> c in freq
  {
    HuffmanTreeLeaves(freq);
    var t := HuffmanTree(freq).value;
    forall c ensures c in Leaves(t) <==> c in freq {
      assert c in Leaves(t) <==> multiset(Leaves(t))[c] > 0;
    }
  }

  /** A table with two or more entries gives an internal root; one with a
      single entry gives a lone leaf holding that entry. */
  lemma HuffmanTreeShape(freq: map<char, int>)
    requires freq != map[]
    ensures HuffmanTree(freq).Some?
    ensures |freq| >= 2 <==> HuffmanTree(freq).value.Node?
    ensures |freq| == 1 ==> exists c :: c in freq && HuffmanTree(freq).value == Leaf(c, freq[c])
  {
    HuffmanTreeLeaves(freq);
    var t := HuffmanTree(freq).value;
    if |freq| == 1 {
      var keys := SortedKeys(freq.Keys);
      var q := InitialQueue(freq);
      assert |q| == 1;
      assert t == q[0] == Leaf(keys[0], freq[keys[0]]);
    }
  }
}
