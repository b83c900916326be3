/** The min-first queue of trees (java.util.PriorityQueue ordered by
    frequence). The heap layout is not modelled: the queue is the sequence of
    its elements in insertion order, and poll removes the first element of
    least frequency, a fixed choice among equal frequencies. */
module PriorityQueues {
  import opened Wrappers
  import opened HuffmanTrees

  /** The position of the first element of least frequency. */
  function MinIndex(q: seq<Tree>): (i: nat)
    requires |q| > 0
    ensures i < |q|
    ensures forall j :: 0 <= j < |q| ==> q[i].freq <= q[j].freq
    ensures forall j :: 0 <= j < i ==> q[i].freq < q[j].freq
  {
    if |q| == 1 then 0
    else
      var j := MinIndex(q[1..]);
      if q[0].freq <= q[1 + j].freq then 0 else 1 + j
  }

  /** The element poll returns. */
  function Lowest(q: seq<Tree>): (t: Tree)
    requires |q| > 0
    ensures t in q && forall u :: u in q ==> t.freq <= u.freq
  {
    q[MinIndex(q)]
  }

  /** The queue poll leaves behind: the element at MinIndex removed. */
  function Rest(q: seq<Tree>): (r: seq<Tree>)
    requires |q| > 0
    ensures |r| == |q| - 1
  {
    q[..MinIndex(q)] + q[MinIndex(q) + 1..]
  }

  /** poll removes exactly one copy of its result, and every node left
      behind has a frequency no lower than it. */
  lemma PollRemovesLowest(q: seq<Tree>)
    requires |q| > 0
    ensures multiset(Rest(q)) + multiset{Lowest(q)} == multiset(q)
    ensures forall u :: u in Rest(q) ==> u in q && Lowest(q).freq <= u.freq
  {
    var i := MinIndex(q);
    assert q == q[..i] + [q[i]] + q[i + 1..];
  }

  /** The queue object: add, poll and size as the builder uses them. */
  class MinQueue {
    var items: seq<Tree>

    constructor ()
      ensures items == []
    {
      items := [];
    }

    /** size() */
    function Size(): nat
      reads this
    {
      |items|
    }

    /** add(t) */
    method Add(t: Tree)
      modifies this
      ensures items == old(items) + [t]
    {
      items := items + [t];
    }

    /** poll(): null on an empty queue, otherwise the first element of least
        frequency, which is removed. */
    method Poll() returns (head: Option<Tree>)
      modifies this
      ensures old(items) == [] ==> head == None && items == []
      ensures old(items) != [] ==> head == Some(Lowest(old(items))) && items == Rest(old(items))
    {
      if items == [] {
        head := None;
      } else {
        head := Some(Lowest(items));
        items := Rest(items);
      }
    }
  }
}
