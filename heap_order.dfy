/** Shape and order of the binary heap of potential collapses (geode/mesh/decimate.cpp:14-72).
    Slot 0 is the root, slot k > 0 has parent (k - 1) / 2, and an entry "comes first"
    when its badness is <= the other's. The sift-up / sift-down helpers of the heap's
    base class are stated here as predicates on the entry sequence; the class that
    moves the entries is in module CollapseHeap. */
module HeapOrder {

  /** One potential collapse: src into dst, with its quadric badness. */
  datatype Entry = Entry(src: nat, badness: real, dst: nat)

  function Parent(k: nat): nat
    requires k > 0
  {
    (k - 1) / 2
  }

  /** Every entry comes after its parent. */
  ghost predicate IsHeap(s: seq<Entry>)
  {
    forall k :: 0 < k < |s| ==> s[Parent(k)].badness <= s[k].badness
  }

  /** Heap order on every edge whose parent slot is at least `lo`. */
  ghost predicate HeapFrom(s: seq<Entry>, lo: nat)
  {
    forall k :: 0 < k < |s| && lo <= Parent(k) ==> s[Parent(k)].badness <= s[k].badness
  }

  /** Slot i has just been overwritten in a heap: order holds on every edge not touching i,
      and i's parent comes before i's children. */
  ghost predicate HeapExceptAt(s: seq<Entry>, i: nat)
    requires i < |s|
  {
    (forall k :: 0 < k < |s| && k != i && Parent(k) != i ==> s[Parent(k)].badness <= s[k].badness) &&
    (i > 0 ==> forall c :: 0 < c < |s| && Parent(c) == i ==> s[Parent(i)].badness <= s[c].badness)
  }

  /** Sift-up state: order holds except on the edge into j. */
  ghost predicate HeapExceptUp(s: seq<Entry>, j: nat)
    requires j < |s|
  {
    (forall k :: 0 < k < |s| && k != j ==> s[Parent(k)].badness <= s[k].badness) &&
    (j > 0 ==> forall c :: 0 < c < |s| && Parent(c) == j ==> s[Parent(j)].badness <= s[c].badness)
  }

  /** Sift-down state within the part at or below `lo`: order holds except on the edges out of j. */
  ghost predicate HeapExceptDown(s: seq<Entry>, lo: nat, j: nat)
    requires j < |s|
  {
    (forall k :: 0 < k < |s| && lo <= Parent(k) && Parent(k) != j ==> s[Parent(k)].badness <= s[k].badness) &&
    (j > 0 && lo <= Parent(j) ==>
      forall c :: 0 < c < |s| && Parent(c) == j ==> s[Parent(j)].badness <= s[c].badness)
  }

  /** The entry in slot i comes before each of its children. */
  ghost predicate BeforeChildren(s: seq<Entry>, i: nat)
    requires i < |s|
  {
    forall c :: 0 < c < |s| && Parent(c) == i ==> s[i].badness <= s[c].badness
  }

  /** The entry in slot i already sits between its parent and its children. */
  ghost predicate InOrderAt(s: seq<Entry>, i: nat)
    requires i < |s|
  {
    (i > 0 ==> s[Parent(i)].badness <= s[i].badness) && BeforeChildren(s, i)
  }

  /** The set of vertices that have an entry. */
  function Sources(s: seq<Entry>): set<nat>
  {
    set k | 0 <= k < |s| :: s[k].src
  }

  // ---------------------------------------------------------------------------

  /** The root comes first: its badness is at most that of every entry. */
  lemma {:induction false} RootIsMinimum(s: seq<Entry>, k: nat)
    requires IsHeap(s) && k < |s|
    ensures s[0].badness <= s[k].badness
    decreases k
  {
    if k > 0 {
      RootIsMinimum(s, Parent(k));
    }
  }

  /** Overwriting one slot of a heap leaves it a heap except at that slot. */
  lemma OverwriteNearlyHeap(s: seq<Entry>, i: nat, e: Entry)
    requires IsHeap(s) && i < |s|
    ensures HeapExceptAt(s[i := e], i)
  {
    var t := s[i := e];
    if i > 0 {
      forall c | 0 < c < |t| && Parent(c) == i
        ensures t[Parent(i)].badness <= t[c].badness
      {
        assert s[Parent(i)].badness <= s[i].badness;
      }
    }
  }

  /** Appending to a heap leaves it a heap except at the new last slot. */
  lemma AppendNearlyHeap(s: seq<Entry>, e: Entry)
    requires IsHeap(s)
    ensures HeapExceptAt(s + [e], |s|)
  {
    var t := s + [e];
    forall k | 0 < k < |t| && k != |s| && Parent(k) != |s|
      ensures t[Parent(k)].badness <= t[k].badness
    {
      assert t[k] == s[k] && t[Parent(k)] == s[Parent(k)];
    }
  }

  lemma PrefixIsHeap(s: seq<Entry>, n: nat)
    requires IsHeap(s) && n <= |s|
    ensures IsHeap(s[..n])
  {
  }

  /** From a slot whose parent does not come after it, sifting downward may start. */
  lemma NearlyHeapDown(s: seq<Entry>, i: nat)
    requires i < |s| && HeapExceptAt(s, i)
    requires i > 0 ==> s[Parent(i)].badness <= s[i].badness
    ensures HeapExceptDown(s, 0, i)
  {
  }

  /** From a slot that comes strictly before its parent, sifting upward may start. */
  lemma NearlyHeapUp(s: seq<Entry>, i: nat)
    requires 0 < i < |s| && HeapExceptAt(s, i)
    requires s[i].badness < s[Parent(i)].badness
    ensures HeapExceptUp(s, i)
  {
  }

  /** One sift-up step: exchanging j with its parent moves the exception to the parent. */
  lemma SwapUpStep(s: seq<Entry>, j: nat)
    requires 0 < j < |s| && HeapExceptUp(s, j)
    requires s[j].badness < s[Parent(j)].badness
    ensures HeapExceptUp(s[j := s[Parent(j)]][Parent(j) := s[j]], Parent(j))
  {
    var p := Parent(j);
    var t := s[j := s[p]][p := s[j]];
    forall k | 0 < k < |t| && k != p
      ensures t[Parent(k)].badness <= t[k].badness
    {
      if k == j {
      } else if Parent(k) == j {
        assert s[Parent(j)].badness <= s[k].badness;
      } else if Parent(k) == p {
        assert s[p].badness <= s[k].badness;
      }
    }
    if p > 0 {
      forall c | 0 < c < |t| && Parent(c) == p
        ensures t[Parent(p)].badness <= t[c].badness
      {
        assert s[Parent(p)].badness <= s[p].badness;
      }
    }
  }

  /** One sift-down step: exchanging j with its first child c moves the exception to c. */
  lemma SwapDownStep(s: seq<Entry>, lo: nat, j: nat, c: nat)
    requires lo <= j < c < |s| && Parent(c) == j && HeapExceptDown(s, lo, j)
    requires forall c' :: 0 < c' < |s| && Parent(c') == j ==> s[c].badness <= s[c'].badness
    requires s[c].badness < s[j].badness
    ensures HeapExceptDown(s[j := s[c]][c := s[j]], lo, c)
  {
    var t := s[j := s[c]][c := s[j]];
    forall k | 0 < k < |t| && lo <= Parent(k) && Parent(k) != c
      ensures t[Parent(k)].badness <= t[k].badness
    {
      if k == c {
      } else if Parent(k) == j {
      } else if k == j {
        assert s[Parent(j)].badness <= s[c].badness;
      }
    }
  }

  /** The children of slot j are exactly slots 2j+1 and 2j+2. */
  lemma ChildrenOf(n: nat, j: nat)
    ensures forall c :: 0 < c < n && Parent(c) == j <==> c < n && (c == 2 * j + 1 || c == 2 * j + 2)
  {
  }

  /** Sift-down is done when j comes before all of its children. */
  lemma DownDone(s: seq<Entry>, lo: nat, j: nat)
    requires j < |s| && HeapExceptDown(s, lo, j)
    requires BeforeChildren(s, j)
    ensures HeapFrom(s, lo)
  {
  }

  /** Distinct sources: the heap holds exactly as many vertices as entries. */
  lemma {:induction false} DistinctSourcesCount(s: seq<Entry>)
    requires forall i, j :: 0 <= i < j < |s| ==> s[i].src != s[j].src
    ensures |Sources(s)| == |s|
  {
    if |s| > 0 {
      var n := |s| - 1;
      var t := s[..n];
      DistinctSourcesCount(t);
      assert Sources(s) == Sources(t) + {s[n].src};
      assert s[n].src !in Sources(t);
    }
  }
}
