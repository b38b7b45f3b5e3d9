/** The indexed binary min-heap of potential collapses (geode/mesh/decimate.cpp:14-72).
    `heap` holds (src, badness, dst) entries in binary-heap order on badness; the dense
    field `invHeap`, one slot per vertex id, gives the heap slot of each vertex's entry,
    or -1 when the vertex has none. The sifts of the heap's base class (move_downward,
    move_up_or_down, make) are written here as ordinary binary-heap sifts.

    The abstract view is `Queued()`: the map from each vertex reachable through the index
    to its entry. The index facts are stated first on plain values (an entry sequence and
    an index sequence), then used by the class. */
module CollapseHeap {
  import opened HeapOrder

  /** Every entry names a vertex id in range, and every non-negative index points at a slot
      holding that vertex. */
  ghost predicate Sound(h: seq<Entry>, inv: seq<int>)
  {
    (forall k :: 0 <= k < |h| ==> h[k].src < |inv|) &&
    (forall v :: 0 <= v < |inv| ==> inv[v] == -1 || (0 <= inv[v] < |h| && h[inv[v]].src == v))
  }

  /** In addition, every slot is indexed: inv_heap[heap[k].x] == k. */
  ghost predicate Indexed(h: seq<Entry>, inv: seq<int>)
  {
    Sound(h, inv) && forall k :: 0 <= k < |h| ==> inv[h[k].src] == k
  }

  /** The entry of every vertex that the index reaches. */
  ghost function QueuedOf(h: seq<Entry>, inv: seq<int>): map<nat, Entry>
  {
    map v: nat | v < |inv| && 0 <= inv[v] < |h| :: h[inv[v]]
  }

  /** Under a full index, the queued vertices are exactly the sources in the heap, each
      with its own slot's entry, and there are as many of them as entries. */
  lemma QueuedIsHeap(h: seq<Entry>, inv: seq<int>)
    requires Indexed(h, inv)
    ensures forall k :: 0 <= k < |h| ==> h[k].src in QueuedOf(h, inv) && QueuedOf(h, inv)[h[k].src] == h[k]
    ensures QueuedOf(h, inv).Keys == Sources(h)
    ensures forall k, l :: 0 <= k < l < |h| ==> h[k].src != h[l].src
    ensures |QueuedOf(h, inv)| == |h|
  {
    var q := QueuedOf(h, inv);
    forall k | 0 <= k < |h|
      ensures h[k].src in q && q[h[k].src] == h[k]
    {
      assert inv[h[k].src] == k;
    }
    forall k, l | 0 <= k < l < |h|
      ensures h[k].src != h[l].src
    {
      assert inv[h[k].src] == k && inv[h[l].src] == l;
    }
    DistinctSourcesCount(h);
    assert q.Keys == Sources(h);
    assert |q| == |q.Keys|;
  }

  /** Exchanging two slots and re-pointing both of their vertices keeps the index sound,
      and keeps a full index full with the same queued entries. */
  lemma SwapIndexed(h: seq<Entry>, inv: seq<int>, i: nat, j: nat, h': seq<Entry>, inv': seq<int>)
    requires Sound(h, inv) && i < |h| && j < |h|
    requires h' == h[i := h[j]][j := h[i]] && inv' == inv[h'[i].src := i][h'[j].src := j]
    ensures Sound(h', inv')
    ensures Indexed(h, inv) ==> Indexed(h', inv') && QueuedOf(h', inv') == QueuedOf(h, inv)
  {
    forall v | 0 <= v < |inv'| && v != h'[i].src && v != h'[j].src
      ensures inv'[v] == -1 || (0 <= inv'[v] < |h'| && h'[inv'[v]].src == v)
    {
      assert inv'[v] == inv[v];
      if inv[v] != -1 {
        assert inv[v] != i && inv[v] != j;
      }
    }
    if Indexed(h, inv) {
      forall k | 0 <= k < |h'|
        ensures inv'[h'[k].src] == k
      {
        if k != i && k != j {
          assert h'[k] == h[k] && inv[h[k].src] == k;
        }
      }
      var q, q' := QueuedOf(h, inv), QueuedOf(h', inv');
      forall v: nat | v < |inv|
        ensures v in q' <==> v in q
        ensures v in q ==> q'[v] == q[v]
      {
        if v != h'[i].src && v != h'[j].src {
          assert inv'[v] == inv[v];
          if inv[v] != -1 {
            assert inv[v] != i && inv[v] != j;
          }
        }
      }
    }
  }

  /** Removing v's entry (the last entry moves into its slot) keeps the index full. */
  lemma RemoveKeepsIndex(h: seq<Entry>, inv: seq<int>, v: nat, h': seq<Entry>, inv': seq<int>)
    requires Indexed(h, inv) && v < |inv| && 0 <= inv[v]
    requires var n := |h| - 1; var i := inv[v]; var p := h[n];
      if i < n then h' == h[..n][i := p] && inv' == inv[v := -1][p.src := i]
      else h' == h[..n] && inv' == inv[v := -1]
    ensures Indexed(h', inv')
  {
    var i := inv[v];
    forall u | 0 <= u < |inv'| && u != v
      ensures inv'[u] == -1 || (0 <= inv'[u] < |h'| && h'[inv'[u]].src == u)
    {
      if inv[u] != -1 {
        assert inv[u] != i;
      }
    }
    forall k | 0 <= k < |h'|
      ensures inv'[h'[k].src] == k
    {
      if k != i {
        assert h'[k] == h[k] && inv[h[k].src] == k;
      }
    }
  }

  /** ... and removes exactly v from the queued entries. */
  lemma RemoveIndexed(h: seq<Entry>, inv: seq<int>, v: nat, h': seq<Entry>, inv': seq<int>)
    requires Indexed(h, inv) && v < |inv| && 0 <= inv[v]
    requires var n := |h| - 1; var i := inv[v]; var p := h[n];
      if i < n then h' == h[..n][i := p] && inv' == inv[v := -1][p.src := i]
      else h' == h[..n] && inv' == inv[v := -1]
    ensures Indexed(h', inv') && QueuedOf(h', inv') == QueuedOf(h, inv) - {v}
  {
    RemoveKeepsIndex(h, inv, v, h', inv');
    var i := inv[v];
    var q, q' := QueuedOf(h, inv), QueuedOf(h', inv');
    forall u: nat | u < |inv'| && u != v
      ensures u in q' <==> u in q
      ensures u in q ==> q'[u] == q[u]
    {
      if inv[u] != -1 {
        assert inv[u] != i;
      }
    }
  }

  /** Appending e for a vertex without an entry, and recording its index, keeps the index full
      and adds exactly that entry. */
  lemma AppendIndexed(h: seq<Entry>, inv: seq<int>, e: Entry, h': seq<Entry>, inv': seq<int>)
    requires Indexed(h, inv) && e.src < |inv| && inv[e.src] < 0
    requires h' == h + [e] && inv' == inv[e.src := |h|]
    ensures Indexed(h', inv') && QueuedOf(h', inv') == QueuedOf(h, inv)[e.src := e]
  {
    forall k | 0 <= k < |h|
      ensures inv'[h'[k].src] == k
    {
      assert h'[k] == h[k] && inv[h[k].src] == k;
    }
    var q, q' := QueuedOf(h, inv), QueuedOf(h', inv');
    forall u: nat | u < |inv'| && u != e.src
      ensures u in q' <==> u in q
      ensures u in q ==> q'[u] == q[u]
    {
    }
  }

  /** Overwriting v's own slot with e keeps the index full and replaces exactly v's entry. */
  lemma OverwriteIndexed(h: seq<Entry>, inv: seq<int>, e: Entry, h': seq<Entry>)
    requires Indexed(h, inv) && e.src < |inv| && 0 <= inv[e.src]
    requires h' == h[inv[e.src] := e]
    ensures Indexed(h', inv) && QueuedOf(h', inv) == QueuedOf(h, inv)[e.src := e]
  {
    forall k | 0 <= k < |h'|
      ensures inv[h'[k].src] == k
    {
      if k != inv[e.src] {
        assert h'[k] == h[k] && inv[h[k].src] == k;
      }
    }
    var q, q' := QueuedOf(h, inv), QueuedOf(h', inv);
    forall u: nat | u < |inv| && u != e.src
      ensures u in q' <==> u in q
      ensures u in q ==> q'[u] == q[u]
    {
    }
  }

  class Heap {
    var heap: seq<Entry>
    const invHeap: array<int>

    ghost predicate IndexSound()
      reads this, invHeap
    {
      Sound(heap, invHeap[..])
    }

    ghost predicate IndexValid()
      reads this, invHeap
    {
      Indexed(heap, invHeap[..])
    }

    ghost predicate Valid()
      reads this, invHeap
    {
      IndexValid() && IsHeap(heap)
    }

    ghost function Queued(): map<nat, Entry>
      reads this, invHeap
    {
      QueuedOf(heap, invHeap[..])
    }

    constructor (nv: nat)
      ensures fresh(invHeap) && invHeap.Length == nv
      ensures heap == [] && forall v :: 0 <= v < nv ==> invHeap[v] == -1
      ensures Valid() && Queued() == map[]
    {
      heap := [];
      invHeap := new int[nv](_ => -1);
    }

    function Size(): nat
      reads this
    {
      |heap|
    }

    predicate First(i: nat, j: nat)
      reads this
      requires i < |heap| && j < |heap|
    {
      heap[i].badness <= heap[j].badness
    }

    /** The child of j that comes first: the right one when it does not come after the left. */
    function MinChild(j: nat): (c: nat)
      reads this
      requires 2 * j + 1 < |heap|
      ensures 0 < c < |heap| && Parent(c) == j
      ensures forall c' :: 0 < c' < |heap| && Parent(c') == j ==> heap[c].badness <= heap[c'].badness
    {
      ChildrenOf(|heap|, j);
      var l := 2 * j + 1;
      if l + 1 < |heap| && First(l + 1, l) then l + 1 else l
    }

    /** inv_heap[v] == -1 exactly for the vertices without an entry. */
    lemma AbsentIffUnindexed(v: nat)
      requires IndexSound() && v < invHeap.Length
      ensures v !in Queued() <==> invHeap[v] == -1
    {
    }

    /** size() is the number of vertices that have an entry. */
    lemma SizeIsQueuedCount()
      requires IndexValid()
      ensures |Queued()| == |heap|
    {
      QueuedIsHeap(heap, invHeap[..]);
    }

    /** Exchanges two slots and keeps the index in step: every vertex still reaches its entry. */
    method Swap(i: nat, j: nat)
      requires IndexSound() && i < |heap| && j < |heap|
      modifies this, invHeap
      ensures heap == old(heap)[i := old(heap)[j]][j := old(heap)[i]]
      ensures invHeap[..] == old(invHeap[..])[heap[i].src := i][heap[j].src := j]
      ensures IndexSound()
      ensures old(IndexValid()) ==> IndexValid() && Queued() == old(Queued())
    {
      heap := heap[i := heap[j]][j := heap[i]];
      invHeap[heap[i].src] := i;
      invHeap[heap[j].src] := j;
      SwapIndexed(old(heap), old(invHeap[..]), i, j, heap, invHeap[..]);
    }

    /** Sifts the entry in slot i up until its parent comes first. */
    method MoveUp(i: nat)
      requires IndexSound() && i < |heap| && HeapExceptUp(heap, i)
      modifies this, invHeap
      ensures IndexSound() && IsHeap(heap) && |heap| == old(|heap|)
      ensures old(IndexValid()) ==> IndexValid() && Queued() == old(Queued())
    {
      var j: nat := i;
      while j > 0 && !First(Parent(j), j)
        invariant j < |heap| == old(|heap|)
        invariant IndexSound() && HeapExceptUp(heap, j)
        invariant old(IndexValid()) ==> IndexValid() && Queued() == old(Queued())
        decreases j
      {
        var p := Parent(j);
        SwapUpStep(heap, j);
        Swap(j, p);
        j := p;
      }
    }

    /** Sifts the entry in slot i down until it comes before both children. `lo` bounds the
        part of the heap whose order is being restored (0 except inside Make). */
    method MoveDownward(i: nat, ghost lo: nat)
      requires IndexSound() && lo <= i < |heap| && HeapExceptDown(heap, lo, i)
      modifies this, invHeap
      ensures IndexSound() && HeapFrom(heap, lo) && |heap| == old(|heap|)
      ensures old(IndexValid()) ==> IndexValid() && Queued() == old(Queued())
      ensures BeforeChildren(old(heap), i) ==> heap == old(heap) && invHeap[..] == old(invHeap[..])
    {
      var j := i;
      while true
        invariant lo <= j < |heap| == old(|heap|)
        invariant IndexSound() && HeapExceptDown(heap, lo, j)
        invariant old(IndexValid()) ==> IndexValid() && Queued() == old(Queued())
        invariant BeforeChildren(old(heap), i) ==> j == i && heap == old(heap) && invHeap[..] == old(invHeap[..])
        decreases |heap| - j
      {
        if 2 * j + 1 >= |heap| {
          DownDone(heap, lo, j);
          break;
        }
        var c := MinChild(j);
        if First(j, c) {
          DownDone(heap, lo, j);
          break;
        }
        SwapDownStep(heap, lo, j, c);
        Swap(j, c);
        j := c;
      }
    }

    /** Restores heap order after slot i has been overwritten, in whichever direction it needs. */
    method MoveUpOrDown(i: nat)
      requires IndexSound() && i < |heap| && HeapExceptAt(heap, i)
      modifies this, invHeap
      ensures IndexSound() && IsHeap(heap) && |heap| == old(|heap|)
      ensures old(IndexValid()) ==> IndexValid() && Queued() == old(Queued())
      ensures InOrderAt(old(heap), i) ==> heap == old(heap) && invHeap[..] == old(invHeap[..])
    {
      if i > 0 && !First(Parent(i), i) {
        NearlyHeapUp(heap, i);
        MoveUp(i);
      } else {
        NearlyHeapDown(heap, i);
        MoveDownward(i, 0);
      }
    }

    /** Puts an arbitrary arrangement into heap order, keeping every vertex's entry. */
    method Make()
      requires IndexSound()
      modifies this, invHeap
      ensures IndexSound() && IsHeap(heap) && |heap| == old(|heap|)
      ensures old(IndexValid()) ==> IndexValid() && Queued() == old(Queued())
    {
      var i := |heap| / 2;
      while i > 0
        invariant 0 <= i <= |heap| / 2 && |heap| == old(|heap|)
        invariant IndexSound() && HeapFrom(heap, i)
        invariant old(IndexValid()) ==> IndexValid() && Queued() == old(Queued())
      {
        i := i - 1;
        MoveDownward(i, i);
      }
    }

    /** Removes the root entry and returns its (src, dst): the queued entry that comes first. */
    method Pop() returns (src: nat, dst: nat)
      requires Valid() && |heap| > 0
      modifies this, invHeap
      ensures Valid()
      ensures src == old(heap[0].src) && dst == old(heap[0].dst)
      ensures src in old(Queued()) && old(Queued())[src] == old(heap[0])
      ensures forall u :: u in old(Queued()) ==> old(heap[0].badness) <= old(Queued())[u].badness
      ensures Queued() == old(Queued()) - {src}
      ensures |heap| == old(|heap|) - 1
    {
      var e := heap[0];
      ghost var q: map<nat, Entry> := Queued();
      QueuedIsHeap(heap, invHeap[..]);
      forall u | u in q
        ensures e.badness <= q[u].badness
      {
        RootIsMinimum(heap, invHeap[u]);
      }
      invHeap[e.src] := -1;
      var p := heap[|heap| - 1];
      heap := heap[..|heap| - 1];
      PrefixIsHeap(old(heap), |heap|);
      if |heap| > 0 {
        OverwriteNearlyHeap(heap, 0, p);
        heap := heap[0 := p];
        invHeap[p.src] := 0;
      }
      RemoveIndexed(old(heap), old(invHeap[..]), e.src, heap, invHeap[..]);
      if |heap| > 0 {
        MoveDownward(0, 0);
      }
      src, dst := e.src, e.dst;
    }

    /** set(v, q, dst) as the intended behaviour: v ends with exactly the entry (v, q, dst).
        A new entry's index is recorded on append, as the seeding loop does. */
    method Set(v: nat, q: real, dst: nat)
      requires Valid() && v < invHeap.Length
      modifies this, invHeap
      ensures Valid()
      ensures Queued() == old(Queued())[v := Entry(v, q, dst)]
      ensures |heap| == old(|heap|) + (if v in old(Queued()) then 0 else 1)
    {
      var entry := Entry(v, q, dst);
      var i := invHeap[v];
      if i < 0 {
        AppendNearlyHeap(heap, entry);
        heap := heap + [entry];
        i := |heap| - 1;
        invHeap[v] := i;
      } else {
        OverwriteNearlyHeap(heap, i, entry);
        heap := heap[i := entry];
      }
      if old(invHeap[v]) < 0 {
        AppendIndexed(old(heap), old(invHeap[..]), entry, heap, invHeap[..]);
      } else {
        OverwriteIndexed(old(heap), old(invHeap[..]), entry, heap);
      }
      MoveUpOrDown(i);
    }

    /** set(v, q, dst) as written: on append, inv_heap[v] is never assigned, so a new entry
        that does not move up stays unindexed: it sits in the heap, yet v has no queued entry. */
    method SetAsWritten(v: nat, q: real, dst: nat)
      requires Valid() && v < invHeap.Length
      modifies this, invHeap
      ensures IndexSound() && IsHeap(heap)
      ensures v in old(Queued()) ==> Valid() && Queued() == old(Queued())[v := Entry(v, q, dst)]
      ensures v !in old(Queued()) && (old(|heap|) == 0 || old(heap)[Parent(old(|heap|))].badness <= q) ==>
        heap == old(heap) + [Entry(v, q, dst)] && invHeap[v] == -1 && v !in Queued()
    {
      var entry := Entry(v, q, dst);
      var i := invHeap[v];
      if i < 0 {
        AppendNearlyHeap(heap, entry);
        heap := heap + [entry];
        i := |heap| - 1;
      } else {
        OverwriteNearlyHeap(heap, i, entry);
        heap := heap[i := entry];
        OverwriteIndexed(old(heap), old(invHeap[..]), entry, heap);
      }
      MoveUpOrDown(i);
    }

    /** Removes v's entry, if any; the last entry takes its slot and is re-sifted. */
    method Erase(v: nat)
      requires Valid() && v < invHeap.Length
      modifies this, invHeap
      ensures Valid()
      ensures Queued() == old(Queued()) - {v}
      ensures |heap| == old(|heap|) - (if v in old(Queued()) then 1 else 0)
      ensures v !in old(Queued()) ==> heap == old(heap) && invHeap[..] == old(invHeap[..])
    {
      var i := invHeap[v];
      if i >= 0 {
        var p := heap[|heap| - 1];
        heap := heap[..|heap| - 1];
        PrefixIsHeap(old(heap), |heap|);
        // The source clears v's index after the sift; the sift never touches it, so
        // clearing it first is the same and keeps the index sound during the sift.
        invHeap[v] := -1;
        if i < |heap| {
          OverwriteNearlyHeap(heap, i, p);
          heap := heap[i := p];
          invHeap[p.src] := i;
        }
        RemoveIndexed(old(heap), old(invHeap[..]), v, heap, invHeap[..]);
        if i < |heap| {
          MoveUpOrDown(i);
        }
      } else {
        assert v !in Queued();
      }
    }
  }

  /** The as-written set on an empty heap: the vertex's entry is in the heap but not reachable
      through the index, so the index invariant fails and a later erase(0) would miss it. */
  method SetAsWrittenLosesIndex() returns (h: Heap)
    ensures |h.heap| == 1 && h.heap[0] == Entry(0, 0.0, 0)
    ensures h.invHeap.Length == 1 && h.invHeap[0] == -1 && 0 !in h.Queued()
    ensures !h.IndexValid()
  {
    h := new Heap(1);
    h.SetAsWritten(0, 0.0, 0);
  }
}
