/** The decimation driver (geode/mesh/decimate.cpp:75-235): seed a heap with the cheapest
    collapse of every vertex whose quadric error is within distance^2, then repeatedly pop
    the cheapest one, check that it still applies and is allowed, collapse it, and refresh
    the heap entries of the surviving vertex and its neighbours, until the heap is empty or
    the mesh is down to min_vertices.

    The quadric computation, the boundary-distance test and the normal-bend test read vertex
    positions, which the driver never changes; the collapse-safety test is a topological
    query of the mesh, whose structure is not modelled here. All four are given as the
    functions of `Oracles`, evaluated on the current topology. */
module Decimate {
  import opened HeapOrder
  import opened CollapseHeap
  import opened MeshTopology

  /** best_collapse(v): the quadric error of v's cheapest collapse, and its destination. */
  datatype Candidate = Candidate(score: real, dst: nat)

  datatype Oracles = Oracles(
    bestCollapse: (Topology, nat) -> Candidate,
    /** mesh.is_collapse_safe(e) for the halfedge src -> dst. */
    isCollapseSafe: (Topology, nat, nat) -> bool,
    /** src is a boundary vertex and dst lies farther than boundary_distance from one of
        src's two boundary lines. */
    boundaryFar: (Topology, nat, nat) -> bool,
    /** Some face around src would turn further than max_angle. */
    normalsBend: (Topology, nat, nat) -> bool)

  /** One collapse the driver performed: src merged into dst, popped with this score. */
  datatype Step = Step(src: nat, dst: nat, score: real)

  /** All the checks the driver makes before collapsing src into dst. */
  ghost predicate CollapseAllowed(o: Oracles, signSqrMinCos: real, t: Topology, s: nat, d: nat)
  {
    s in t.valid && d in t.valid && (s, d) in t.halfedges &&
    o.isCollapseSafe(t, s, d) &&
    !o.boundaryFar(t, s, d) &&
    !(signSqrMinCos > -1.0 && o.normalsBend(t, s, d))
  }

  /** The topology after performing the logged collapses in order. */
  function Replay(t0: Topology, log: seq<Step>): Topology
  {
    if log == [] then t0
    else
      var last := log[|log| - 1];
      Collapse(Replay(t0, log[..|log| - 1]), last.src, last.dst)
  }

  /** A logged step was allowed, was taken above the vertex floor, and had been admitted. */
  ghost predicate StepAllowed(o: Oracles, signSqrMinCos: real, minVertices: int, area: real, t: Topology, st: Step)
  {
    CollapseAllowed(o, signSqrMinCos, t, st.src, st.dst) && |t.valid| > minVertices && st.score <= area
  }

  ghost predicate LogAllowed(o: Oracles, signSqrMinCos: real, minVertices: int, area: real, t0: Topology, log: seq<Step>)
  {
    forall i :: 0 <= i < |log| ==> StepAllowed(o, signSqrMinCos, minVertices, area, Replay(t0, log[..i]), log[i])
  }

  /** The entry best_collapse gives vertex u on topology t. */
  function EntryFor(o: Oracles, t: Topology, u: nat): Entry
  {
    Entry(u, o.bestCollapse(t, u).score, o.bestCollapse(t, u).dst)
  }

  /** Vertex u is queued only when its best collapse costs at most distance^2. */
  predicate Admissible(o: Oracles, t: Topology, area: real, u: nat)
  {
    o.bestCollapse(t, u).score <= area
  }

  /** The queue after seeding: every valid, admissible vertex with its best collapse. */
  function Seeded(o: Oracles, t: Topology, area: real): map<nat, Entry>
  {
    map u: nat | u in t.valid && Admissible(o, t, area, u) :: EntryFor(o, t, u)
  }

  /** The queue after update(v). */
  function Refresh(o: Oracles, t: Topology, area: real, q: map<nat, Entry>, v: nat): map<nat, Entry>
  {
    if Admissible(o, t, area, v) then q[v := EntryFor(o, t, v)] else q - {v}
  }

  /** The queue after update(w) for every w in ws, in any order. */
  function RefreshAll(o: Oracles, t: Topology, area: real, q: map<nat, Entry>, ws: set<nat>): map<nat, Entry>
  {
    map u: nat | u in (q.Keys - ws) + (set w | w in ws && Admissible(o, t, area, w)) ::
      if u in ws then EntryFor(o, t, u) else q[u]
  }

  /** Every queued collapse is within distance^2. */
  ghost predicate WithinArea(q: map<nat, Entry>, area: real)
  {
    forall u :: u in q ==> q[u].badness <= area
  }

  /** The driver's state between two pops: the mesh and the queued collapses. */
  datatype Config = Config(t: Topology, q: map<nat, Entry>)

  /** The state the loop starts from: the mesh as given and the seeded queue. */
  function Start(o: Oracles, t0: Topology, area: real): Config
  {
    Config(t0, Seeded(o, t0, area))
  }

  /** The loop goes on while the heap is not empty and the mesh is above the floor. */
  predicate Running(c: Config, minVertices: int)
  {
    c.q != map[] && |c.t.valid| > minVertices
  }

  /** e is what pop() may return: a queued entry with the least badness. */
  ghost predicate Cheapest(q: map<nat, Entry>, e: Entry)
  {
    e.src in q && q[e.src] == e && forall u :: u in q ==> e.badness <= q[u].badness
  }

  /** One pass of the loop after popping e: drop it; if it still applies and passes every
      check, collapse it, and unless that reaches the floor, update dst and then each vertex
      at the end of a halfedge leaving dst. */
  ghost function Next(o: Oracles, signSqrMinCos: real, minVertices: int, area: real, c: Config, e: Entry): Config
  {
    var q := c.q - {e.src};
    if !CollapseAllowed(o, signSqrMinCos, c.t, e.src, e.dst) then Config(c.t, q)
    else
      var t := Collapse(c.t, e.src, e.dst);
      if |t.valid| <= minVertices then Config(t, q)
      else Config(t, RefreshAll(o, t, area, Refresh(o, t, area, q, e.dst), Outgoing(t, e.dst)))
  }

  /** The state after popping the entries of `pops` in order. */
  ghost function RunOf(o: Oracles, signSqrMinCos: real, minVertices: int, area: real, c0: Config, pops: seq<Entry>): Config
  {
    if pops == [] then c0
    else Next(o, signSqrMinCos, minVertices, area, RunOf(o, signSqrMinCos, minVertices, area, c0, pops[..|pops| - 1]), pops[|pops| - 1])
  }

  /** Every pop happened while the loop was running and took a cheapest queued entry. */
  ghost predicate GreedyRun(o: Oracles, signSqrMinCos: real, minVertices: int, area: real, c0: Config, pops: seq<Entry>)
  {
    forall i :: 0 <= i < |pops| ==>
      var c := RunOf(o, signSqrMinCos, minVertices, area, c0, pops[..i]);
      Running(c, minVertices) && Cheapest(c.q, pops[i])
  }

  /** The collapses a run performs: exactly the popped entries that passed every check. */
  ghost function Taken(o: Oracles, signSqrMinCos: real, minVertices: int, area: real, c0: Config, pops: seq<Entry>): seq<Step>
  {
    if pops == [] then []
    else
      var n := |pops| - 1;
      var e := pops[n];
      var c := RunOf(o, signSqrMinCos, minVertices, area, c0, pops[..n]);
      Taken(o, signSqrMinCos, minVertices, area, c0, pops[..n]) +
        (if CollapseAllowed(o, signSqrMinCos, c.t, e.src, e.dst) then [Step(e.src, e.dst, e.badness)] else [])
  }

  // ---------------------------------------------------------------------------

  lemma ReplayAppend(t0: Topology, log: seq<Step>, st: Step)
    ensures Replay(t0, log + [st]) == Collapse(Replay(t0, log), st.src, st.dst)
  {
    assert (log + [st])[..|log|] == log;
  }

  /** The valid vertices after a run are the initial ones minus the collapsed sources. */
  lemma {:induction false} ReplayValid(t0: Topology, log: seq<Step>)
    ensures Replay(t0, log).valid == t0.valid - set i | 0 <= i < |log| :: log[i].src
  {
    if log != [] {
      var n := |log| - 1;
      var prefix := log[..n];
      ReplayValid(t0, prefix);
      assert (set i | 0 <= i < |log| :: log[i].src) == (set i | 0 <= i < n :: prefix[i].src) + {log[n].src} by {
        forall i | 0 <= i < n
          ensures prefix[i] == log[i]
        {
        }
      }
    }
  }

  /** An allowed run from a well-formed mesh keeps it well formed and removes one vertex per
      step, so it never goes below the floor by more than the last step. */
  lemma {:induction false} ReplayShrinks(o: Oracles, signSqrMinCos: real, minVertices: int, area: real,
                                         t0: Topology, capacity: nat, log: seq<Step>)
    requires WellFormed(t0, capacity) && LogAllowed(o, signSqrMinCos, minVertices, area, t0, log)
    ensures WellFormed(Replay(t0, log), capacity)
    ensures |Replay(t0, log).valid| == |t0.valid| - |log|
    ensures log != [] ==> |Replay(t0, log).valid| >= minVertices
  {
    if log != [] {
      var n := |log| - 1;
      var prefix := log[..n];
      forall i | 0 <= i < |prefix|
        ensures StepAllowed(o, signSqrMinCos, minVertices, area, Replay(t0, prefix[..i]), prefix[i])
      {
        assert prefix[..i] == log[..i];
      }
      ReplayShrinks(o, signSqrMinCos, minVertices, area, t0, capacity, prefix);
      assert StepAllowed(o, signSqrMinCos, minVertices, area, Replay(t0, log[..n]), log[n]);
      CollapseWellFormed(Replay(t0, prefix), capacity, log[n].src, log[n].dst);
    }
  }

  lemma LogAllowedAppend(o: Oracles, signSqrMinCos: real, minVertices: int, area: real,
                         t0: Topology, log: seq<Step>, st: Step)
    requires LogAllowed(o, signSqrMinCos, minVertices, area, t0, log)
    requires StepAllowed(o, signSqrMinCos, minVertices, area, Replay(t0, log), st)
    ensures LogAllowed(o, signSqrMinCos, minVertices, area, t0, log + [st])
  {
    var log' := log + [st];
    forall i | 0 <= i < |log'|
      ensures StepAllowed(o, signSqrMinCos, minVertices, area, Replay(t0, log'[..i]), log'[i])
    {
      assert log'[..i] == log[..i] || i == |log|;
      if i == |log| {
        assert log'[..i] == log;
      }
    }
  }

  lemma RefreshNone(o: Oracles, t: Topology, area: real, q: map<nat, Entry>)
    ensures RefreshAll(o, t, area, q, {}) == q
  {
  }

  /** Refreshing one more vertex extends a refresh of the others: the order of the updates
      around a collapse does not matter. */
  lemma RefreshOneMore(o: Oracles, t: Topology, area: real, q: map<nat, Entry>, ws: set<nat>, w: nat)
    requires w !in ws
    ensures RefreshAll(o, t, area, q, ws + {w}) == Refresh(o, t, area, RefreshAll(o, t, area, q, ws), w)
  {
    var l := RefreshAll(o, t, area, q, ws + {w});
    var r := Refresh(o, t, area, RefreshAll(o, t, area, q, ws), w);
    forall u | u in l
      ensures u in r && l[u] == r[u]
    {
    }
    forall u | u in r
      ensures u in l
    {
    }
  }

  lemma RefreshKeepsWithin(o: Oracles, t: Topology, area: real, q: map<nat, Entry>, v: nat)
    requires WithinArea(q, area)
    ensures WithinArea(Refresh(o, t, area, q, v), area)
  {
  }

  /** Refreshing keeps every queued collapse within distance^2. */
  lemma RefreshWithin(o: Oracles, t: Topology, area: real, q: map<nat, Entry>, ws: set<nat>)
    requires WithinArea(q, area)
    ensures WithinArea(RefreshAll(o, t, area, q, ws), area)
  {
  }

  /** Extending a run by one pop. */
  lemma RunAppend(o: Oracles, signSqrMinCos: real, minVertices: int, area: real, c0: Config, pops: seq<Entry>, e: Entry)
    ensures RunOf(o, signSqrMinCos, minVertices, area, c0, pops + [e]) ==
            Next(o, signSqrMinCos, minVertices, area, RunOf(o, signSqrMinCos, minVertices, area, c0, pops), e)
    ensures var c := RunOf(o, signSqrMinCos, minVertices, area, c0, pops);
            Taken(o, signSqrMinCos, minVertices, area, c0, pops + [e]) ==
            Taken(o, signSqrMinCos, minVertices, area, c0, pops) +
              (if CollapseAllowed(o, signSqrMinCos, c.t, e.src, e.dst) then [Step(e.src, e.dst, e.badness)] else [])
  {
    assert (pops + [e])[..|pops|] == pops;
  }

  lemma GreedyRunAppend(o: Oracles, signSqrMinCos: real, minVertices: int, area: real, c0: Config, pops: seq<Entry>, e: Entry)
    requires GreedyRun(o, signSqrMinCos, minVertices, area, c0, pops)
    requires Running(RunOf(o, signSqrMinCos, minVertices, area, c0, pops), minVertices)
    requires Cheapest(RunOf(o, signSqrMinCos, minVertices, area, c0, pops).q, e)
    ensures GreedyRun(o, signSqrMinCos, minVertices, area, c0, pops + [e])
  {
    var p := pops + [e];
    forall i | 0 <= i < |p|
      ensures var c := RunOf(o, signSqrMinCos, minVertices, area, c0, p[..i]);
              Running(c, minVertices) && Cheapest(c.q, p[i])
    {
      assert p[..i] == pops[..i] || i == |pops|;
      if i == |pops| {
        assert p[..i] == pops;
      }
    }
  }

  lemma GreedyRunPrefix(o: Oracles, signSqrMinCos: real, minVertices: int, area: real, c0: Config, pops: seq<Entry>, n: nat)
    requires GreedyRun(o, signSqrMinCos, minVertices, area, c0, pops) && n <= |pops|
    ensures GreedyRun(o, signSqrMinCos, minVertices, area, c0, pops[..n])
  {
    var prefix := pops[..n];
    forall i | 0 <= i < |prefix|
      ensures var c := RunOf(o, signSqrMinCos, minVertices, area, c0, prefix[..i]);
              Running(c, minVertices) && Cheapest(c.q, prefix[i])
    {
      assert prefix[..i] == pops[..i];
    }
  }

  /** One pass of the loop from a state reached by an allowed log extends that log by the
      collapse it takes, if any, and keeps the queue within distance^2. */
  lemma NextIsAllowed(o: Oracles, signSqrMinCos: real, minVertices: int, area: real,
                      t0: Topology, c: Config, log: seq<Step>, e: Entry)
    requires c.t == Replay(t0, log) && LogAllowed(o, signSqrMinCos, minVertices, area, t0, log)
    requires WithinArea(c.q, area) && Running(c, minVertices) && Cheapest(c.q, e)
    ensures var log' := log + (if CollapseAllowed(o, signSqrMinCos, c.t, e.src, e.dst) then [Step(e.src, e.dst, e.badness)] else []);
            var c' := Next(o, signSqrMinCos, minVertices, area, c, e);
            c'.t == Replay(t0, log') && LogAllowed(o, signSqrMinCos, minVertices, area, t0, log') && WithinArea(c'.q, area)
  {
    var q := c.q - {e.src};
    if CollapseAllowed(o, signSqrMinCos, c.t, e.src, e.dst) {
      var st := Step(e.src, e.dst, e.badness);
      assert StepAllowed(o, signSqrMinCos, minVertices, area, Replay(t0, log), st);
      LogAllowedAppend(o, signSqrMinCos, minVertices, area, t0, log, st);
      ReplayAppend(t0, log, st);
      var t := Collapse(c.t, e.src, e.dst);
      RefreshKeepsWithin(o, t, area, q, e.dst);
      RefreshWithin(o, t, area, Refresh(o, t, area, q, e.dst), Outgoing(t, e.dst));
    } else {
      assert log + [] == log;
    }
  }

  /** A greedy run from the seeded queue performs exactly the collapses of an allowed log:
      its mesh is the replay of the collapses it took, each of which passed every check above
      the floor with a badness within distance^2, and its queue stays within distance^2. */
  lemma {:induction false} GreedyRunIsAllowed(o: Oracles, signSqrMinCos: real, minVertices: int, area: real,
                                              t0: Topology, pops: seq<Entry>)
    requires GreedyRun(o, signSqrMinCos, minVertices, area, Start(o, t0, area), pops)
    ensures var c := RunOf(o, signSqrMinCos, minVertices, area, Start(o, t0, area), pops);
            var log := Taken(o, signSqrMinCos, minVertices, area, Start(o, t0, area), pops);
            c.t == Replay(t0, log) && LogAllowed(o, signSqrMinCos, minVertices, area, t0, log) && WithinArea(c.q, area)
  {
    var c0 := Start(o, t0, area);
    if pops != [] {
      var n := |pops| - 1;
      var prefix := pops[..n];
      GreedyRunPrefix(o, signSqrMinCos, minVertices, area, c0, pops, n);
      GreedyRunIsAllowed(o, signSqrMinCos, minVertices, area, t0, prefix);
      var c := RunOf(o, signSqrMinCos, minVertices, area, c0, prefix);
      assert Running(c, minVertices) && Cheapest(c.q, pops[n]);
      NextIsAllowed(o, signSqrMinCos, minVertices, area, t0, c, Taken(o, signSqrMinCos, minVertices, area, c0, prefix), pops[n]);
      RunAppend(o, signSqrMinCos, minVertices, area, c0, prefix, pops[n]);
      assert prefix + [pops[n]] == pops;
    }
  }

  /** The first pop happens only on a running start and takes a cheapest seeded entry. */
  lemma GreedyRunFirst(o: Oracles, signSqrMinCos: real, minVertices: int, area: real, c0: Config, pops: seq<Entry>)
    requires GreedyRun(o, signSqrMinCos, minVertices, area, c0, pops) && pops != []
    ensures Running(c0, minVertices) && Cheapest(c0.q, pops[0])
  {
    assert pops[..0] == [];
  }

  /** When no vertex is seeded, nothing is collapsed. */
  lemma NothingSeededNothingTaken(o: Oracles, signSqrMinCos: real, minVertices: int, area: real,
                                  t0: Topology, pops: seq<Entry>)
    requires GreedyRun(o, signSqrMinCos, minVertices, area, Start(o, t0, area), pops)
    requires Seeded(o, t0, area) == map[]
    ensures pops == [] && Taken(o, signSqrMinCos, minVertices, area, Start(o, t0, area), pops) == []
  {
    if pops != [] {
      GreedyRunFirst(o, signSqrMinCos, minVertices, area, Start(o, t0, area), pops);
      assert false;
    }
  }

  // ---------------------------------------------------------------------------

  /** Builds the initial heap: every valid vertex whose best collapse is within distance^2
      gets that collapse as its entry, then the heap is ordered. */
  method SeedHeap(mesh: Mesh, o: Oracles, area: real) returns (heap: Heap)
    requires mesh.Wf()
    ensures fresh(heap) && fresh(heap.invHeap)
    ensures heap.Valid() && heap.invHeap.Length == mesh.capacity
    ensures heap.Queued() == Seeded(o, mesh.State(), area)
  {
    heap := new Heap(mesh.capacity);
    var t := mesh.State();
    var v := 0;
    while v < mesh.capacity
      invariant 0 <= v <= mesh.capacity && fresh(heap) && fresh(heap.invHeap)
      invariant heap.IndexValid() && heap.invHeap.Length == mesh.capacity
      invariant forall u :: v <= u < mesh.capacity ==> heap.invHeap[u] == -1
      invariant heap.Queued() == map u: nat | u < v && u in t.valid && Admissible(o, t, area, u) :: EntryFor(o, t, u)
    {
      if v in mesh.valid {
        var c := o.bestCollapse(mesh.State(), v);
        if c.score <= area {
          ghost var h, inv := heap.heap, heap.invHeap[..];
          heap.heap := heap.heap + [Entry(v, c.score, c.dst)];
          heap.invHeap[v] := |heap.heap| - 1;
          AppendIndexed(h, inv, Entry(v, c.score, c.dst), heap.heap, heap.invHeap[..]);
        }
      }
      v := v + 1;
    }
    heap.Make();
  }

  /** update(v): re-queue v with its current best collapse, or drop it if that is too costly. */
  method Update(heap: Heap, o: Oracles, t: Topology, v: nat, area: real)
    requires heap.Valid() && v < heap.invHeap.Length
    modifies heap, heap.invHeap
    ensures heap.Valid()
    ensures heap.Queued() == Refresh(o, t, area, old(heap.Queued()), v)
  {
    var c := o.bestCollapse(t, v);
    if c.score <= area {
      heap.Set(v, c.score, c.dst);
    } else {
      heap.Erase(v);
    }
  }

  /** Updates every vertex at the end of a halfedge leaving d, in an unspecified order. */
  method UpdateAround(heap: Heap, o: Oracles, mesh: Mesh, d: nat, area: real)
    requires mesh.Wf() && heap.Valid() && heap.invHeap.Length == mesh.capacity
    modifies heap, heap.invHeap
    ensures heap.Valid()
    ensures heap.Queued() == RefreshAll(o, mesh.State(), area, old(heap.Queued()), Outgoing(mesh.State(), d))
  {
    var t := mesh.State();
    var around := Outgoing(t, d);
    RefreshNone(o, t, area, heap.Queued());
    while around != {}
      invariant heap.Valid()
      invariant around <= Outgoing(t, d)
      invariant heap.Queued() == RefreshAll(o, t, area, old(heap.Queued()), Outgoing(t, d) - around)
      decreases |around|
    {
      var w :| w in around;
      RefreshOneMore(o, t, area, old(heap.Queued()), Outgoing(t, d) - around, w);
      assert (Outgoing(t, d) - around) + {w} == Outgoing(t, d) - (around - {w});
      Update(heap, o, t, w, area);
      around := around - {w};
    }
  }

  /** decimate_inplace: returns, as ghost outputs, the entries it popped and the collapses
      it performed. The pops form a greedy run of the loop that ended with an empty heap or
      at the floor, and the collapses are exactly those of that run. */
  method DecimateInPlace(mesh: Mesh, o: Oracles, distance: real, signSqrMinCos: real, minVertices: int)
    returns (ghost pops: seq<Entry>, ghost log: seq<Step>)
    requires mesh.Wf()
    modifies mesh
    ensures mesh.Wf()
    ensures var c0 := Start(o, old(mesh.State()), distance * distance);
            GreedyRun(o, signSqrMinCos, minVertices, distance * distance, c0, pops) &&
            !Running(RunOf(o, signSqrMinCos, minVertices, distance * distance, c0, pops), minVertices) &&
            mesh.State() == RunOf(o, signSqrMinCos, minVertices, distance * distance, c0, pops).t &&
            log == Taken(o, signSqrMinCos, minVertices, distance * distance, c0, pops)
    ensures old(mesh.NVertices()) <= minVertices ==> log == [] && mesh.State() == old(mesh.State())
    ensures mesh.State() == Replay(old(mesh.State()), log)
    ensures LogAllowed(o, signSqrMinCos, minVertices, distance * distance, old(mesh.State()), log)
    ensures mesh.NVertices() == old(mesh.NVertices()) - |log|
    ensures old(mesh.NVertices()) > minVertices ==> mesh.NVertices() >= minVertices
  {
    pops, log := [], [];
    var area := distance * distance;
    ghost var t0 := mesh.State();
    ghost var c0 := Start(o, t0, area);
    if mesh.NVertices() <= minVertices {
      return;
    }
    var heap := SeedHeap(mesh, o, area);
    while heap.Size() > 0
      invariant fresh(heap) && fresh(heap.invHeap)
      invariant mesh.Wf() && heap.Valid() && heap.invHeap.Length == mesh.capacity
      invariant GreedyRun(o, signSqrMinCos, minVertices, area, c0, pops)
      invariant RunOf(o, signSqrMinCos, minVertices, area, c0, pops) == Config(mesh.State(), heap.Queued())
      invariant log == Taken(o, signSqrMinCos, minVertices, area, c0, pops)
      invariant mesh.NVertices() > minVertices
      decreases mesh.NVertices(), heap.Size()
    {
      ghost var e := heap.heap[0];
      ghost var c := Config(mesh.State(), heap.Queued());
      heap.SizeIsQueuedCount();
      var s, d := heap.Pop();
      assert Cheapest(c.q, e) && Running(c, minVertices);
      GreedyRunAppend(o, signSqrMinCos, minVertices, area, c0, pops, e);
      RunAppend(o, signSqrMinCos, minVertices, area, c0, pops, e);
      pops := pops + [e];
      // Do these vertices still exist, and is there a halfedge s -> d that may collapse?
      if s in mesh.valid && d in mesh.valid && (s, d) in mesh.halfedges && o.isCollapseSafe(mesh.State(), s, d) {
        if o.boundaryFar(mesh.State(), s, d) {
          continue;
        }
        if signSqrMinCos > -1.0 && o.normalsBend(mesh.State(), s, d) {
          continue;
        }
        log := log + [Step(s, d, e.badness)];
        mesh.UnsafeCollapse(s, d);
        if mesh.NVertices() <= minVertices {
          break;
        }
        Update(heap, o, mesh.State(), d, area);
        UpdateAround(heap, o, mesh, d, area);
      }
    }
    if mesh.NVertices() > minVertices {
      // The loop ran out of entries rather than reaching the floor.
      heap.SizeIsQueuedCount();
      assert heap.Queued() == map[];
    }
    assert !Running(RunOf(o, signSqrMinCos, minVertices, area, c0, pops), minVertices);
    assert t0 == old(mesh.State());
    GreedyRunIsAllowed(o, signSqrMinCos, minVertices, area, t0, pops);
    ReplayShrinks(o, signSqrMinCos, minVertices, area, t0, mesh.capacity, log);
  }

  /** decimate: runs decimate_inplace on a copy, leaving the input mesh untouched. */
  method Decimate(mesh: Mesh, o: Oracles, distance: real, signSqrMinCos: real, minVertices: int)
    returns (result: Mesh, ghost pops: seq<Entry>, ghost log: seq<Step>)
    requires mesh.Wf()
    ensures fresh(result) && result.Wf() && result.capacity == mesh.capacity
    ensures var c0 := Start(o, mesh.State(), distance * distance);
            GreedyRun(o, signSqrMinCos, minVertices, distance * distance, c0, pops) &&
            !Running(RunOf(o, signSqrMinCos, minVertices, distance * distance, c0, pops), minVertices) &&
            result.State() == RunOf(o, signSqrMinCos, minVertices, distance * distance, c0, pops).t &&
            log == Taken(o, signSqrMinCos, minVertices, distance * distance, c0, pops)
    ensures mesh.NVertices() <= minVertices ==> log == [] && result.State() == mesh.State()
    ensures result.State() == Replay(mesh.State(), log)
    ensures LogAllowed(o, signSqrMinCos, minVertices, distance * distance, mesh.State(), log)
    ensures result.NVertices() == mesh.NVertices() - |log|
    ensures mesh.NVertices() > minVertices ==> result.NVertices() >= minVertices
  {
    result := new Mesh.Copy(mesh);
    pops, log := DecimateInPlace(result, o, distance, signSqrMinCos, minVertices);
  }
}
