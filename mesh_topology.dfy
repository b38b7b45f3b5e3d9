/** The mesh the decimation driver works on (a MutableTriangleTopology in the source),
    reduced to what the driver observes: which vertex ids are valid, and which halfedges
    (directed src -> dst pairs) exist. Faces, positions and the halfedge records themselves
    are not part of this model. Collapsing the halfedge src -> dst merges src into dst: src
    stops being valid and every halfedge at src now runs from or to dst, dropping the ones
    that would join dst to itself (the adjacency effect of an edge collapse). */
module MeshTopology {

  datatype Topology = Topology(valid: set<nat>, halfedges: set<(nat, nat)>)

  /** Valid ids lie below the id capacity, and halfedges join two distinct valid vertices. */
  ghost predicate WellFormed(t: Topology, capacity: nat)
  {
    (forall v :: v in t.valid ==> v < capacity) &&
    (forall e :: e in t.halfedges ==> e.0 in t.valid && e.1 in t.valid && e.0 != e.1)
  }

  function Rename(x: nat, s: nat, d: nat): nat
  {
    if x == s then d else x
  }

  /** The topology after collapsing the halfedge s -> d. */
  function Collapse(t: Topology, s: nat, d: nat): Topology
  {
    Topology(
      t.valid - {s},
      set e | e in t.halfedges && Rename(e.0, s, d) != Rename(e.1, s, d) :: (Rename(e.0, s, d), Rename(e.1, s, d)))
  }

  /** The destinations of the halfedges leaving v. */
  function Outgoing(t: Topology, v: nat): set<nat>
  {
    set e | e in t.halfedges && e.0 == v :: e.1
  }

  /** A collapse keeps the mesh well formed and removes exactly one vertex. */
  lemma CollapseWellFormed(t: Topology, capacity: nat, s: nat, d: nat)
    requires WellFormed(t, capacity) && (s, d) in t.halfedges
    ensures WellFormed(Collapse(t, s, d), capacity)
    ensures Collapse(t, s, d).valid == t.valid - {s} && |Collapse(t, s, d).valid| == |t.valid| - 1
  {
    var r := Collapse(t, s, d);
    forall e | e in r.halfedges
      ensures e.0 in r.valid && e.1 in r.valid && e.0 != e.1
    {
      var f :| f in t.halfedges && Rename(f.0, s, d) != Rename(f.1, s, d) && e == (Rename(f.0, s, d), Rename(f.1, s, d));
    }
  }

  /** After collapsing s -> d, the neighbours of d are the former neighbours of s and of d. */
  lemma CollapseNeighbours(t: Topology, capacity: nat, s: nat, d: nat)
    requires WellFormed(t, capacity) && (s, d) in t.halfedges
    ensures Outgoing(Collapse(t, s, d), d) == (Outgoing(t, s) + Outgoing(t, d)) - {s, d}
  {
    var r := Collapse(t, s, d);
    forall w | w in (Outgoing(t, s) + Outgoing(t, d)) - {s, d}
      ensures w in Outgoing(r, d)
    {
      var f := if (s, w) in t.halfedges then (s, w) else (d, w);
      assert f in t.halfedges && (Rename(f.0, s, d), Rename(f.1, s, d)) == (d, w);
    }
    forall w | w in Outgoing(r, d)
      ensures w in (Outgoing(t, s) + Outgoing(t, d)) - {s, d}
    {
      var f :| f in t.halfedges && Rename(f.0, s, d) != Rename(f.1, s, d) && (d, w) == (Rename(f.0, s, d), Rename(f.1, s, d));
      assert f.1 != s;
    }
  }

  /** The mutable mesh, updated in place by collapses. */
  class Mesh {
    /** The id capacity that sizes the heap's index (n_vertices_). The model assumes every
        vertex id is below it; collapses do not change it. */
    const capacity: nat
    var valid: set<nat>
    var halfedges: set<(nat, nat)>

    function State(): Topology
      reads this
    {
      Topology(valid, halfedges)
    }

    ghost predicate Wf()
      reads this
    {
      WellFormed(State(), capacity)
    }

    function NVertices(): nat
      reads this
    {
      |valid|
    }

    constructor (capacity: nat, t: Topology)
      requires WellFormed(t, capacity)
      ensures this.capacity == capacity && State() == t && Wf()
    {
      this.capacity := capacity;
      valid := t.valid;
      halfedges := t.halfedges;
    }

    /** A fresh mesh with the same contents (mutate() on an immutable mesh). */
    constructor Copy(other: Mesh)
      requires other.Wf()
      ensures capacity == other.capacity && State() == other.State() && Wf()
    {
      capacity := other.capacity;
      valid := other.valid;
      halfedges := other.halfedges;
    }

    /** Merges s into d along the halfedge s -> d. */
    method UnsafeCollapse(s: nat, d: nat)
      requires Wf() && (s, d) in halfedges
      modifies this
      ensures State() == Collapse(old(State()), s, d) && Wf()
      ensures NVertices() == old(NVertices()) - 1
    {
      CollapseWellFormed(State(), capacity, s, d);
      var t := Collapse(State(), s, d);
      valid := t.valid;
      halfedges := t.halfedges;
    }
  }
}
