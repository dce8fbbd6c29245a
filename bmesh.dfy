/** An abstract view of a Blender BMesh.
    Vertices are the ids 0 .. vertCount - 1. An edge or a face is identified
    by its index in `edges` or `faces`. The selection flags of edges and
    faces are carried; positions are not (every geometric quantity the core
    needs is supplied from outside as a real number). */
module BMesh {

  datatype Edge = Edge(v0: nat, v1: nat, select: bool)

  /** A face is the cycle of its vertices, in winding order. */
  datatype Face = Face(verts: seq<nat>, select: bool)

  datatype Mesh = Mesh(vertCount: nat, edges: seq<Edge>, faces: seq<Face>)
  {
    /** What the host guarantees of every mesh it hands out. */
    ghost predicate Valid() {
      && (forall k :: 0 <= k < |edges| ==>
            edges[k].v0 < vertCount && edges[k].v1 < vertCount && edges[k].v0 != edges[k].v1)
      && (forall f :: 0 <= f < |faces| ==> |faces[f].verts| >= 3)
      && (forall f, i :: 0 <= f < |faces| && 0 <= i < |faces[f].verts| ==> faces[f].verts[i] < vertCount)
    }

    /** There is an edge between `a` and `b`. */
    ghost predicate Adjacent(a: nat, b: nat) {
      exists k :: 0 <= k < |edges| && Joins(edges[k], a, b)
    }

    /** BMVert.link_edges: the indices of the edges at `v`, in index order. */
    function LinkEdges(v: nat): (r: seq<nat>)
      ensures forall k :: k in r <==> 0 <= k < |edges| && Touches(edges[k], v)
    {
      LinkEdgesBelow(v, |edges|)
    }

    function LinkEdgesBelow(v: nat, n: nat): (r: seq<nat>)
      requires n <= |edges|
      ensures forall k :: k in r <==> 0 <= k < n && Touches(edges[k], v)
      decreases n
    {
      if n == 0 then []
      else LinkEdgesBelow(v, n - 1) + (if Touches(edges[n - 1], v) then [n - 1] else [])
    }

    /** `e.other_vert(v)` for every `e` in `v.link_edges`, in that order. */
    function LinkedVerts(v: nat): (r: seq<nat>)
      ensures forall w :: w in r <==> Adjacent(v, w)
    {
      LinkedVertsBelow(v, |edges|)
    }

    function LinkedVertsBelow(v: nat, n: nat): (r: seq<nat>)
      requires n <= |edges|
      ensures forall w :: w in r <==> exists k :: 0 <= k < n && Joins(edges[k], v, w)
      decreases n
    {
      if n == 0 then []
      else
        var e := edges[n - 1];
        var here := if Touches(e, v) then [OtherVert(e, v)] else [];
        assert forall w :: w in here <==> Joins(e, v, w);
        LinkedVertsBelow(v, n - 1) + here
    }

    /** BMVert.link_faces: the indices of the faces that have `v` as a corner. */
    function LinkFaces(v: nat): (r: seq<nat>)
      ensures forall f :: f in r <==> 0 <= f < |faces| && v in faces[f].verts
    {
      LinkFacesBelow(v, |faces|)
    }

    function LinkFacesBelow(v: nat, n: nat): (r: seq<nat>)
      requires n <= |faces|
      ensures forall f :: f in r <==> 0 <= f < n && v in faces[f].verts
      decreases n
    {
      if n == 0 then []
      else LinkFacesBelow(v, n - 1) + (if v in faces[n - 1].verts then [n - 1] else [])
    }

    /** BMEdge.is_boundary: the edge is a side of exactly one face. */
    predicate IsBoundary(e: Edge) {
      |set f | 0 <= f < |faces| && HasSide(faces[f], e.v0, e.v1)| == 1
    }

    /** A path all of whose vertices lie in `s`, each step along an edge. */
    ghost predicate IsPath(p: seq<nat>, s: set<nat>) {
      && |p| > 0
      && (forall i :: 0 <= i < |p| ==> p[i] in s)
      && (forall i :: 0 <= i < |p| - 1 ==> StepAt(p, i))
    }

    /** The `i`-th step of `p` runs along an edge. */
    ghost predicate StepAt(p: seq<nat>, i: nat)
      requires i < |p| - 1
    {
      Adjacent(p[i], p[i + 1])
    }

    /** `p` is a path inside `s` from `a` to `b`. */
    ghost predicate PathBetween(p: seq<nat>, s: set<nat>, a: nat, b: nat) {
      IsPath(p, s) && p[0] == a && p[|p| - 1] == b
    }

    ghost predicate ReachableIn(s: set<nat>, a: nat, b: nat) {
      exists p :: PathBetween(p, s, a, b)
    }

    /** Any two vertices of `s` are joined by a path inside `s`. */
    ghost predicate Connected(s: set<nat>) {
      forall a, b {:trigger ReachableIn(s, a, b)} :: a in s && b in s ==> ReachableIn(s, a, b)
    }

    /** No edge leads from `s` to an active vertex outside `s`. */
    ghost predicate ClosedIn(s: set<nat>, active: set<nat>) {
      forall a, b {:trigger Adjacent(a, b)} :: a in s && b in active && Adjacent(a, b) ==> b in s
    }

    /** A connected component of the sub-mesh spanned by `active`. */
    ghost predicate IsIsland(s: set<nat>, active: set<nat>) {
      s != {} && s <= active && ClosedIn(s, active) && Connected(s)
    }

    /** `islands` are islands of `active`, pairwise disjoint, and cover it. */
    ghost predicate IsPartition(islands: seq<set<nat>>, active: set<nat>) {
      && (forall k :: 0 <= k < |islands| ==> IsIsland(islands[k], active))
      && (forall j, k :: 0 <= j < k < |islands| ==> islands[j] !! islands[k])
      && (forall u :: u in active <==> exists k :: 0 <= k < |islands| && u in islands[k])
    }

    /** A depth-first visiting order: every vertex after the first was
        reached along an edge from the earlier vertex `order[parent[i]]`. */
    ghost predicate Rooted(order: seq<nat>, parent: seq<nat>) {
      && |order| > 0
      && |parent| == |order|
      && forall i :: 0 < i < |order| ==> parent[i] < i && Adjacent(order[parent[i]], order[i])
    }
  }

  predicate Touches(e: Edge, v: nat) {
    e.v0 == v || e.v1 == v
  }

  predicate Joins(e: Edge, a: nat, b: nat) {
    (e.v0 == a && e.v1 == b) || (e.v0 == b && e.v1 == a)
  }

  /** BMEdge.other_vert, on an edge at `v`. */
  function OtherVert(e: Edge, v: nat): (w: nat)
    requires Touches(e, v)
    ensures Joins(e, v, w)
  {
    if e.v0 == v then e.v1 else e.v0
  }

  /** `a`-`b` (in either direction) is one of the sides of the cycle `f`. */
  predicate HasSide(f: Face, a: nat, b: nat) {
    exists i :: 0 <= i < |f.verts| && SideAt(f, i, a, b)
  }

  predicate SideAt(f: Face, i: nat, a: nat, b: nat)
    requires i < |f.verts|
  {
    var c, d := f.verts[i], f.verts[(i + 1) % |f.verts|];
    (c == a && d == b) || (c == b && d == a)
  }

  function Elems(s: seq<nat>): (r: set<nat>)
    ensures forall u :: u in r <==> u in s
  {
    set u | u in s
  }

  function Reverse(p: seq<nat>): (r: seq<nat>)
    ensures |r| == |p|
    ensures forall i :: 0 <= i < |p| ==> r[i] == p[|p| - 1 - i]
  {
    if p == [] then [] else Reverse(p[1..]) + [p[0]]
  }

  // ---------------------------------------------------------------------
  // Lemmas about paths and islands
  // ---------------------------------------------------------------------

  lemma AdjacentSymmetric(m: Mesh, a: nat, b: nat)
    requires m.Adjacent(a, b)
    ensures m.Adjacent(b, a)
  {
    var k :| 0 <= k < |m.edges| && Joins(m.edges[k], a, b);
    assert Joins(m.edges[k], b, a);
  }

  lemma AdjacentInRange(m: Mesh, a: nat, b: nat)
    requires m.Valid() && m.Adjacent(a, b)
    ensures a < m.vertCount && b < m.vertCount
  {
    var k :| 0 <= k < |m.edges| && Joins(m.edges[k], a, b);
  }

  lemma LinkedInRange(m: Mesh, v: nat)
    requires m.Valid()
    ensures forall i :: 0 <= i < |m.LinkedVerts(v)| ==> m.LinkedVerts(v)[i] < m.vertCount
  {
    forall i | 0 <= i < |m.LinkedVerts(v)| ensures m.LinkedVerts(v)[i] < m.vertCount {
      AdjacentInRange(m, v, m.LinkedVerts(v)[i]);
    }
  }

  /** Paths can be walked backwards. */
  lemma PathReverse(m: Mesh, p: seq<nat>, s: set<nat>)
    requires m.IsPath(p, s)
    ensures m.IsPath(Reverse(p), s)
  {
    var r := Reverse(p);
    forall i | 0 <= i < |r| - 1 ensures m.StepAt(r, i) {
      assert r[i] == p[|p| - 1 - i] && r[i + 1] == p[|p| - 2 - i];
      assert m.StepAt(p, |p| - 2 - i);
      AdjacentSymmetric(m, p[|p| - 2 - i], p[|p| - 1 - i]);
    }
  }

  lemma ReachableSymmetric(m: Mesh, s: set<nat>, a: nat, b: nat)
    requires m.ReachableIn(s, a, b)
    ensures m.ReachableIn(s, b, a)
  {
    var p :| m.PathBetween(p, s, a, b);
    PathReverse(m, p, s);
    var r := Reverse(p);
    assert r[0] == b && r[|r| - 1] == a;
    assert m.PathBetween(r, s, b, a);
  }

  lemma ReachableTrans(m: Mesh, s: set<nat>, a: nat, b: nat, c: nat)
    requires m.ReachableIn(s, a, b) && m.ReachableIn(s, b, c)
    ensures m.ReachableIn(s, a, c)
  {
    var p :| m.PathBetween(p, s, a, b);
    var q :| m.PathBetween(q, s, b, c);
    var pq := p + q[1..];
    forall i | 0 <= i < |pq| - 1 ensures m.StepAt(pq, i) {
      if i < |p| - 1 {
        assert pq[i] == p[i] && pq[i + 1] == p[i + 1];
        assert m.StepAt(p, i);
      } else {
        assert pq[i] == q[i - |p| + 1] && pq[i + 1] == q[i - |p| + 2];
        assert m.StepAt(q, i - |p| + 1);
      }
    }
    assert m.IsPath(pq, s);
    assert pq[|pq| - 1] == c by {
      if |q| == 1 { assert pq == p; } else { assert pq[|pq| - 1] == q[|q| - 1]; }
    }
    assert m.PathBetween(pq, s, a, c);
  }

  /** In a depth-first visiting order every vertex is reachable from the
      first one through the vertices visited before it. */
  lemma {:induction false} RootedReaches(m: Mesh, order: seq<nat>, parent: seq<nat>, i: nat)
    requires m.Rooted(order, parent) && i < |order|
    ensures m.ReachableIn(Elems(order), order[0], order[i])
    decreases i
  {
    var s := Elems(order);
    if i == 0 {
      assert m.PathBetween([order[0]], s, order[0], order[0]);
    } else {
      var j := parent[i];
      RootedReaches(m, order, parent, j);
      var p :| m.PathBetween(p, s, order[0], order[j]);
      var p' := p + [order[i]];
      assert m.IsPath(p', s) by {
        forall k | 0 <= k < |p'| - 1 ensures m.StepAt(p', k) {
          if k < |p| - 1 { assert p'[k] == p[k] && p'[k + 1] == p[k + 1]; assert m.StepAt(p, k); }
        }
      }
      assert m.PathBetween(p', s, order[0], order[i]);
    }
  }

  /** The vertices of a depth-first visiting order form a connected set. */
  lemma RootedConnected(m: Mesh, order: seq<nat>, parent: seq<nat>)
    requires m.Rooted(order, parent)
    ensures m.Connected(Elems(order))
  {
    var s := Elems(order);
    forall a, b | a in s && b in s ensures m.ReachableIn(s, a, b) {
      var i :| 0 <= i < |order| && order[i] == a;
      var j :| 0 <= j < |order| && order[j] == b;
      RootedReaches(m, order, parent, i);
      RootedReaches(m, order, parent, j);
      ReachableSymmetric(m, s, order[0], a);
      ReachableTrans(m, s, a, order[0], b);
    }
  }

  /** A set closed under active adjacency contains every active vertex
      reachable (through active vertices) from one of its members. */
  lemma {:induction false} ClosedPathStays(m: Mesh, c: set<nat>, active: set<nat>, p: seq<nat>, s: set<nat>)
    requires m.ClosedIn(c, active) && s <= active
    requires m.IsPath(p, s) && p[0] in c
    ensures p[|p| - 1] in c
    decreases |p|
  {
    if |p| > 1 {
      var q := p[..|p| - 1];
      assert m.IsPath(q, s) by {
        forall i | 0 <= i < |q| - 1 ensures m.StepAt(q, i) {
          assert q[i] == p[i] && q[i + 1] == p[i + 1];
          assert m.StepAt(p, i);
        }
      }
      ClosedPathStays(m, c, active, q, s);
      assert m.StepAt(p, |p| - 2);
    }
  }

  /** Two islands of the same active set either coincide or are disjoint. */
  lemma IslandsDisjointOrEqual(m: Mesh, s: set<nat>, t: set<nat>, active: set<nat>)
    requires m.IsIsland(s, active) && m.IsIsland(t, active)
    ensures s == t || s !! t
  {
    if !(s !! t) {
      var u :| u in s && u in t;
      forall x | x in s ensures x in t {
        assert m.ReachableIn(s, u, x);
        var p :| m.PathBetween(p, s, u, x);
        ClosedPathStays(m, t, active, p, s);
      }
      forall x | x in t ensures x in s {
        assert m.ReachableIn(t, u, x);
        var p :| m.PathBetween(p, t, u, x);
        ClosedPathStays(m, s, active, p, t);
      }
    }
  }

  /** A partition is empty exactly when the vertex set it covers is. */
  lemma PartitionEmpty(m: Mesh, islands: seq<set<nat>>, active: set<nat>)
    requires m.IsPartition(islands, active)
    ensures islands == [] <==> active == {}
  {
    if islands != [] {
      var u :| u in islands[0];
      assert u in active;
    }
  }
}
