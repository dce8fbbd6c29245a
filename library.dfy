/** The island partitioner and the sub-geometry queries of library.py. */
module Library {
  import opened BMesh

  /** The vertices, edges and faces of one island, as handed to callbacks. */
  datatype IslandGeom = IslandGeom(verts: set<nat>, edges: set<nat>, faces: set<nat>)

  /** The edges both of whose endpoints lie in `vs`. */
  ghost function EdgesWithin(m: Mesh, vs: set<nat>): set<nat> {
    set k | 0 <= k < |m.edges| && m.edges[k].v0 in vs && m.edges[k].v1 in vs
  }

  /** The faces all of whose corners lie in `vs`. */
  ghost function FacesWithin(m: Mesh, vs: set<nat>): set<nat> {
    set f | 0 <= f < |m.faces| && forall v :: v in m.faces[f].verts ==> v in vs
  }

  ghost function GeomOf(m: Mesh, island: set<nat>): IslandGeom {
    IslandGeom(island, EdgesWithin(m, island), FacesWithin(m, island))
  }

  /** `logic` was called, in order, on the geometry of each island up to and
      including the first on which it fails, and on no later one; `success`
      says that it failed on none. */
  ghost predicate StopsAtFirstFailure(m: Mesh, islands: seq<set<nat>>, logic: IslandGeom -> bool,
                                      success: bool, calls: seq<IslandGeom>)
  {
    && |calls| <= |islands|
    && (forall k :: 0 <= k < |calls| ==> calls[k] == GeomOf(m, islands[k]))
    && (forall k :: 0 <= k < |calls| - 1 ==> logic(calls[k]))
    && (success <==> forall k :: 0 <= k < |islands| ==> logic(GeomOf(m, islands[k])))
    && (success ==> |calls| == |islands|)
    && (!success ==> |calls| > 0 && !logic(calls[|calls| - 1]))
  }

  /** The loop of performOnIslands over the islands get_islands returned. */
  method RunOnIslands(m: Mesh, islands: seq<set<nat>>, logic: IslandGeom -> bool)
    returns (success: bool, calls: seq<IslandGeom>)
    requires m.Valid()
    ensures StopsAtFirstFailure(m, islands, logic, success, calls)
  {
    calls := [];
    for k := 0 to |islands|
      invariant |calls| == k
      invariant forall i :: 0 <= i < k ==> calls[i] == GeomOf(m, islands[i]) && logic(calls[i])
    {
      var island := islands[k];
      var edges := EdgesFromVerts(m, island);
      var faces := FacesFromVerts(m, island);
      var geom := IslandGeom(island, edges, faces);
      assert geom == GeomOf(m, island);
      calls := calls + [geom];
      var ok := logic(geom);
      if !ok {
        return false, calls;
      }
    }
    return true, calls;
  }

  /** edgesFromVerts: every edge running between two vertices of `vs`,
      collected from the link edges of those vertices. */
  method EdgesFromVerts(m: Mesh, vs: set<nat>) returns (edges: set<nat>)
    ensures forall k :: k in edges <==>
      0 <= k < |m.edges| && m.edges[k].v0 in vs && m.edges[k].v1 in vs
  {
    edges := {};
    var rest := vs;
    while rest != {}
      invariant rest <= vs
      invariant forall k :: k in edges <==>
        && 0 <= k < |m.edges| && m.edges[k].v0 in vs && m.edges[k].v1 in vs
        && (m.edges[k].v0 !in rest || m.edges[k].v1 !in rest)
      decreases rest
    {
      var vert :| vert in rest;
      var linkEdges := m.LinkEdges(vert);
      for j := 0 to |linkEdges|
        invariant forall k :: k in edges <==>
          && 0 <= k < |m.edges| && m.edges[k].v0 in vs && m.edges[k].v1 in vs
          && (m.edges[k].v0 !in rest || m.edges[k].v1 !in rest || k in linkEdges[..j])
      {
        var edge := linkEdges[j];
        assert edge in linkEdges;
        if edge in edges {
          continue;
        }
        if m.edges[edge].v0 in vs && m.edges[edge].v1 in vs {
          edges := edges + {edge};
        }
      }
      rest := rest - {vert};
    }
  }

  /** facesFromVerts: every face all of whose corners lie in `vs`,
      collected from the link faces of those vertices. */
  method FacesFromVerts(m: Mesh, vs: set<nat>) returns (faces: set<nat>)
    requires m.Valid()
    ensures forall f :: f in faces <==>
      0 <= f < |m.faces| && forall v :: v in m.faces[f].verts ==> v in vs
  {
    faces := {};
    var rest := vs;
    while rest != {}
      invariant rest <= vs
      invariant forall f :: f in faces <==>
        && 0 <= f < |m.faces| && (forall v :: v in m.faces[f].verts ==> v in vs)
        && exists v :: v in m.faces[f].verts && v !in rest
      decreases rest
    {
      var vert :| vert in rest;
      var linkFaces := m.LinkFaces(vert);
      for j := 0 to |linkFaces|
        invariant forall f :: f in faces <==>
          && 0 <= f < |m.faces| && (forall v :: v in m.faces[f].verts ==> v in vs)
          && ((exists v :: v in m.faces[f].verts && v !in rest) || f in linkFaces[..j])
      {
        var face := linkFaces[j];
        assert face in linkFaces;
        if face in faces {
          continue;
        }
        if forall v :: v in m.faces[face].verts ==> v in vs {
          faces := faces + {face};
        }
      }
      rest := rest - {vert};
    }
    forall f | 0 <= f < |m.faces| && (forall v :: v in m.faces[f].verts ==> v in vs)
      ensures f in faces
    {
      assert m.faces[f].verts[0] in m.faces[f].verts;
    }
  }

  // ---------------------------------------------------------------------
  // The state of the tag flags, as a sequence indexed by vertex
  // ---------------------------------------------------------------------

  ghost predicate Distinct(s: seq<nat>) {
    forall i, j :: 0 <= i < j < |s| ==> s[i] != s[j]
  }

  /** Every vertex of `s` is a vertex whose tag is clear in `t`. */
  ghost predicate AllUntagged(s: seq<nat>, t: seq<bool>) {
    forall i :: 0 <= i < |s| ==> s[i] < |t| && !t[s[i]]
  }

  /** `t` with the tags of the vertices in `s` set. */
  ghost function TagAll(t: seq<bool>, s: seq<nat>): (r: seq<bool>)
    ensures |r| == |t|
    ensures forall u :: 0 <= u < |t| ==> r[u] == (t[u] || u in s)
  {
    seq(|t|, u requires 0 <= u < |t| => t[u] || u in s)
  }

  /** No tag is cleared on the way from `t` to `t'`. */
  ghost predicate TagsGrow(t: seq<bool>, t': seq<bool>) {
    |t| == |t'| && forall u :: 0 <= u < |t| && t[u] ==> t'[u]
  }

  /** Every neighbour of `v` is tagged in `t`. */
  ghost predicate NeighbourhoodTagged(m: Mesh, v: nat, t: seq<bool>) {
    forall w: nat :: m.Adjacent(v, w) ==> w < |t| && t[w]
  }

  /** Every neighbour of a vertex of `s` is tagged in `t`. */
  ghost predicate NeighboursTagged(m: Mesh, s: seq<nat>, t: seq<bool>) {
    forall i :: 0 <= i < |s| ==> NeighbourhoodTagged(m, s[i], t)
  }

  /** Every vertex of `s` is tagged in `t`. */
  ghost predicate AllTagged(s: seq<nat>, t: seq<bool>) {
    forall i :: 0 <= i < |s| ==> s[i] < |t| && t[s[i]]
  }

  lemma AllTaggedExtend(s: seq<nat>, j: nat, t: seq<bool>, t': seq<bool>)
    requires j < |s| && AllTagged(s[..j], t) && TagsGrow(t, t')
    requires s[j] < |t'| && t'[s[j]]
    ensures AllTagged(s[..j + 1], t')
  {
    assert forall i :: 0 <= i < j ==> s[..j + 1][i] == s[..j][i];
  }

  lemma TailAppend(a: seq<nat>, b: seq<nat>)
    requires |a| > 0
    ensures (a + b)[1..] == a[1..] + b
  {
  }

  lemma TagAllGrows(t: seq<bool>, s: seq<nat>)
    ensures TagsGrow(t, TagAll(t, s))
  {
  }

  lemma TagsGrowTrans(t1: seq<bool>, t2: seq<bool>, t3: seq<bool>)
    requires TagsGrow(t1, t2) && TagsGrow(t2, t3)
    ensures TagsGrow(t1, t3)
  {
  }

  lemma TagAllAppend(t: seq<bool>, a: seq<nat>, b: seq<nat>)
    ensures TagAll(TagAll(t, a), b) == TagAll(t, a + b)
  {
    assert forall u :: u in a + b <==> u in a || u in b;
  }

  lemma NeighboursTaggedMono(m: Mesh, s: seq<nat>, t: seq<bool>, t': seq<bool>)
    requires NeighboursTagged(m, s, t) && TagsGrow(t, t')
    ensures NeighboursTagged(m, s, t')
  {
    forall i | 0 <= i < |s| ensures NeighbourhoodTagged(m, s[i], t') {
      assert NeighbourhoodTagged(m, s[i], t);
    }
  }

  lemma NeighboursTaggedAppend(m: Mesh, a: seq<nat>, b: seq<nat>, t: seq<bool>)
    requires NeighboursTagged(m, a, t) && NeighboursTagged(m, b, t)
    ensures NeighboursTagged(m, a + b, t)
  {
    forall i | 0 <= i < |a + b| ensures NeighbourhoodTagged(m, (a + b)[i], t) {
      if i < |a| { assert (a + b)[i] == a[i]; } else { assert (a + b)[i] == b[i - |a|]; }
    }
  }

  lemma NeighboursTaggedCons(m: Mesh, s: seq<nat>, t: seq<bool>)
    requires |s| > 0 && NeighboursTagged(m, s[1..], t)
    requires NeighbourhoodTagged(m, s[0], t)
    ensures NeighboursTagged(m, s, t)
  {
    forall i | 0 <= i < |s| ensures NeighbourhoodTagged(m, s[i], t) {
      if i > 0 { assert s[i] == s[1..][i - 1]; }
    }
  }

  /** Appending a walk started after `a` was tagged keeps the visit order
      free of duplicates and of vertices tagged at the start. */
  lemma AppendUntagged(a: seq<nat>, b: seq<nat>, t0: seq<bool>, t: seq<bool>)
    requires Distinct(a) && Distinct(b) && AllUntagged(a, t0) && AllUntagged(b, t)
    requires t == TagAll(t0, a)
    ensures Distinct(a + b) && AllUntagged(a + b, t0)
  {
    forall i, j | 0 <= i < j < |a + b| ensures (a + b)[i] != (a + b)[j] {
      if j >= |a| {
        assert (a + b)[j] == b[j - |a|];
        if i < |a| { assert (a + b)[i] == a[i]; assert a[i] in a; }
      }
    }
    forall i | 0 <= i < |a + b| ensures (a + b)[i] < |t0| && !t0[(a + b)[i]] {
      if i >= |a| { assert (a + b)[i] == b[i - |a|]; }
    }
  }

  /** Joins a sub-walk started at a neighbour of the first vertex to a walk,
      extending the parent record accordingly. */
  ghost function RootedAppend(m: Mesh, a: seq<nat>, pa: seq<nat>, b: seq<nat>, pb: seq<nat>): (p: seq<nat>)
    requires m.Rooted(a, pa) && m.Rooted(b, pb) && m.Adjacent(a[0], b[0])
    ensures m.Rooted(a + b, p)
  {
    var off := |a|;
    var q := pa + seq(|b|, i requires 0 <= i < |b| => if i == 0 then 0 else pb[i] + off);
    assert forall i :: off <= i < |a + b| ==> (a + b)[i] == b[i - off];
    q
  }

  /** The ids of all vertices of a mesh with `n` vertices (bm.verts). */
  function VertexIds(n: nat): (r: set<nat>)
    ensures forall u: nat :: u in r <==> u < n
  {
    if n == 0 then {} else VertexIds(n - 1) + {n - 1}
  }

  /** The vertices whose tag is clear in `t`. */
  ghost function UntaggedIn(t: seq<bool>): set<nat> {
    set u | 0 <= u < |t| && !t[u]
  }

  /** What holds of walk_island after tagging `v` and walking the first `j`
      entries of `linked`, the neighbours of `v` untagged at that moment. */
  ghost predicate WalkState(m: Mesh, v: nat, t0: seq<bool>, marked: seq<bool>, linked: seq<nat>,
                            j: nat, walked: seq<nat>, parent: seq<nat>, t: seq<bool>)
  {
    && m.Rooted(walked, parent) && walked[0] == v
    && Distinct(walked)
    && AllUntagged(walked, t0)
    && t == TagAll(t0, walked)
    && TagsGrow(marked, t)
    && j <= |linked|
    && (forall k :: 0 <= k < |linked| ==> linked[k] < |t| && m.Adjacent(v, linked[k]))
    && AllTagged(linked[..j], t)
    && NeighboursTagged(m, walked[1..], t)
  }

  lemma LinkedUntaggedInRange(m: Mesh, v: nat, linked: seq<nat>, t0: seq<bool>, marked: seq<bool>)
    requires m.Valid() && |t0| == m.vertCount && v < |t0| && !t0[v]
    requires marked == t0[v := true]
    requires forall w :: w in linked <==> w in m.LinkedVerts(v) && w < |marked| && !marked[w]
    ensures WalkState(m, v, t0, marked, linked, 0, [v], [0], marked)
  {
    forall k | 0 <= k < |linked| ensures linked[k] < |marked| && m.Adjacent(v, linked[k]) {
      assert linked[k] in m.LinkedVerts(v);
      AdjacentInRange(m, v, linked[k]);
    }
    assert TagAll(t0, [v]) == marked;
  }

  lemma UntaggedShrinks(t0: seq<bool>, walked: seq<nat>, t: seq<bool>)
    requires |walked| > 0 && walked[0] < |t0| && !t0[walked[0]] && t == TagAll(t0, walked)
    ensures |UntaggedIn(t)| < |UntaggedIn(t0)|
  {
    assert walked[0] in UntaggedIn(t0) && walked[0] !in UntaggedIn(t);
    ProperSubsetSmaller(UntaggedIn(t), UntaggedIn(t0));
  }

  /** One turn of walk_island's loop: appending the walk of an untagged
      neighbour keeps WalkState. */
  lemma WalkStep(m: Mesh, v: nat, t0: seq<bool>, marked: seq<bool>, linked: seq<nat>, j: nat,
                 walked: seq<nat>, parent: seq<nat>, before: seq<bool>,
                 sub: seq<nat>, subParent: seq<nat>, after: seq<bool>)
    requires WalkState(m, v, t0, marked, linked, j, walked, parent, before) && j < |linked|
    requires m.Rooted(sub, subParent) && sub[0] == linked[j]
    requires Distinct(sub) && AllUntagged(sub, before)
    requires after == TagAll(before, sub) && NeighboursTagged(m, sub, after)
    ensures WalkState(m, v, t0, marked, linked, j + 1, walked + sub,
                      RootedAppend(m, walked, parent, sub, subParent), after)
  {
    TagAllGrows(before, sub);
    TagsGrowTrans(marked, before, after);
    NeighboursTaggedMono(m, walked[1..], before, after);
    NeighboursTaggedAppend(m, walked[1..], sub, after);
    AppendUntagged(walked, sub, t0, before);
    TailAppend(walked, sub);
    TagAllAppend(t0, walked, sub);
    AllTaggedExtend(linked, j, before, after);
  }

  /** After the loop every neighbour of every walked vertex is tagged. */
  lemma WalkFinish(m: Mesh, v: nat, t0: seq<bool>, marked: seq<bool>, linked: seq<nat>,
                   walked: seq<nat>, parent: seq<nat>, t: seq<bool>)
    requires m.Valid() && |t0| == m.vertCount
    requires forall w :: w in linked <==> w in m.LinkedVerts(v) && w < |marked| && !marked[w]
    requires WalkState(m, v, t0, marked, linked, |linked|, walked, parent, t)
    ensures NeighboursTagged(m, walked, t)
  {
    forall w: nat | m.Adjacent(v, w) ensures w < |t| && t[w] {
      AdjacentInRange(m, v, w);
      assert w in m.LinkedVerts(v);
      if w in linked {
        var k :| 0 <= k < |linked| && linked[k] == w;
        assert linked[..|linked|][k] == w;
      }
    }
    assert NeighbourhoodTagged(m, walked[0], t);
    NeighboursTaggedCons(m, walked, t);
  }

  /** The loop of get_islands has emitted `islands` and still has `rest`
      to cover. */
  ghost predicate CoveredSoFar(islands: seq<set<nat>>, active: set<nat>, rest: set<nat>) {
    && (forall j, k :: 0 <= j < k < |islands| ==> islands[j] !! islands[k])
    && (forall k :: 0 <= k < |islands| ==> islands[k] !! rest)
    && rest <= active
    && (forall u :: u in active <==> u in rest || exists k :: 0 <= k < |islands| && u in islands[k])
  }

  /** With exactly the inactive vertices tagged, the vertices visited by
      walk_island form an island. */
  lemma WalkIsIsland(m: Mesh, active: set<nat>, t0: seq<bool>, walked: seq<nat>, parent: seq<nat>, t: seq<bool>)
    requires forall u :: 0 <= u < |t0| ==> t0[u] == (u !in active)
    requires m.Rooted(walked, parent)
    requires AllUntagged(walked, t0) && t == TagAll(t0, walked) && NeighboursTagged(m, walked, t)
    ensures m.IsIsland(Elems(walked), active)
  {
    var island := Elems(walked);
    assert island <= active by {
      forall u | u in island ensures u in active {
        var i :| 0 <= i < |walked| && walked[i] == u;
      }
    }
    assert m.ClosedIn(island, active) by {
      forall a, b | a in island && b in active && m.Adjacent(a, b) ensures b in island {
        var i :| 0 <= i < |walked| && walked[i] == a;
        assert NeighbourhoodTagged(m, walked[i], t);
      }
    }
    RootedConnected(m, walked, parent);
    assert walked[0] in island;
  }

  /** A connected set that has a vertex outside a closed set lies wholly
      outside it. */
  lemma ConnectedAvoidsClosed(m: Mesh, c: set<nat>, s: set<nat>, active: set<nat>, v: nat)
    requires m.ClosedIn(c, active) && m.Connected(s) && s <= active
    requires v in s && v !in c
    ensures c !! s
  {
    if !(c !! s) {
      var u :| u in c && u in s;
      assert m.ReachableIn(s, u, v);
      var p :| m.PathBetween(p, s, u, v);
      ClosedPathStays(m, c, active, p, s);
    }
  }

  /** One turn of get_islands: the walk from a vertex left is a new island,
      disjoint from those already emitted. */
  lemma IslandStep(m: Mesh, islands: seq<set<nat>>, active: set<nat>, rest: set<nat>, island: set<nat>, v: nat)
    requires CoveredSoFar(islands, active, rest)
    requires forall k :: 0 <= k < |islands| ==> m.IsIsland(islands[k], active)
    requires m.IsIsland(island, active) && v in island && v in rest
    ensures island <= rest
    ensures CoveredSoFar(islands + [island], active, rest - island)
    ensures forall k :: 0 <= k < |islands| + 1 ==> m.IsIsland((islands + [island])[k], active)
  {
    forall k | 0 <= k < |islands| ensures islands[k] !! island {
      ConnectedAvoidsClosed(m, islands[k], island, active, v);
    }
    assert island <= active;
    CoverExtend(islands, active, rest, island);
    var islands' := islands + [island];
    forall k | 0 <= k < |islands'| ensures m.IsIsland(islands'[k], active) {
      if k < |islands| { assert islands'[k] == islands[k]; }
    }
  }

  lemma CoverExtend(islands: seq<set<nat>>, active: set<nat>, rest: set<nat>, island: set<nat>)
    requires CoveredSoFar(islands, active, rest)
    requires island <= active
    requires forall k :: 0 <= k < |islands| ==> islands[k] !! island
    ensures island <= rest
    ensures CoveredSoFar(islands + [island], active, rest - island)
  {
    var islands' := islands + [island];
    assert forall k :: 0 <= k < |islands| ==> islands'[k] == islands[k];
    assert island <= rest by {
      forall u | u in island ensures u in rest {
        assert u in active;
      }
    }
    forall u | u in active ensures u in rest - island || exists k :: 0 <= k < |islands'| && u in islands'[k] {
      if u in island { assert u in islands'[|islands|]; }
      else if u !in rest {
        var k :| 0 <= k < |islands| && u in islands[k];
        assert u in islands'[k];
      }
    }
  }

  lemma ProperSubsetSmaller(a: set<nat>, b: set<nat>)
    requires a < b
    ensures |a| < |b|
  {
    assert !(b <= a);
    var x :| x in b && x !in a;
    SubsetNotLarger(a, b - {x});
  }

  lemma {:induction false} SubsetNotLarger(a: set<nat>, b: set<nat>)
    requires a <= b
    ensures |a| <= |b|
    decreases |a|
  {
    if a != {} {
      var x :| x in a;
      SubsetNotLarger(a - {x}, b - {x});
    }
  }

  /** A BMesh together with the per-vertex `tag` flags that the island
      walk borrows as its visited marks. */
  class TaggedMesh {
    const mesh: Mesh
    const tag: array<bool>

    ghost predicate Valid()
      reads this
    {
      mesh.Valid() && tag.Length == mesh.vertCount
    }

    constructor (m: Mesh)
      requires m.Valid()
      ensures Valid() && mesh == m && fresh(tag)
      ensures forall u :: 0 <= u < tag.Length ==> !tag[u]
    {
      mesh := m;
      tag := new bool[m.vertCount](_ => false);
    }

    /** The local helper `tag(verts, switch)` of get_islands. */
    method SetTags(vs: set<nat>, switch: bool)
      requires forall v :: v in vs ==> v < tag.Length
      modifies tag
      ensures forall u :: 0 <= u < tag.Length ==> tag[u] == if u in vs then switch else old(tag[u])
    {
      var rest := vs;
      while rest != {}
        invariant rest <= vs
        invariant forall u :: 0 <= u < tag.Length ==>
          tag[u] == if u in vs && u !in rest then switch else old(tag[u])
        decreases rest
      {
        var v :| v in rest;
        tag[v] := switch;
        rest := rest - {v};
      }
    }

    /** The members of `s` whose tag is clear, in the order of `s`. */
    function UntaggedAmong(s: seq<nat>): (r: seq<nat>)
      requires forall i :: 0 <= i < |s| ==> s[i] < tag.Length
      reads this, tag
      ensures forall w :: w in r <==> w in s && !tag[w]
    {
      if s == [] then []
      else (if tag[s[0]] then [] else [s[0]]) + UntaggedAmong(s[1..])
    }

    /** walk_island: tags `v`, yields it, then walks each neighbour that is
        still untagged, depth first. `walked` is the sequence yielded;
        `parent` records, for each walked vertex, the one it was reached from. */
    method WalkIsland(v: nat) returns (walked: seq<nat>, ghost parent: seq<nat>)
      requires Valid() && v < tag.Length && !tag[v]
      modifies tag
      ensures mesh.Rooted(walked, parent) && walked[0] == v
      ensures Distinct(walked)
      ensures AllUntagged(walked, old(tag[..]))
      ensures tag[..] == TagAll(old(tag[..]), walked)
      ensures NeighboursTagged(mesh, walked, tag[..])
      decreases |UntaggedIn(tag[..])|
    {
      tag[v] := true;
      ghost var marked := tag[..];
      walked, parent := [v], [0];
      LinkedInRange(mesh, v);
      var linked := UntaggedAmong(mesh.LinkedVerts(v));
      LinkedUntaggedInRange(mesh, v, linked, old(tag[..]), marked);
      for j := 0 to |linked|
        invariant WalkState(mesh, v, old(tag[..]), marked, linked, j, walked, parent, tag[..])
      {
        var w := linked[j];
        if tag[w] {
          AllTaggedExtend(linked, j, tag[..], tag[..]);
          continue;
        }
        UntaggedShrinks(old(tag[..]), walked, tag[..]);
        ghost var before := tag[..];
        var sub, subParent := WalkIsland(w);
        WalkStep(mesh, v, old(tag[..]), marked, linked, j, walked, parent, before, sub, subParent, tag[..]);
        parent := RootedAppend(mesh, walked, parent, sub, subParent);
        walked := walked + sub;
      }
      WalkFinish(mesh, v, old(tag[..]), marked, linked, walked, parent, tag[..]);
    }

    /** get_islands: splits `verts` into the islands of the sub-mesh they
        span. Every mesh vertex is tagged, the tags of `verts` are cleared,
        and then, while some vertex of `verts` is left, the walk from it is
        one island; its tags are cleared again and it is removed from the
        vertices left. */
    method GetIslands(verts: set<nat>) returns (islands: seq<set<nat>>)
      requires Valid() && forall v :: v in verts ==> v < tag.Length
      modifies tag
      ensures mesh.IsPartition(islands, verts)
      ensures forall u :: 0 <= u < tag.Length ==> tag[u] == (u !in verts)
    {
      SetTags(VertexIds(tag.Length), true);
      SetTags(verts, false);
      islands := [];
      var rest := verts;
      while rest != {}
        invariant forall u :: 0 <= u < tag.Length ==> tag[u] == (u !in verts)
        invariant CoveredSoFar(islands, verts, rest)
        invariant forall k :: 0 <= k < |islands| ==> mesh.IsIsland(islands[k], verts)
        decreases rest
      {
        var v :| v in rest;
        ghost var t0 := tag[..];
        var walked, parent := WalkIsland(v);
        var island := Elems(walked);
        WalkIsIsland(mesh, verts, t0, walked, parent, tag[..]);
        IslandStep(mesh, islands, verts, rest, island, v);
        islands := islands + [island];
        SetTags(island, false);
        rest := rest - island;
      }
    }

    /** performOnIslands: runs `logic` on the geometry of each island in
        turn and stops at the first island on which it fails. `calls` are
        the arguments `logic` was called with, in order. */
    method PerformOnIslands(verts: set<nat>, logic: IslandGeom -> bool)
      returns (success: bool, calls: seq<IslandGeom>, ghost islands: seq<set<nat>>)
      requires Valid() && forall v :: v in verts ==> v < tag.Length
      modifies tag
      ensures mesh.IsPartition(islands, verts)
      ensures forall u :: 0 <= u < tag.Length ==> tag[u] == (u !in verts)
      ensures StopsAtFirstFailure(mesh, islands, logic, success, calls)
    {
      var found := GetIslands(verts);
      islands := found;
      success, calls := RunOnIslands(mesh, found, logic);
    }
  }
}
