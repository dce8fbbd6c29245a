// The mesh-independent logic of the cylinder replacement operator: which
// faces are the old caps, which edges fillHoles hands to the hole filler,
// the radius statistics of each end ring, and the guard in front of the
// construction of the new cylinder.

module CylinderReplace {
  import opened BMesh

  datatype Result<T> = Success(value: T) | Failure(error: string)

  /** The elements of `r` are strictly increasing, i.e. in mesh order. */
  predicate Increasing(r: seq<nat>) {
    forall i, j :: 0 <= i < j < |r| ==> r[i] < r[j]
  }

  // ---------------------------------------------------------------------
  // Caps (extractInfo)

  /** An old cap: a selected face that is not a quad. */
  predicate IsCap(f: Face) {
    f.select && |f.verts| != 4
  }

  /** The faces extractInfo deletes first: every selected face whose vertex
      count is not 4, in the order of the mesh's faces. */
  function CapFaces(m: Mesh): (r: seq<nat>)
    ensures forall f: nat :: f in r <==> f < |m.faces| && IsCap(m.faces[f])
    ensures Increasing(r)
  {
    CapFacesBelow(m, |m.faces|)
  }

  function CapFacesBelow(m: Mesh, n: nat): (r: seq<nat>)
    requires n <= |m.faces|
    ensures forall f: nat :: f in r <==> f < n && IsCap(m.faces[f])
    ensures Increasing(r)
    ensures forall i :: 0 <= i < |r| ==> r[i] < n
  {
    if n == 0 then []
    else if IsCap(m.faces[n - 1]) then CapFacesBelow(m, n - 1) + [n - 1]
    else CapFacesBelow(m, n - 1)
  }

  // ---------------------------------------------------------------------
  // Hole filling (fillHoles)

  /** An edge fillHoles hands to the hole filler: a boundary edge that is
      selected, unless `selectedOnly` is off. */
  predicate IsFillEdge(m: Mesh, e: Edge, selectedOnly: bool) {
    (!selectedOnly || e.select) && m.IsBoundary(e)
  }

  /** The edges passed to contextual_create, in the order of the mesh's
      edges. */
  function BoundaryEdges(m: Mesh, selectedOnly: bool): (r: seq<nat>)
    ensures forall k: nat :: k in r <==> k < |m.edges| && IsFillEdge(m, m.edges[k], selectedOnly)
    ensures Increasing(r)
  {
    BoundaryEdgesBelow(m, selectedOnly, |m.edges|)
  }

  function BoundaryEdgesBelow(m: Mesh, selectedOnly: bool, n: nat): (r: seq<nat>)
    requires n <= |m.edges|
    ensures forall k: nat :: k in r <==> k < n && IsFillEdge(m, m.edges[k], selectedOnly)
    ensures Increasing(r)
    ensures forall i :: 0 <= i < |r| ==> r[i] < n
  {
    if n == 0 then []
    else if IsFillEdge(m, m.edges[n - 1], selectedOnly) then BoundaryEdgesBelow(m, selectedOnly, n - 1) + [n - 1]
    else BoundaryEdgesBelow(m, selectedOnly, n - 1)
  }

  /** Without `selectedOnly` every boundary edge is a candidate; with it,
      exactly the selected ones. */
  lemma {:induction false} BoundaryEdgesSelected(m: Mesh, n: nat)
    requires n <= |m.edges|
    ensures BoundaryEdgesBelow(m, true, n) == Selected(m, BoundaryEdgesBelow(m, false, n))
  {
    if n > 0 {
      BoundaryEdgesSelected(m, n - 1);
      SelectedAppend(m, BoundaryEdgesBelow(m, false, n - 1), [n - 1]);
    }
  }

  /** The entries of `ks` whose edge is selected, in order. */
  function Selected(m: Mesh, ks: seq<nat>): (r: seq<nat>)
    requires forall i :: 0 <= i < |ks| ==> ks[i] < |m.edges|
    ensures forall k :: k in r <==> k in ks && m.edges[k].select
  {
    if ks == [] then []
    else if m.edges[ks[|ks| - 1]].select then Selected(m, ks[..|ks| - 1]) + [ks[|ks| - 1]]
    else Selected(m, ks[..|ks| - 1])
  }

  lemma SelectedAppend(m: Mesh, a: seq<nat>, b: seq<nat>)
    requires forall i :: 0 <= i < |a| ==> a[i] < |m.edges|
    requires |b| == 1 && b[0] < |m.edges|
    ensures Selected(m, a + b) == Selected(m, a) + Selected(m, b)
  {
    assert (a + b)[..|a + b| - 1] == a;
  }

  // ---------------------------------------------------------------------
  // Radius statistics of one end ring (extractInfo)

  /** What extractInfo records about one end face. Centre, normal and
      rotation are vector geometry and are not part of this model. */
  datatype EndInfo = EndInfo(end: Face, minRadius: real, maxRadius: real, avgRadius: real)

  /** The distances from the end's centre to its vertices, in ring order;
      `radius(end, v)` is `(center - v.co).length`. */
  ghost function Radii(end: Face, radius: (Face, nat) -> real): (r: seq<real>)
    ensures |r| == |end.verts|
    ensures forall i :: 0 <= i < |r| ==> r[i] == radius(end, end.verts[i])
  {
    seq(|end.verts|, i requires 0 <= i < |end.verts| => radius(end, end.verts[i]))
  }

  /** Left-to-right sum, the order in which radSum accumulates. */
  ghost function Sum(s: seq<real>): real {
    if s == [] then 0.0 else Sum(s[..|s| - 1]) + s[|s| - 1]
  }

  /** The statistics that extractInfo promises for a ring of distances. */
  ghost predicate IsRingStats(ds: seq<real>, minR: real, maxR: real, avg: real) {
    && |ds| > 0
    && (exists i :: 0 <= i < |ds| && ds[i] == minR)
    && (exists i :: 0 <= i < |ds| && ds[i] == maxR)
    && (forall i :: 0 <= i < |ds| ==> minR <= ds[i] <= maxR)
    && avg == Sum(ds) / (|ds| as real)
  }

  /** The inner loop of extractInfo: minimum and maximum seeded from the first
      vertex, then every vertex (the first one again included) summed and
      compared. */
  method RingStats(end: Face, radius: (Face, nat) -> real) returns (minR: real, maxR: real, avg: real)
    requires |end.verts| > 0
    ensures IsRingStats(Radii(end, radius), minR, maxR, avg)
  {
    ghost var ds := Radii(end, radius);
    ghost var iMin, iMax := 0, 0;
    minR := radius(end, end.verts[0]);
    maxR := minR;
    var radSum := 0.0;
    var count := |end.verts|;
    for i := 0 to |end.verts|
      invariant radSum == Sum(ds[..i])
      invariant 0 <= iMin < |ds| && ds[iMin] == minR
      invariant 0 <= iMax < |ds| && ds[iMax] == maxR
      invariant forall j :: 0 <= j < i ==> minR <= ds[j] <= maxR
      invariant minR <= ds[0] <= maxR
    {
      var rad := radius(end, end.verts[i]);
      assert ds[..i + 1][..i] == ds[..i];
      radSum := radSum + rad;
      if rad < minR {
        minR, iMin := rad, i;
      }
      if rad > maxR {
        maxR, iMax := rad, i;
      }
    }
    assert ds[..|ds|] == ds;
    avg := radSum / (count as real);
  }

  lemma {:induction false} SumBounds(s: seq<real>, lo: real, hi: real)
    requires forall i :: 0 <= i < |s| ==> lo <= s[i] <= hi
    ensures (|s| as real) * lo <= Sum(s) <= (|s| as real) * hi
  {
    if s != [] {
      SumBounds(s[..|s| - 1], lo, hi);
    }
  }

  /** The average radius lies between the minimum and maximum radius. */
  lemma AverageBetween(ds: seq<real>, minR: real, maxR: real, avg: real)
    requires IsRingStats(ds, minR, maxR, avg)
    ensures minR <= avg <= maxR
  {
    var n := |ds| as real;
    SumBounds(ds, minR, maxR);
    assert n * minR <= Sum(ds) <= n * maxR;
    assert avg * n == Sum(ds);
  }

  /** The ring loop of extractInfo over the faces fillHoles created: one
      info per end, in the order of the ends. */
  method ExtractInfo(ends: seq<Face>, radius: (Face, nat) -> real) returns (infos: seq<EndInfo>)
    requires forall k :: 0 <= k < |ends| ==> |ends[k].verts| > 0
    ensures |infos| == |ends|
    ensures forall k :: 0 <= k < |infos| ==> infos[k].end == ends[k]
    ensures forall k :: 0 <= k < |infos| ==>
      IsRingStats(Radii(ends[k], radius), infos[k].minRadius, infos[k].maxRadius, infos[k].avgRadius)
  {
    infos := [];
    for k := 0 to |ends|
      invariant |infos| == k
      invariant forall i :: 0 <= i < k ==> infos[i].end == ends[i]
      invariant forall i :: 0 <= i < k ==>
        IsRingStats(Radii(ends[i], radius), infos[i].minRadius, infos[i].maxRadius, infos[i].avgRadius)
    {
      var minR, maxR, avg := RingStats(ends[k], radius);
      infos := infos + [EndInfo(ends[k], minR, maxR, avg)];
    }
  }

  // ---------------------------------------------------------------------
  // The new cylinder (createNewCylinder)

  const NotFound: string := "Cylinder not found! Are there exactly 2 faces with 3 or more than 4 faces?"

  /** What createNewCylinder builds: two capped circles of `segments`
      vertices with the average radii of the two ends, moved onto the ends,
      bridged, and with their caps deleted. */
  datatype CylinderPlan = CylinderPlan(segments: nat, first: EndInfo, second: EndInfo, radius1: real, radius2: real)

  /** createNewCylinder: raises ValueError unless there are exactly two ends;
      otherwise circle i gets the average radius of end i. */
  function CreateNewCylinder(infos: seq<EndInfo>, segments: nat): (r: Result<CylinderPlan>)
    ensures r.Failure? <==> |infos| != 2
    ensures r.Failure? ==> r.error == NotFound
    ensures r.Success? ==> r.value.segments == segments
    ensures r.Success? ==> r.value.first == infos[0] && r.value.second == infos[1]
    ensures r.Success? ==> r.value.radius1 == infos[0].avgRadius && r.value.radius2 == infos[1].avgRadius
  {
    if |infos| != 2 then Failure(NotFound)
    else Success(CylinderPlan(segments, infos[0], infos[1], infos[0].avgRadius, infos[1].avgRadius))
  }

  /** Both new circles have radii between the smallest and the largest
      distance of the end they replace. */
  lemma NewRadiiWithinRings(ends: seq<Face>, radius: (Face, nat) -> real, infos: seq<EndInfo>, segments: nat)
    requires |infos| == |ends| == 2
    requires forall k :: 0 <= k < 2 ==>
      IsRingStats(Radii(ends[k], radius), infos[k].minRadius, infos[k].maxRadius, infos[k].avgRadius)
    ensures CreateNewCylinder(infos, segments).Success?
    ensures infos[0].minRadius <= CreateNewCylinder(infos, segments).value.radius1 <= infos[0].maxRadius
    ensures infos[1].minRadius <= CreateNewCylinder(infos, segments).value.radius2 <= infos[1].maxRadius
  {
    AverageBetween(Radii(ends[0], radius), infos[0].minRadius, infos[0].maxRadius, infos[0].avgRadius);
    AverageBetween(Radii(ends[1], radius), infos[1].minRadius, infos[1].maxRadius, infos[1].avgRadius);
  }
}
