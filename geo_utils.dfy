/** Per-kind caps and the conflict resolution of a new polygon against the
    accepted ones (src/utils/geoUtils.ts). The geometry library is an abstract
    backend: every result here holds for every backend. */
module GeoUtils {
  import opened Types

  /** The per-kind cap (TOOLS_CONFIG). */
  function ToolsConfig(k: ShapeType): (cap: nat)
    ensures k.Circle? || k.Rectangle? ==> cap == 5
    ensures k.Polygon? || k.LineString? ==> cap == 10
  {
    match k
    case Circle => 5
    case Rectangle => 5
    case Polygon => 10
    case LineString => 10
  }

  /** The geometry primitives the conflict resolution calls. `within(a, b)`: a lies
      inside b; `contains(a, b)`: a contains b; `difference(a, b)`: a minus b, with
      `None` for an empty result. Each may throw. */
  datatype Backend = Backend(
    within: (Geometry, Geometry) -> Try<bool>,
    contains: (Geometry, Geometry) -> Try<bool>,
    intersects: (Geometry, Geometry) -> Try<bool>,
    difference: (Geometry, Geometry) -> Try<Option<Geometry>>)

  const InsideMessage := "Cannot place a polygon completely inside another."
  const EncloseMessage := "Cannot enclose an existing polygon."

  /** The geometries of the accepted features that are polygons or multi-polygons,
      in list order. */
  function PolygonGeometries(features: seq<DrawnFeature>): (polys: seq<Geometry>)
    ensures |polys| <= |features|
    ensures forall i :: 0 <= i < |polys| ==> IsPolygonal(polys[i])
  {
    if features == [] then []
    else
      var rest := PolygonGeometries(features[1..]);
      if IsPolygonal(features[0].geometry) then [features[0].geometry] + rest else rest
  }

  lemma {:induction false} PolygonGeometriesAppend(features: seq<DrawnFeature>, f: DrawnFeature)
    ensures PolygonGeometries(features + [f])
         == PolygonGeometries(features) + (if IsPolygonal(f.geometry) then [f.geometry] else [])
  {
    if features == [] {
      assert features + [f] == [f];
    } else {
      assert (features + [f])[1..] == features[1..] + [f];
      PolygonGeometriesAppend(features[1..], f);
    }
  }

  lemma {:induction false} PolygonGeometriesMembership(features: seq<DrawnFeature>, g: Geometry)
    ensures g in PolygonGeometries(features) <==> IsPolygonal(g) && exists i :: 0 <= i < |features| && features[i].geometry == g
  {
    if features != [] {
      PolygonGeometriesMembership(features[1..], g);
      if IsPolygonal(g) && (exists i :: 0 <= i < |features| && features[i].geometry == g) {
        var i :| 0 <= i < |features| && features[i].geometry == g;
        if i > 0 {
          assert features[1..][i - 1].geometry == g;
        }
      }
      if exists i :: 0 <= i < |features[1..]| && features[1..][i].geometry == g {
        var i :| 0 <= i < |features[1..]| && features[1..][i].geometry == g;
        assert features[i + 1].geometry == g;
      }
    }
  }

  // ---------------------------------------------------------------------------
  // Enclosure check

  /** What `checkEnclosure` does: return no error, return an error message, or
      let an exception of the backend escape. */
  datatype EnclosureVerdict = NoEnclosure | Enclosed(message: string) | Raised

  /** The verdict for one existing polygon: within is tested before contains. */
  function VerdictAgainst(geo: Backend, p: Geometry, e: Geometry): (v: EnclosureVerdict)
    ensures v == NoEnclosure <==> geo.within(p, e) == Returned(false) && geo.contains(p, e) == Returned(false)
    ensures geo.within(p, e) == Returned(true) ==> v == Enclosed(InsideMessage)
    ensures v == Enclosed(EncloseMessage) <==> geo.within(p, e) == Returned(false) && geo.contains(p, e) == Returned(true)
    ensures v == Raised <==> geo.within(p, e).Threw? || (geo.within(p, e) == Returned(false) && geo.contains(p, e).Threw?)
  {
    match geo.within(p, e)
    case Threw => Raised
    case Returned(inside) =>
      if inside then Enclosed(InsideMessage)
      else
        match geo.contains(p, e)
        case Threw => Raised
        case Returned(encloses) => if encloses then Enclosed(EncloseMessage) else NoEnclosure
  }

  /** Specification of `checkEnclosure` over the filtered polygons: the first
      polygon, in list order, whose verdict is not NoEnclosure decides. */
  function Enclosure(geo: Backend, p: Geometry, polys: seq<Geometry>): (v: EnclosureVerdict)
    ensures polys == [] ==> v == NoEnclosure
    ensures v.Enclosed? ==> v.message == InsideMessage || v.message == EncloseMessage
    ensures v != NoEnclosure ==> exists e :: e in polys && VerdictAgainst(geo, p, e) == v
  {
    if polys == [] then NoEnclosure
    else
      var v := VerdictAgainst(geo, p, polys[0]);
      if v != NoEnclosure then v else Enclosure(geo, p, polys[1..])
  }

  method CheckEnclosure(geo: Backend, newPoly: Geometry, existing: seq<DrawnFeature>) returns (r: EnclosureVerdict)
    ensures r == Enclosure(geo, newPoly, PolygonGeometries(existing))
  {
    var polygons := PolygonGeometries(existing);
    for i := 0 to |polygons|
      invariant Enclosure(geo, newPoly, polygons) == Enclosure(geo, newPoly, polygons[i..])
    {
      assert polygons[i..][1..] == polygons[i + 1..];
      var inside := geo.within(newPoly, polygons[i]);
      if inside.Threw? {
        return Raised;
      }
      if inside.value {
        return Enclosed(InsideMessage);
      }
      var encloses := geo.contains(newPoly, polygons[i]);
      if encloses.Threw? {
        return Raised;
      }
      if encloses.value {
        return Enclosed(EncloseMessage);
      }
    }
    assert polygons[|polygons|..] == [];
    return NoEnclosure;
  }

  /** No enclosure is reported exactly when every polygon passes both tests. */
  lemma {:induction false} EnclosureClearIff(geo: Backend, p: Geometry, polys: seq<Geometry>)
    ensures Enclosure(geo, p, polys) == NoEnclosure
        <==> forall i :: 0 <= i < |polys| ==> geo.within(p, polys[i]) == Returned(false) && geo.contains(p, polys[i]) == Returned(false)
  {
    if polys != [] {
      EnclosureClearIff(geo, p, polys[1..]);
      assert forall i :: 1 <= i < |polys| ==> polys[1..][i - 1] == polys[i];
    }
  }

  /** The first polygon whose verdict is not NoEnclosure decides the result, and
      later polygons are not consulted. */
  lemma {:induction false} EnclosureFirstMatch(geo: Backend, p: Geometry, polys: seq<Geometry>, i: nat)
    requires i < |polys|
    requires forall j :: 0 <= j < i ==> VerdictAgainst(geo, p, polys[j]) == NoEnclosure
    requires VerdictAgainst(geo, p, polys[i]) != NoEnclosure
    ensures Enclosure(geo, p, polys) == VerdictAgainst(geo, p, polys[i])
  {
    if i > 0 {
      assert VerdictAgainst(geo, p, polys[0]) == NoEnclosure;
      assert forall j :: 0 <= j < i - 1 ==> polys[1..][j] == polys[j + 1];
      EnclosureFirstMatch(geo, p, polys[1..], i - 1);
    }
  }

  /** Conversely, every reported error or exception comes from a first polygon
      whose verdict it is. */
  lemma {:induction false} EnclosureWitness(geo: Backend, p: Geometry, polys: seq<Geometry>)
    requires Enclosure(geo, p, polys) != NoEnclosure
    ensures exists i :: (0 <= i < |polys|
      && (forall j :: 0 <= j < i ==> VerdictAgainst(geo, p, polys[j]) == NoEnclosure)
      && Enclosure(geo, p, polys) == VerdictAgainst(geo, p, polys[i]))
  {
    if VerdictAgainst(geo, p, polys[0]) == NoEnclosure {
      EnclosureWitness(geo, p, polys[1..]);
      var i :| (0 <= i < |polys[1..]|
        && (forall j :: 0 <= j < i ==> VerdictAgainst(geo, p, polys[1..][j]) == NoEnclosure)
        && Enclosure(geo, p, polys[1..]) == VerdictAgainst(geo, p, polys[1..][i]));
      assert forall j :: 1 <= j < i + 1 ==> polys[j] == polys[1..][j - 1];
      assert polys[i + 1] == polys[1..][i];
    }
  }

  /** Once a prefix of the polygons reports a problem, polygons after it change
      nothing. */
  lemma {:induction false} EnclosureIgnoresLater(geo: Backend, p: Geometry, a: seq<Geometry>, b: seq<Geometry>)
    requires Enclosure(geo, p, a) != NoEnclosure
    ensures Enclosure(geo, p, a + b) == Enclosure(geo, p, a)
  {
    assert (a + b)[0] == a[0];
    if VerdictAgainst(geo, p, a[0]) == NoEnclosure {
      assert (a + b)[1..] == a[1..] + b;
      EnclosureIgnoresLater(geo, p, a[1..], b);
    }
  }

  /** With no polygon among the accepted features (for instance only lines), no
      enclosure is reported whatever the backend says. */
  lemma {:induction false} NoPolygonsNoEnclosure(geo: Backend, p: Geometry, existing: seq<DrawnFeature>)
    requires forall i :: 0 <= i < |existing| ==> !IsPolygonal(existing[i].geometry)
    ensures PolygonGeometries(existing) == []
    ensures Enclosure(geo, p, PolygonGeometries(existing)) == NoEnclosure
  {
    if existing != [] {
      NoPolygonsNoEnclosure(geo, p, existing[1..]);
    }
  }

  // ---------------------------------------------------------------------------
  // Overlap trimming

  /** Whether subtracting `e` from the running candidate `c` consumes it. */
  predicate Consumes(geo: Backend, c: Geometry, e: Geometry) {
    geo.intersects(c, e) == Returned(true) && geo.difference(c, e) == Returned(None)
  }

  /** One iteration of `resolveOverlap`: the candidate after `e`, or `None` when the
      difference came back empty. A throw of either primitive is swallowed. */
  function Step(geo: Backend, c: Geometry, e: Geometry): (r: Option<Geometry>)
    ensures r.None? <==> Consumes(geo, c, e)
    ensures geo.intersects(c, e) != Returned(true) ==> r == Some(c)
    ensures geo.difference(c, e).Threw? ==> r == Some(c)
    ensures geo.intersects(c, e) == Returned(true) && geo.difference(c, e).Returned? && geo.difference(c, e).value.Some?
        ==> r == geo.difference(c, e).value
  {
    match geo.intersects(c, e)
    case Threw => Some(c)
    case Returned(hit) =>
      if !hit then Some(c)
      else
        match geo.difference(c, e)
        case Threw => Some(c)
        case Returned(diff) => if diff.None? then None else diff
  }

  /** Specification of `resolveOverlap`: a left fold of Step over the polygons
      in list order, stopping at the first empty difference. */
  function Trim(geo: Backend, c: Geometry, polys: seq<Geometry>): (r: Option<Geometry>)
    ensures polys == [] ==> r == Some(c)
    ensures r.None? ==> exists d, e :: e in polys && Consumes(geo, d, e)
    decreases polys
  {
    if polys == [] then Some(c)
    else
      match Step(geo, c, polys[0])
      case None => None
      case Some(next) => Trim(geo, next, polys[1..])
  }

  method ResolveOverlap(geo: Backend, newPoly: Geometry, existing: seq<DrawnFeature>) returns (r: Option<Geometry>)
    ensures r == Trim(geo, newPoly, PolygonGeometries(existing))
  {
    var currentPoly := newPoly;
    var polygons := PolygonGeometries(existing);
    for i := 0 to |polygons|
      invariant Trim(geo, newPoly, polygons) == Trim(geo, currentPoly, polygons[i..])
    {
      assert polygons[i..][1..] == polygons[i + 1..];
      var hit := geo.intersects(currentPoly, polygons[i]);
      if hit.Threw? {
        // the exception is caught and the candidate kept
      } else if hit.value {
        var diff := geo.difference(currentPoly, polygons[i]);
        if diff.Returned? {
          if diff.value.None? {
            return None;
          }
          currentPoly := diff.value.value;
        }
      }
    }
    assert polygons[|polygons|..] == [];
    return Some(currentPoly);
  }

  /** The fold splits at any point: trimming against `a + b` is trimming against
      `a`, then trimming what is left against `b`. */
  lemma {:induction false} TrimAppend(geo: Backend, c: Geometry, a: seq<Geometry>, b: seq<Geometry>)
    ensures Trim(geo, c, a + b) == (match Trim(geo, c, a) case None => None case Some(d) => Trim(geo, d, b))
    decreases a
  {
    if a == [] {
      assert a + b == b;
    } else {
      assert (a + b)[0] == a[0];
      assert (a + b)[1..] == a[1..] + b;
      match Step(geo, c, a[0])
      case None =>
      case Some(next) => TrimAppend(geo, next, a[1..], b);
    }
  }

  /** The running candidate just before polygon `i` is examined (`None` if an
      earlier difference already came back empty). */
  function Running(geo: Backend, p: Geometry, polys: seq<Geometry>, i: nat): Option<Geometry>
    requires i <= |polys|
  {
    Trim(geo, p, polys[..i])
  }

  /** Each polygon is tested against the running, already trimmed candidate. */
  lemma RunningStep(geo: Backend, p: Geometry, polys: seq<Geometry>, i: nat)
    requires i < |polys|
    ensures Running(geo, p, polys, i + 1)
         == (match Running(geo, p, polys, i) case None => None case Some(c) => Step(geo, c, polys[i]))
  {
    assert polys[..i + 1] == polys[..i] + [polys[i]];
    TrimAppend(geo, p, polys[..i], [polys[i]]);
  }

  /** Trimming returns None exactly when some difference, taken in list order
      against the running candidate, comes back empty. */
  lemma {:induction false} TrimNoneIff(geo: Backend, p: Geometry, polys: seq<Geometry>)
    ensures Trim(geo, p, polys).None?
        <==> exists i :: 0 <= i < |polys| && Running(geo, p, polys, i).Some? && Consumes(geo, Running(geo, p, polys, i).value, polys[i])
    decreases polys
  {
    if polys == [] {
    } else {
      var rest := polys[1..];
      assert polys[..0] == [];
      assert Running(geo, p, polys, 0) == Some(p);
      match Step(geo, p, polys[0])
      case None =>
        assert Consumes(geo, p, polys[0]);
      case Some(next) =>
        TrimNoneIff(geo, next, rest);
        forall i | 0 <= i < |rest|
          ensures Running(geo, p, polys, i + 1) == Running(geo, next, rest, i)
        {
          assert polys[..i + 1] == [polys[0]] + rest[..i];
          TrimAppend(geo, p, [polys[0]], rest[..i]);
          assert [polys[0]][1..] == [];
        }
        if exists i :: 0 <= i < |polys| && Running(geo, p, polys, i).Some? && Consumes(geo, Running(geo, p, polys, i).value, polys[i]) {
          var i :| 0 <= i < |polys| && Running(geo, p, polys, i).Some? && Consumes(geo, Running(geo, p, polys, i).value, polys[i]);
          assert i != 0;
          assert rest[i - 1] == polys[i];
          assert Running(geo, next, rest, i - 1).Some? && Consumes(geo, Running(geo, next, rest, i - 1).value, rest[i - 1]);
        }
        if exists i :: 0 <= i < |rest| && Running(geo, next, rest, i).Some? && Consumes(geo, Running(geo, next, rest, i).value, rest[i]) {
          var i :| 0 <= i < |rest| && Running(geo, next, rest, i).Some? && Consumes(geo, Running(geo, next, rest, i).value, rest[i]);
          assert rest[i] == polys[i + 1];
          assert Running(geo, p, polys, i + 1).Some? && Consumes(geo, Running(geo, p, polys, i + 1).value, polys[i + 1]);
        }
    }
  }

  /** An existing polygon that the running candidate does not intersect, or for
      which a primitive threw, has the same effect as if it were absent. */
  lemma SkippedPolygonIsIrrelevant(geo: Backend, p: Geometry, polys: seq<Geometry>, i: nat, c: Geometry)
    requires i < |polys|
    requires Running(geo, p, polys, i) == Some(c)
    requires geo.intersects(c, polys[i]) != Returned(true) || geo.difference(c, polys[i]).Threw?
    ensures Trim(geo, p, polys) == Trim(geo, p, polys[..i] + polys[i + 1..])
  {
    assert polys == polys[..i] + ([polys[i]] + polys[i + 1..]);
    TrimAppend(geo, p, polys[..i], [polys[i]] + polys[i + 1..]);
    TrimAppend(geo, p, polys[..i], polys[i + 1..]);
  }

  /** Once the candidate is consumed, later polygons are not examined: any
      continuation of the list still yields None. */
  lemma TrimStopsWhenConsumed(geo: Backend, p: Geometry, a: seq<Geometry>, b: seq<Geometry>)
    requires Trim(geo, p, a).None?
    ensures Trim(geo, p, a + b).None?
  {
    TrimAppend(geo, p, a, b);
  }

  /** If no polygon intersects the input, it comes back unchanged. */
  lemma {:induction false} TrimNoIntersection(geo: Backend, p: Geometry, polys: seq<Geometry>)
    requires forall i :: 0 <= i < |polys| ==> geo.intersects(p, polys[i]) != Returned(true)
    ensures Trim(geo, p, polys) == Some(p)
  {
    if polys != [] {
      assert forall i :: 0 <= i < |polys[1..]| ==> polys[1..][i] == polys[i + 1];
      TrimNoIntersection(geo, p, polys[1..]);
    }
  }

  /** A trimmed result is either the untouched input or the value the difference
      primitive returned for some polygon against the running candidate just
      before it. */
  lemma {:induction false} TrimProvenance(geo: Backend, p: Geometry, polys: seq<Geometry>)
    requires Trim(geo, p, polys).Some?
    ensures Trim(geo, p, polys).value == p
         || exists i :: (0 <= i < |polys| && Running(geo, p, polys, i).Some?
                && geo.difference(Running(geo, p, polys, i).value, polys[i]) == Returned(Some(Trim(geo, p, polys).value)))
    decreases polys
  {
    if polys != [] {
      var next := Step(geo, p, polys[0]).value;
      var rest := polys[1..];
      TrimProvenance(geo, next, rest);
      var r := Trim(geo, p, polys).value;
      assert polys[..0] == [];
      assert Running(geo, p, polys, 0) == Some(p);
      if r != next {
        var i :| 0 <= i < |rest| && Running(geo, next, rest, i).Some?
              && geo.difference(Running(geo, next, rest, i).value, rest[i]) == Returned(Some(r));
        assert polys[..i + 1] == [polys[0]] + rest[..i];
        TrimAppend(geo, p, [polys[0]], rest[..i]);
        assert [polys[0]][1..] == [];
        assert Running(geo, p, polys, i + 1) == Running(geo, next, rest, i);
        assert geo.difference(Running(geo, p, polys, i + 1).value, polys[i + 1]) == Returned(Some(r));
      } else if next != p {
        assert geo.difference(p, polys[0]) == Returned(Some(r));
      }
    }
  }
}
