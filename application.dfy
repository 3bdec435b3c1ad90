/** The application state (src/App.tsx): the append-only list of accepted
    features, the active mode and the last error, with the per-kind counts, the
    export object and the wiring of toolbar and drawing control events. */
module Application {
  import opened Types
  import opened GeoUtils
  import Toolbar
  import opened Drawing

  /** The number of features of kind `k`. */
  function CountOf(features: seq<DrawnFeature>, k: ShapeType): (n: nat)
    ensures n <= |features|
  {
    if features == [] then 0
    else CountOf(features[..|features| - 1], k) + (if KindOf(features[|features| - 1]) == k then 1 else 0)
  }

  /** The count is the number of positions that hold a feature of kind `k`. */
  lemma {:induction false} CountOfIsCardinality(features: seq<DrawnFeature>, k: ShapeType)
    ensures CountOf(features, k) == |set i | 0 <= i < |features| && KindOf(features[i]) == k|
  {
    var n := |features|;
    var all := set i | 0 <= i < n && KindOf(features[i]) == k;
    if n > 0 {
      var init := features[..n - 1];
      var before := set i | 0 <= i < n - 1 && KindOf(init[i]) == k;
      CountOfIsCardinality(init, k);
      if KindOf(features[n - 1]) == k {
        assert all == before + {n - 1};
        assert n - 1 !in before;
      } else {
        assert all == before;
      }
    } else {
      assert all == {};
    }
  }

  /** A kind's count is zero exactly when no feature has that kind. */
  lemma CountOfZeroIff(features: seq<DrawnFeature>, k: ShapeType)
    ensures CountOf(features, k) == 0 <==> forall i :: 0 <= i < |features| ==> KindOf(features[i]) != k
  {
    CountOfIsCardinality(features, k);
    var all := set i | 0 <= i < |features| && KindOf(features[i]) == k;
    if CountOf(features, k) == 0 {
      assert all == {};
    } else {
      var i :| i in all;
    }
  }

  /** Every feature has exactly one kind: the four counts add up to the length. */
  lemma {:induction false} CountsPartitionFeatures(features: seq<DrawnFeature>)
    ensures CountOf(features, Circle) + CountOf(features, Rectangle) + CountOf(features, Polygon) + CountOf(features, LineString) == |features|
  {
    if features != [] {
      CountsPartitionFeatures(features[..|features| - 1]);
    }
  }

  lemma CountOfAppend(features: seq<DrawnFeature>, f: DrawnFeature, k: ShapeType)
    ensures CountOf(features + [f], k) == CountOf(features, k) + (if KindOf(f) == k then 1 else 0)
  {
    assert (features + [f])[..|features|] == features;
  }

  /** The `counts` record: a kind is present exactly when some feature has it,
      with the number of such features. */
  method Counts(features: seq<DrawnFeature>) returns (c: map<ShapeType, nat>)
    ensures forall k :: k in c <==> CountOf(features, k) > 0
    ensures forall k :: k in c ==> c[k] == CountOf(features, k)
  {
    c := map[];
    for i := 0 to |features|
      invariant forall k :: k in c <==> CountOf(features[..i], k) > 0
      invariant forall k :: k in c ==> c[k] == CountOf(features[..i], k)
    {
      assert features[..i + 1][..i] == features[..i];
      var kind := KindOf(features[i]);
      c := c[kind := (if kind in c then c[kind] else 0) + 1];
    }
    assert features[..|features|] == features;
  }

  /** The count the toolbar reads for a kind is its number of features. */
  lemma ToolCountOfCounts(c: map<ShapeType, nat>, features: seq<DrawnFeature>, k: ShapeType)
    requires forall j :: j in c <==> CountOf(features, j) > 0
    requires forall j :: j in c ==> c[j] == CountOf(features, j)
    ensures Toolbar.ToolCount(c, k) == CountOf(features, k)
  {
  }

  /** The exported document. */
  datatype FeatureCollection = FeatureCollection(kind: string, features: seq<DrawnFeature>)

  function ExportCollection(features: seq<DrawnFeature>): (doc: FeatureCollection)
    ensures doc.kind == "FeatureCollection"
    ensures doc.features == features
  {
    FeatureCollection("FeatureCollection", features)
  }

  /** No kind is over its cap, and the active kind is strictly below it, so a
      shape finished in the active mode still fits. */
  predicate WithinCaps(features: seq<DrawnFeature>, mode: Option<ShapeType>): (b: bool)
    ensures b ==> |features| <= 30
    ensures b && mode.Some? ==> |features| < 30
  {
    CountsPartitionFeatures(features);
    && (forall k :: CountOf(features, k) <= ToolsConfig(k))
    && (mode.Some? ==> CountOf(features, mode.value) < ToolsConfig(mode.value))
  }

  /** Appending a feature of the active kind keeps every kind within its cap. */
  lemma AppendInActiveMode(features: seq<DrawnFeature>, f: DrawnFeature)
    requires WithinCaps(features, Some(KindOf(f)))
    ensures WithinCaps(features + [f], None)
  {
    forall k ensures CountOf(features + [f], k) <= ToolsConfig(k) {
      CountOfAppend(features, f, k);
    }
  }

  /** The kind of a feature created by finishing a shape is the mode's kind. */
  lemma CreatedKindIsMode(mode: Option<ShapeType>, points: seq<LatLng>, features: seq<DrawnFeature>, env: Env)
    requires mode.Some? ==> Materializable(mode.value, points)
    requires Finish(mode, points, features, env).FeatureCreated?
    ensures mode.Some? && KindOf(Finish(mode, points, features, env).feature) == mode.value
  {
  }

  class App {
    var features: seq<DrawnFeature>
    var mode: Option<ShapeType>
    var error: Option<string>
    const draw: DrawControl

    ghost predicate Valid()
      reads this, draw
    {
      && draw.Valid()
      && draw.mode == mode
      && WithinCaps(features, mode)
    }

    constructor ()
      ensures Valid() && fresh(draw)
      ensures features == [] && mode == None && error == None && draw.points == []
    {
      features := [];
      mode := None;
      error := None;
      draw := new DrawControl(None);
    }

    /** `setMode`: the drawing control sees the new mode and clears its capture
        when the mode changed. Its callers (an enabled tool button, the exit
        after a created feature) only ask for a kind below its cap, or for none. */
    method SetMode(m: Option<ShapeType>)
      requires Valid()
      requires m.Some? ==> CountOf(features, m.value) < ToolsConfig(m.value)
      modifies this, draw
      ensures Valid() && mode == m
      ensures features == old(features) && error == old(error)
      ensures draw.points == if m != old(mode) then [] else old(draw.points)
    {
      mode := m;
      draw.ModeChanged(m);
    }

    /** `handleFeatureCreated`: append the feature and leave drawing mode. */
    method HandleFeatureCreated(f: DrawnFeature)
      requires Valid() && mode.Some? && KindOf(f) == mode.value
      modifies this, draw
      ensures Valid()
      ensures features == old(features) + [f] && mode == None && error == old(error)
    {
      AppendInActiveMode(features, f);
      features := features + [f];
      mode := None;
      draw.ModeChanged(None);
    }

    /** Dispatches what the drawing control emitted to `onError` or
        `onFeatureCreated`. */
    method Receive(out: Emit)
      requires Valid()
      requires out.FeatureCreated? ==> mode.Some? && KindOf(out.feature) == mode.value
      modifies this, draw
      ensures Valid()
      ensures features == old(features) + (if out.FeatureCreated? then [out.feature] else [])
      ensures mode == if out.FeatureCreated? then None else old(mode)
      ensures error == if out.ErrorRaised? then Some(out.message) else old(error)
      ensures !out.FeatureCreated? ==> draw.points == old(draw.points)
    {
      match out {
        case FeatureCreated(f) => HandleFeatureCreated(f);
        case ErrorRaised(message) => error := Some(message);
        case Quiet =>
        case Escaped =>
      }
    }

    /** A press of a tool button, with the counts of the accepted features and
        the fixed caps. */
    method PressTool(k: ShapeType)
      requires Valid()
      modifies this, draw
      ensures Valid()
      ensures features == old(features) && error == old(error)
      ensures CountOf(features, k) >= ToolsConfig(k) && old(mode) != Some(k) ==> mode == old(mode)
      ensures !(CountOf(features, k) >= ToolsConfig(k) && old(mode) != Some(k)) ==> mode == Toolbar.NextMode(old(mode), k)
      ensures draw.points == if mode != old(mode) then [] else old(draw.points)
    {
      var counts := Counts(features);
      ToolCountOfCounts(counts, features, k);
      if !Toolbar.ButtonDisabled(counts, ToolsConfig, mode, k) {
        SetMode(Toolbar.NextMode(mode, k));
      }
    }

    /** A primary click on the map. */
    method MapClick(p: LatLng, env: Env) returns (out: Emit)
      requires Valid()
      modifies this, draw
      ensures Valid()
      ensures old(mode).None? ==> out == Quiet
      ensures old(mode).Some? && FinishesOnClick(old(mode).value, |old(draw.points)| + 1)
        ==> out == Finish(old(mode), old(draw.points) + [p], old(features), env)
      ensures old(mode).Some? && !FinishesOnClick(old(mode).value, |old(draw.points)| + 1)
        ==> (out == Quiet && draw.points == old(draw.points) + [p])
      ensures old(mode).Some? && FinishesOnClick(old(mode).value, |old(draw.points)| + 1)
        ==> draw.points == if out.Escaped? then old(draw.points) + [p] else []
      ensures features == old(features) + (if out.FeatureCreated? then [out.feature] else [])
      ensures mode == if out.FeatureCreated? then None else old(mode)
      ensures error == if out.ErrorRaised? then Some(out.message) else old(error)
    {
      out := draw.Click(p, features, env);
      if out.FeatureCreated? {
        CreatedKindIsMode(mode, old(draw.points) + [p], features, env);
      }
      Receive(out);
    }

    /** A right-click on the map. */
    method MapContextMenu(env: Env) returns (out: Emit)
      requires Valid()
      modifies this, draw
      ensures Valid()
      ensures !FinishesOnContextMenu(old(mode), |old(draw.points)|) ==> (out == Quiet && draw.points == old(draw.points))
      ensures FinishesOnContextMenu(old(mode), |old(draw.points)|)
        ==> out == Finish(old(mode), old(draw.points), old(features), env)
      ensures FinishesOnContextMenu(old(mode), |old(draw.points)|)
        ==> draw.points == if out.Escaped? then old(draw.points) else []
      ensures features == old(features) + (if out.FeatureCreated? then [out.feature] else [])
      ensures mode == if out.FeatureCreated? then None else old(mode)
      ensures error == if out.ErrorRaised? then Some(out.message) else old(error)
    {
      out := draw.ContextMenu(features, env);
      if out.FeatureCreated? {
        CreatedKindIsMode(mode, old(draw.points), features, env);
      }
      Receive(out);
    }

    /** The export object of the current list. */
    function Export(): (doc: FeatureCollection)
      reads this
      ensures doc.kind == "FeatureCollection" && doc.features == features
    {
      ExportCollection(features)
    }
  }
}
