# Map drawing widget: a Dafny model

This project models the logic of a small map drawing widget. A user picks one of
four tools (circle, rectangle, polygon, line), clicks points on the map, and the
finished shape is checked against the polygons already accepted. A new polygon
may neither lie inside nor enclose an existing one. It is trimmed by every
polygon it overlaps, and rejected when nothing is left. Each kind has a fixed
cap on how many shapes may be drawn. The accepted features can be exported as a
GeoJSON feature collection.

Modules, one per source file:

- `Types` (`src/types/index.ts`): shape kinds, coordinates, geometries and the
  drawn feature record. `Try<T>` is the result of a library call that may throw.
- `GeoUtils` (`src/utils/geoUtils.ts`): the caps, the enclosure check and the
  overlap trimming. The geometry library is a `Backend` value whose four fields
  (`within`, `contains`, `intersects`, `difference`) are arbitrary functions.
  Every lemma holds for every backend, so no geometric fact is assumed.
  `Enclosure` and `Trim` are the specification functions. The loop methods
  `CheckEnclosure` and `ResolveOverlap` are proved equal to them. The lemmas
  describe these functions: the first match wins, the early exit, the left fold
  against the running candidate, and skipped failures.
- `Drawing` (`src/components/DrawControl.tsx`): the class `DrawControl` holds the
  mode and the captured points (`pointsRef.current`), with one method per event.
  `Finish` specifies `finishShape`; `Candidate`, `ShapeGeometry` and `Validate`
  are its parts. A finished shape returns one `Emit` value: nothing, one error
  message, one created feature, or an exception escaping the handler. So at most
  one callback fires per event.
- `Toolbar` (`src/components/Toolbar.tsx`): pure rules for a tool's count, its
  disabled state and the next mode.
- `Application` (`src/App.tsx`): the counts (a loop over the features), the
  export object, and the class `App`. `App` holds the append-only feature list,
  the mode, the last error and the drawing control. It routes toolbar presses
  and map events. Its invariant `Valid()` is kept by every method. The invariant
  says no kind ever exceeds its cap, and the active kind is strictly below its
  cap.

The interfaces to the world are inputs of the model, not computed by it. The
`Env` datatype carries the geometry backend, the two generated identifiers
(`uuidv4`), the timestamp (`Date.now`), the great-circle distance (`distanceTo`)
and the circle approximation (`turf.circle`).

Behaviour of the code worth knowing:

- The error messages are the code's: "Cannot place a polygon completely inside
  another.", "Cannot enclose an existing polygon." and "Shape completely
  overlaps existing shape.".
- A throw from `booleanIntersects` or `difference` during trimming is caught,
  logged with `console.error`, and otherwise ignored. The candidate is kept and
  the loop goes on.
- Trimming is ordered. Each polygon is tested against the running, already
  trimmed candidate, not against the original shape.
- `checkEnclosure` has no `try`, so a throw of `booleanWithin` or
  `booleanContains` leaves `finishShape`. Then there is no `onError`, no
  feature, and the points are not cleared (`Emit.Escaped`). In circle or
  rectangle mode the list then holds 2 points, and later clicks never reach
  length 2 again. Only a mode change clears it.
- The toolbar receives the caps as a parameter (`maxConfig`, modelled as
  `caps`). The application passes `ToolsConfig`.

## Model

| member | source | states |
|---|---|---|
| `GeoUtils.ToolsConfig` | src/utils/geoUtils.ts:5-10 | The caps: 5 for Circle and Rectangle, 10 for Polygon and LineString |
| `GeoUtils.PolygonGeometries` | src/utils/geoUtils.ts:20 | The pre-filter keeps only Polygon/MultiPolygon geometries and is never longer than the feature list |
| `GeoUtils.PolygonGeometriesAppend` | src/utils/geoUtils.ts:20 | The filter keeps list order: a new feature adds its geometry at the end iff that geometry is polygonal |
| `GeoUtils.PolygonGeometriesMembership` | src/utils/geoUtils.ts:20 | A geometry is filtered in iff it is polygonal and belongs to some feature |
| `GeoUtils.VerdictAgainst` | src/utils/geoUtils.ts:23-30 | For one polygon, within is tested before contains. Within wins when both hold. The result is clear iff both tests return false, and an exception of either test propagates |
| `GeoUtils.CheckEnclosure` | src/utils/geoUtils.ts:16-33 | The loop with early returns computes exactly the first-match specification `Enclosure` over the filtered polygons |
| `GeoUtils.EnclosureClearIff` | src/utils/geoUtils.ts:22-32 | No error iff, for every existing polygon, within and contains both return false |
| `GeoUtils.EnclosureFirstMatch` | src/utils/geoUtils.ts:22-31 | The first polygon in list order whose verdict is not clear decides the result |
| `GeoUtils.EnclosureWitness` | src/utils/geoUtils.ts:22-31 | Every reported error or exception is the verdict of a polygon all of whose predecessors were clear |
| `GeoUtils.EnclosureIgnoresLater` | src/utils/geoUtils.ts:22-31 | Once some polygon fails the check, polygons after it change nothing |
| `GeoUtils.NoPolygonsNoEnclosure` | src/utils/geoUtils.ts:20-32 | With no polygonal feature, the filtered list is empty and the check returns null, whatever the backend |
| `GeoUtils.Enclosure` | src/utils/geoUtils.ts:22-32 | The first-match specification. With no polygons it is clear. A reported error carries one of the two enclosure messages. Any non-clear result is the verdict against some listed polygon. Proved about it: `EnclosureClearIff`, `EnclosureFirstMatch`, `EnclosureWitness`, `EnclosureIgnoresLater` |
| `GeoUtils.Step` | src/utils/geoUtils.ts:48-60 | One iteration. It consumes the candidate iff intersects is true and the difference is empty. A non-intersecting polygon, or a throw of either primitive, keeps the candidate. Otherwise the candidate becomes the difference |
| `GeoUtils.ResolveOverlap` | src/utils/geoUtils.ts:39-64 | The loop that reassigns `currentPoly` and returns early on an empty difference computes exactly the fold `Trim` over the filtered polygons |
| `GeoUtils.Trim` | src/utils/geoUtils.ts:43-63 | The fold specification. With no polygons the input comes back. A null result requires some listed polygon that consumed a candidate. Proved about it: `TrimAppend`, `RunningStep`, `TrimNoneIff`, `TrimProvenance`, `TrimNoIntersection` |
| `GeoUtils.TrimAppend` | src/utils/geoUtils.ts:43-63 | Trimming is a left fold: against `a + b` it is trimming against `a`, then the remainder against `b` |
| `GeoUtils.RunningStep` | src/utils/geoUtils.ts:47-54 | Each polygon is tested against the running, already trimmed candidate |
| `GeoUtils.TrimNoneIff` | src/utils/geoUtils.ts:50-52 | The result is null iff some difference, taken in list order against the running candidate, is empty |
| `GeoUtils.SkippedPolygonIsIrrelevant` | src/utils/geoUtils.ts:48-60 | A polygon that the running candidate does not intersect, or for which a primitive threw, has the same effect as removing it from the list |
| `GeoUtils.TrimStopsWhenConsumed` | src/utils/geoUtils.ts:52 | Once the candidate is consumed, appending any later polygons still gives null |
| `GeoUtils.TrimNoIntersection` | src/utils/geoUtils.ts:43-63 | If no polygon intersects the input, the input is returned unchanged |
| `GeoUtils.TrimProvenance` | src/utils/geoUtils.ts:51-63 | A non-null result is the input itself, or the value `difference` returned for some polygon against the running candidate just before it |
| `Drawing.Positions` | src/components/DrawControl.tsx:120 | The coordinates are `[lng, lat]` of each point, in click order, with the same length |
| `Drawing.ClosedRing` | src/components/DrawControl.tsx:120-124 | The ring's first position equals its last, and it starts with the clicked positions. Its length is n, or n+1 exactly when first and last differ. An already closed list is unchanged |
| `Drawing.ClosedRingIdempotent` | src/components/DrawControl.tsx:121-123 | Closing a closed ring changes nothing |
| `Drawing.Bounds` | src/components/DrawControl.tsx:110-116 | `[west, south, east, north]` is the smallest box that holds both clicked corners. Each side is one of the corners' coordinates |
| `Drawing.RectangleRing` | src/components/DrawControl.tsx:109-117 | The rectangle is one closed ring of five positions whose vertices are box corners. The four vertices are pairwise distinct when the clicks differ in both coordinates |
| `Drawing.RadiusProperty` | src/components/DrawControl.tsx:140 | `radius` is present iff the kind is Circle and the distance is non-zero, and then it equals the distance |
| `Drawing.ShapeGeometry` | src/components/DrawControl.tsx:99-130 | A circle is the library circle at the first click, with radius distance/1000 km and 64 steps. A rectangle is one closed five-position ring from the lower-left to the upper-right corner of the clicks. A polygon is one closed ring starting with the clicks. A line's coordinates are the clicks. Rectangles and polygons are polygonal. See also `RectangleRing` and `AcceptedPolygonIsClosed` |
| `Drawing.Candidate` | src/components/DrawControl.tsx:132-142 | The candidate has the generated feature and property ids, the mode's kind, the timestamp, a radius only for a circle with non-zero distance, and the geometry of its kind |
| `Drawing.Validate` | src/components/DrawControl.tsx:144-160 | Validation never ends quietly. A line is created unchanged. A created feature keeps the candidate's id and properties. An error carries one of the three messages. An escape happens only for a non-line whose enclosure check threw. See `FinishOutcome` |
| `Drawing.Finish` | src/components/DrawControl.tsx:96-164 | `finishShape` does nothing exactly when there is no mode. A created feature has the mode's kind and the generated id. A line never escapes. See `FinishOutcome`, `CreatedFeatureIdentity`, `RejectionMessages` |
| `Drawing.FinishesOnClick` | src/components/DrawControl.tsx:41-51 | A click finishes only when the list has just reached 2 points, and never in polygon or line mode |
| `Drawing.FinishesOnContextMenu` | src/components/DrawControl.tsx:90 | A right-click finishes only in polygon or line mode with at least 3 points |
| `Drawing.FinishOutcome` | src/components/DrawControl.tsx:145-162 | A line is created unchecked. Otherwise enclosure runs first: its message goes to `onError`, and an exception escapes. Then a null trim gives the overlap message. A feature is created iff both checks pass |
| `Drawing.CreatedFeatureIdentity` | src/components/DrawControl.tsx:132-159 | A created feature keeps `id`, `shapeType` (the mode), `createdAt` and `radius`. For polygon kinds its geometry is the trimmed geometry |
| `Drawing.AcceptedPolygonIsClosed` | src/components/DrawControl.tsx:118-124 | When nothing encloses or intersects a drawn polygon, it is accepted with a closed ring that starts with the clicks in order |
| `Drawing.LineStringUnchecked` | src/components/DrawControl.tsx:125-129 | For any backend and any accepted features, a line is created with the clicked points, unmodified and with the same length |
| `Drawing.RejectionMessages` | src/components/DrawControl.tsx:145-158 | A rejection carries one of the three messages of the code |
| `Drawing.DrawControl.constructor` | src/components/DrawControl.tsx:19-21 | The control starts with the given mode and no captured points |
| `Drawing.DrawControl.ModeChanged` | src/components/DrawControl.tsx:24-31 | When the mode changes, the captured points are cleared |
| `Drawing.DrawControl.Reset` | src/components/DrawControl.tsx:166-173 | `reset` clears the captured points |
| `Drawing.DrawControl.FinishShape` | src/components/DrawControl.tsx:96-164 | Computes exactly `Finish`. It does nothing without a mode. Every later exit clears the points, except an exception escaping the enclosure check |
| `Drawing.DrawControl.Click` | src/components/DrawControl.tsx:34-58 | With no mode nothing happens. Otherwise the point goes at the end of the list, and `finishShape` runs exactly when a circle or rectangle reaches 2 points. Polygon and line clicks never finish |
| `Drawing.DrawControl.ContextMenu` | src/components/DrawControl.tsx:88-93 | Right-click finishes only in polygon or line mode with more than 2 points. Otherwise nothing changes |
| `Toolbar.ToolsListEachKindOnce` | src/components/Toolbar.tsx:14-19 | The tools are offered in the fixed order Circle, Rectangle, Polygon, LineString, each kind exactly once |
| `Toolbar.ToolCount` | src/components/Toolbar.tsx:38 | A tool's count is the recorded count, or 0 when its kind is absent |
| `Toolbar.NextMode` | src/components/Toolbar.tsx:45 | Clicking the active tool turns the mode off. Clicking another tool selects it |
| `Toolbar.AtLimit` | src/components/Toolbar.tsx:38-40 | A tool is at its limit iff its recorded count reaches its cap. An absent kind is at its limit only with a zero cap |
| `Toolbar.ButtonDisabled` | src/components/Toolbar.tsx:46 | A disabled button is at its limit. The active tool's button and a tool below its cap are never disabled. See `ActiveNeverDisabled` |
| `Toolbar.Press` | src/components/Toolbar.tsx:45-46 | A press makes `k` the mode iff `k` is not active and is below its cap. Pressing the active tool turns the mode off. A disabled button leaves the mode unchanged |
| `Toolbar.ActiveNeverDisabled` | src/components/Toolbar.tsx:46 | The active tool's button is never disabled, even at its cap |
| `Toolbar.PressRespectsCaps` | src/components/Toolbar.tsx:40-46 | After a press, the mode is unchanged, off, or a kind below its cap |
| `Toolbar.Buttons` | src/components/Toolbar.tsx:37-46 | One button per tool in the fixed order. Each has its count and cap, is at its limit iff count reaches cap, and is disabled iff at its limit and not active |
| `Application.CountOfIsCardinality` | src/App.tsx:29-36 | The number of features of a kind equals the number of list positions holding that kind |
| `Application.CountOf` | src/App.tsx:29-36 | A kind's count never exceeds the number of features. See `CountOfIsCardinality`, `CountOfZeroIff`, `CountsPartitionFeatures` |
| `Application.CountsPartitionFeatures` | src/App.tsx:29-36 | The four per-kind counts add up to the number of features |
| `Application.CountOfZeroIff` | src/App.tsx:31-35 | A kind's count is zero iff no feature has that kind, which is when the kind is absent from `counts` |
| `Application.CountOfAppend` | src/App.tsx:33 | Appending a feature adds one to its own kind's count and leaves the other kinds' counts unchanged |
| `Application.Counts` | src/App.tsx:29-36 | The `forEach` accumulation holds exactly the kinds that have features, each with its number of features. Kinds without features are absent |
| `Application.ToolCountOfCounts` | src/App.tsx:67-73 | The count the toolbar reads from `counts` is the number of features of that kind |
| `Application.ExportCollection` | src/App.tsx:44-47 | The export object has type "FeatureCollection", and its features are the list, in order |
| `Application.AppendInActiveMode` | src/App.tsx:39-40 | Appending a feature of the active kind keeps every kind within its cap |
| `Application.WithinCaps` | src/components/Toolbar.tsx:40-46 | The caps invariant: every kind within its cap and the active kind below it. It bounds the feature list by 30 (5+5+10+10), and by 29 while a mode is active |
| `Application.CreatedKindIsMode` | src/components/DrawControl.tsx:138 | A created feature's kind is the mode it was drawn in |
| `Application.App.constructor` | src/App.tsx:25-27 | The application starts with no features, no mode and no error |
| `Application.App.SetMode` | src/App.tsx:26 | Setting the mode keeps features and error, and clears the capture when the mode changed |
| `Application.App.HandleFeatureCreated` | src/App.tsx:38-41 | The feature goes at the end, earlier features are unchanged, the length grows by one, and the mode becomes null |
| `Application.App.Receive` | src/App.tsx:103-108 | `onError` records the message. `onFeatureCreated` appends and leaves the mode. Nothing else changes the list |
| `Application.App.PressTool` | src/components/Toolbar.tsx:45-46 | A tool at its cap that is not active cannot be selected. Any other press toggles the mode. The capture is cleared exactly when the mode changed. Features never change |
| `Application.App.MapClick` | src/components/DrawControl.tsx:34-58 | A map click as the control handles it, with its emission applied. When the click finishes a shape, the capture is cleared unless the enclosure check threw. The list only grows by the created feature, and the caps invariant holds |
| `Application.App.MapContextMenu` | src/components/DrawControl.tsx:88-93 | A right-click as the control handles it, with its emission applied. When it finishes a shape, the capture is cleared unless the enclosure check threw. The list only grows by the created feature |
| `Application.App.Export` | src/App.tsx:43-47 | The exported features are the current list, in order |

## Left out

- Map rendering is not modelled. This covers preview layers and their removal, the rendered GeoJSON layers and styles, the marker-icon patch, and the `mousemove` handler, which only draws the preview.
- The geometry library has no internals here. `booleanWithin`, `booleanContains`, `booleanIntersects` and `difference` are arbitrary functions in `Backend`, with no geometric axioms. `Trim` compares geometries only, while the library compares features; the properties of the intermediate features are never read.
- `turf.circle` and `distanceTo` are floating-point code in a foreign library, so they are `Env` inputs. The model passes the 64-step count and the radius in kilometres, but says nothing about the circle's vertices.
- `bboxPolygon` is written out with the corner order the library documents for it (lower left, lower right, upper right, upper left, lower left). It is not source of this repository.
- `uuidv4()` and `Date.now()` are `Env` inputs, so identifier uniqueness is not modelled.
- Coordinates are mathematical reals. NaN and floating-point rounding are not modelled.
- Export file mechanics (`JSON.stringify`, `Blob`, object URLs, the download anchor) are I/O. Only the collection object is modelled.
- The 3-second auto-dismiss timer and the error banner are UI timing. `error` keeps the last message.
- React semantics are not modelled: asynchronous state updates, effect scheduling, and stale closure captures in the handlers. `points` is the authoritative list, and props are read as current. `App.HandleFeatureCreated` appends the feature, then clears the mode, in the order of the two state updates.
- The `console.error` log of a caught trimming exception is I/O and is not modelled.
- Toolbar styling, icons, titles and label strings are presentation. `Toolbar.Buttons` keeps only count, cap and the two disabled flags.
- `finishShape` is called only with enough points for its kind (at least 2 for circle and rectangle, at least 1 for a polygon), which every caller guarantees. With fewer, the code would read an undefined point.
