# Zone-based intrusion decision engine, modelled in Dafny

This project models the decision core of a video intrusion detector. A person
detector reports boxes for each frame. Each box is reduced to its centre, and
the centre is tested against operator-drawn polygonal zones. A frame with at
least one box in at least one zone switches the alarm on at once. Frames
without such a box let it switch off only after a hysteresis of 3.0 clock
units.

Modules, one per source file:

- `Wrappers` (`wrappers.dfy`): the `Option` type used for Python's `None`-or-value.
- `Geometry` (`geometry.dfy`, src/geometry_utils.py):
  - the box centre, truncated the way Python's `int()` truncates;
  - an inclusive point-in-polygon test;
  - the ordered list of the ids of the zones that contain a point, as a loop (`CheckPersonInZones`) and as a specification function (`ZonesContaining`).
- `Zones` (`zones.dfy`, src/zone_manager.py): the registry class `ZoneManager`, whose `zones` sequence its methods load, append to and clear.
- `Intrusion` (`intrusion.dfy`, src/intrusion_detector.py):
  - the class `AlarmState`, whose fields its methods change in place;
  - the pure transition functions that specify it, with lemmas about runs of frames;
  - the per-frame scan (`ScanDetections`) and `IntrusionDetector.ProcessFrame`, which feeds its result to the alarm.

Modelling decisions:

- Box corners and the clock are mathematical reals. Vertices and centres are integers.
- `cv2.pointPolygonTest` is replaced by our own definition. A point is inside when it lies on an edge, or when a horizontal ray from it crosses the edges an odd number of times (half-open straddle rule, exact integer cross products). Polygons with fewer than three vertices get no meaning. The operations that test zones require every zone to have at least three vertices.
- The source tests the pending switch-off time with Python truthiness, so a time of exactly `0.0` counts as unset. `AlarmState.CheckDeactivate` keeps that test. Its contract reads the old state through `AsTested`, which maps a pending `0.0` to "none". When the clock never reads a negative time, every pending time is at least 3.0, and `AsTested` is the identity (`WellTimed`, `Step`, `RunInvariants`).
- In these places the model follows the code:
  - `load_zones` on a missing file leaves the list as it was. Only the constructor's starting list makes it empty.
  - Zones read from a document are taken as stored, with no integer coercion.
  - A document that is not a JSON object raises an error in the code instead of degrading to an empty list. That case is not modelled.

## Model

| member | source | states |
|---|---|---|
| Geometry.TruncateToInt | src/geometry_utils.py:14-15 | `int()` truncates toward zero: for non-negative r the result is the largest integer not above r; for negative r, the smallest not below it |
| Geometry.BBoxCenter | src/geometry_utils.py:12-16 | each centre coordinate is within one unit of the midpoint `(c1+c2)/2`, on the side toward zero |
| Geometry.CenterTruncates | src/geometry_utils.py:12-16 | the box (0,0,10,11) has centre (5,5): the half is dropped, not rounded |
| Geometry.CenterWithinBox | src/geometry_utils.py:13-16 | for 0 ≤ x1 ≤ x2 and 0 ≤ y1 ≤ y2 the centre lies between the floors of the corners, so within the box for integer corners |
| Geometry.PointInPolygon | src/geometry_utils.py:6-9 | for a polygon of at least 3 vertices, a point is inside when it lies on an edge (closing edge included) or when a rightward ray from it crosses the edges an odd number of times under the half-open rule; every point on the boundary is reported inside |
| Geometry.BoundaryIsInside | src/geometry_utils.py:6-9 | containment is inclusive: every point on any edge, the closing edge included, is reported inside |
| Geometry.VertexIsInside | src/geometry_utils.py:6-9 | every vertex of the polygon is reported inside |
| Geometry.OutsideBoundingBox | src/geometry_utils.py:6-9 | a point strictly left of, right of, above or below every vertex is reported outside |
| Geometry.SquareContainsCentre | src/geometry_utils.py:6-9 | the centre of a 10×10 square is inside |
| Geometry.SquareBoundaryAndBeyond | src/geometry_utils.py:6-9 | of that square, a point on the right edge and a corner are inside, and a point beyond the right edge is outside |
| Geometry.ZonesContaining | src/geometry_utils.py:19-24 | the result never has more ids than there are zones, and is empty for an empty zone list |
| Geometry.ZonesContainingInOrder | src/geometry_utils.py:19-24 | the result lists exactly the containing zones' ids, one per containing zone, in registry order; its k-th id is that of the k-th containing zone |
| Geometry.FirstContainingZone | src/geometry_utils.py:21-23 | the result is non-empty iff some zone contains the point, and then its first id is that of the first containing zone in registry order |
| Geometry.CheckPersonInZones | src/geometry_utils.py:19-24 | the loop returns exactly `ZonesContaining` of its inputs |
| Zones.Loaded | src/zone_manager.py:12-19 | a missing file keeps the current list, an I/O error or JSON syntax error gives the empty list, a document without a "zones" key gives the empty list, otherwise the stored list |
| Zones.CoercePoints | src/zone_manager.py:27 | the coerced points keep the input's count and order, each coordinate truncated to an integer |
| Zones.CoerceKeepsIntegers | src/zone_manager.py:27 | points that already have integer coordinates are stored unchanged |
| Zones.NewZone | src/zone_manager.py:21-28 | the new zone carries the given id, or the pre-append count + 1 when none is given, and the coerced points |
| Zones.DefaultIdMayRepeat | src/zone_manager.py:21-29 | a default id can equal an id already in the registry: ids are not kept unique |
| Zones.ZoneManager.constructor | src/zone_manager.py:7-10 | a new manager holds what loading gives from an empty list, so it is empty unless a document was parsed |
| Zones.ZoneManager.LoadZones | src/zone_manager.py:12-19 | the new list is `Loaded` of the old list and the file |
| Zones.ZoneManager.AddZone | src/zone_manager.py:21-29 | exactly one zone is appended at the end, every earlier zone is unchanged, and no minimum point count or id uniqueness is checked |
| Zones.ZoneManager.GetZones | src/zone_manager.py:42-43 | returns the registry's zones in insertion order |
| Zones.ZoneManager.ClearZones | src/zone_manager.py:45-46 | the registry is empty afterwards |
| Intrusion.AsTested | src/intrusion_detector.py:28-31 | after the truthiness reading, "pending" and "truthy" coincide; states whose pending time is at least 3.0 are read as they are |
| Intrusion.Deactivation | src/intrusion_detector.py:27-33 | a quiet frame is a no-op on an idle consistent alarm; it schedules now + 3.0 on an active alarm with nothing pending, keeping it on; it switches off once the pending time is reached; it changes nothing before then; it never switches the alarm on, never moves a pending time and never leaves one in the past |
| Intrusion.Step | src/intrusion_detector.py:117-120 | an intrusion frame leaves the alarm on with nothing pending; a quiet frame is `Deactivation` when the pending time is at least 3.0; consistency, and on a non-negative clock a pending time of at least 3.0, are kept |
| Intrusion.RunInvariants | src/intrusion_detector.py:19-37 | after any run of frames a pending time still implies an active alarm, and on a non-negative clock every pending time stays at least 3.0 |
| Intrusion.QuietWhileIdle | src/intrusion_detector.py:27-33 | quiet frames leave an idle alarm idle |
| Intrusion.PendingSwitchOff | src/intrusion_detector.py:28-33 | over quiet frames a pending time d is never moved: the alarm goes off iff some frame's clock reaches d, and otherwise stays on with d pending |
| Intrusion.QuietPeriod | src/intrusion_detector.py:23-33 | after an intrusion frame, quiet frames from time t ≥ 0 switch the alarm off iff some one of them reaches t + 3.0 |
| Intrusion.Timeline | src/intrusion_detector.py:23-33 | on at t=0; on with switch-off at 4 after t=1; off at t=4; with an intrusion at t=2 in between, still on at t=4 and due off at 7 |
| Intrusion.AlarmState.constructor | src/intrusion_detector.py:18-21 | a new alarm is off with nothing pending and a delay of 3.0 |
| Intrusion.AlarmState.Activate | src/intrusion_detector.py:23-25 | the alarm is on and any pending switch-off is cancelled |
| Intrusion.AlarmState.CheckDeactivate | src/intrusion_detector.py:27-33 | the new state is `Deactivation` of the old state as the truthiness tests read it; a pending time still implies an active alarm |
| Intrusion.AlarmState.Reset | src/intrusion_detector.py:35-37 | from any valid state the alarm is off with nothing pending |
| Intrusion.VerdictFor | src/intrusion_detector.py:100-109 | a detection is labelled intruding iff some zone contains its centre, and then with the id of the first such zone in registry order; otherwise it is labelled clear with its confidence |
| Intrusion.ScanDetections | src/intrusion_detector.py:92-109 | the flag is true iff some detection's centre lies in some zone, and each detection gets its `VerdictFor` label |
| Intrusion.IntrusionDetector.constructor | src/intrusion_detector.py:41-47 | the detector holds the loaded zones and a new, idle alarm |
| Intrusion.IntrusionDetector.ProcessFrame | src/intrusion_detector.py:88-120 | every detection gets its label; the alarm takes exactly one `Step`: activation when the frame has an intrusion, otherwise the delayed deactivation at the current time |

## Left out

- `cv2.pointPolygonTest` is a library call. Containment is our own crossing-number-plus-boundary definition, so agreement with OpenCV on every polygon (self-intersecting ones in particular) is not proved.
- Polygons with fewer than three vertices: the source passes them to the library unguarded. Here they get no meaning, and `CheckPersonInZones`, `ScanDetections` and `ProcessFrame` require every zone to have at least three vertices.
- Geometry.OutsideBoundingBox: only the bounding-box case of "a point strictly outside the convex hull is outside" is proved; the concrete square lemmas stand in for interior points.
- Floating point: coordinates, confidences and the clock are exact reals. NaN, infinities and rounding of `float32` boxes are not modelled.
- The YOLO detector: the import, the `ImportError` when it is missing, and the inference call. Detections are an input sequence. The detector's per-image grouping of boxes is flattened into one sequence that keeps box order.
- Drawing: `draw_zones`, `draw_alarm`, and the rectangles, text and circles drawn in `process_frame`. The labels that drawing would show are returned as `Verdict` values instead.
- The video loop `IntrusionDetector.run` and its `time.time()` clock. The clock is the `currentTime` parameter.
- Zones.Loaded: does not model the load failures the source lets escape. A zone file that is not valid UTF-8 raises `UnicodeDecodeError` from `json.load` (src/zone_manager.py:16), which the `except` at line 18 does not catch, so construction fails. A document whose "zones" value is `null` stores `None` rather than a list (line 17).
- JSON file I/O: reading the file and `save_zones`, so there is no save/load round trip. What reading gave is the `ZoneFile` parameter. A document that is not a JSON object, and zone records of another shape, are not modelled.
- Aliasing: `get_zones` returns the registry's own list, which the detector then shares. The model returns the value, and later registry changes are not seen through the detector.
- `deactivate_delay` is an attribute that Python code could reassign. Here it is a constant field, fixed at 3.0 by the class invariant.
- The video path, model path and device settings exist only for I/O and are not modelled.
- src/zone_marker.py (interactive zone capture), detect_intrusion.py and mark_zones.py (command-line wrappers) are not part of this model.
