/**
 * The zone registry (src/zone_manager.py): an ordered, in-memory list of zones
 * that is loaded from a stored document, appended to and cleared.
 */
module Zones {
  import opened Wrappers
  import opened Geometry

  /** A parsed zone document: the value under its "zones" key, if it has one. */
  datatype Document = Document(zones: Option<seq<Zone>>)

  /** What reading the zone file gave: no file, an I/O error or JSON syntax error, or a parsed document. */
  datatype ZoneFile = Missing | Unreadable | Parsed(document: Document)

  /**
   * The registry after a load from `file`, starting from `current`: a missing
   * file leaves the registry as it was, an I/O error or JSON syntax error empties
   * it, and a document without a "zones" key gives the empty list.
   */
  function Loaded(current: seq<Zone>, file: ZoneFile): (zones: seq<Zone>)
    ensures file.Missing? ==> zones == current
    ensures file.Unreadable? || (file.Parsed? && file.document.zones.None?) ==> zones == []
    ensures file.Parsed? && file.document.zones.Some? ==> zones == file.document.zones.value
  {
    match file
    case Missing => current
    case Unreadable => []
    case Parsed(doc) => doc.zones.GetOr([])
  }

  /** Python's `[[int(x), int(y)] for x, y in points]`. */
  function CoercePoints(points: seq<(real, real)>): (coerced: seq<Point>)
    ensures |coerced| == |points|
    ensures forall i :: 0 <= i < |points| ==>
              coerced[i] == Point(TruncateToInt(points[i].0), TruncateToInt(points[i].1))
  {
    seq(|points|, i requires 0 <= i < |points| => Point(TruncateToInt(points[i].0), TruncateToInt(points[i].1)))
  }

  /** The pairs of numbers that name the given integer points. */
  function AsNumbers(points: seq<Point>): (pairs: seq<(real, real)>)
    ensures |pairs| == |points|
  {
    seq(|points|, i requires 0 <= i < |points| => (points[i].x as real, points[i].y as real))
  }

  /** Coercion keeps integer coordinates as they are, in number and in order. */
  lemma CoerceKeepsIntegers(points: seq<Point>)
    ensures CoercePoints(AsNumbers(points)) == points
  {
    var coerced := CoercePoints(AsNumbers(points));
    forall i | 0 <= i < |points|
      ensures coerced[i] == points[i]
    {
      assert AsNumbers(points)[i] == (points[i].x as real, points[i].y as real);
    }
  }

  /**
   * The zone that `add_zone` appends to a registry of `count` zones: the given id
   * when there is one, else `count + 1`; the points coerced to integers.
   */
  function NewZone(count: nat, points: seq<(real, real)>, zoneId: Option<int>): (zone: Zone)
    ensures zoneId.Some? ==> zone.id == zoneId.value
    ensures zoneId.None? ==> zone.id == count + 1
    ensures zone.points == CoercePoints(points)
  {
    Zone(zoneId.GetOr(count + 1), CoercePoints(points))
  }

  /** The default id can repeat an id already in the registry: nothing keeps ids unique. */
  lemma DefaultIdMayRepeat()
    ensures var zones := [Zone(2, [])];
      NewZone(|zones|, [], None).id == zones[0].id
  {
  }

  class ZoneManager {
    const jsonPath: string
    var zones: seq<Zone>

    /** A manager over the file at `jsonPath`, whose contents are `file`. */
    constructor (jsonPath: string, file: ZoneFile)
      ensures this.jsonPath == jsonPath
      ensures zones == Loaded([], file)
      ensures !file.Parsed? ==> zones == []
    {
      this.jsonPath := jsonPath;
      zones := [];
      new;
      LoadZones(file);
    }

    /** Reloads the registry from `file`. */
    method LoadZones(file: ZoneFile)
      modifies this
      ensures zones == Loaded(old(zones), file)
    {
      match file
      case Missing =>
      case Unreadable =>
        zones := [];
      case Parsed(doc) =>
        zones := doc.zones.GetOr([]);
    }

    /** Appends one zone; nothing checks its id for uniqueness or its polygon for size. */
    method AddZone(points: seq<(real, real)>, zoneId: Option<int>)
      modifies this
      ensures |zones| == |old(zones)| + 1
      ensures zones[..|old(zones)|] == old(zones)
      ensures zones[|old(zones)|] == NewZone(|old(zones)|, points, zoneId)
    {
      var id: int;
      if zoneId.None? {
        id := |zones| + 1;
      } else {
        id := zoneId.value;
      }
      var zone := Zone(id, CoercePoints(points));
      zones := zones + [zone];
    }

    /** The registry's zones, in insertion order. */
    method GetZones() returns (result: seq<Zone>)
      ensures result == zones
    {
      result := zones;
    }

    /** Empties the registry. */
    method ClearZones()
      modifies this
      ensures zones == []
    {
      zones := [];
    }
  }
}
