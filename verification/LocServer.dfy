/** LocServer::update: every report goes to the map and to the pool of last positions. */
module LocServer {
  import opened Wrappers
  import opened GeoMap
  import opened GridMap

  // ---------- what the reports so far say ----------

  predicate FellIn(props: Properties, loc: Location, dev: DeviceId, id: CellId) {
    loc.devId == dev && InGrid(props, loc.point) && CellOf(props, loc.point) == id
  }

  /** The last report of a device that fell in a cell. */
  function LastIn(props: Properties, history: seq<Location>, dev: DeviceId, id: CellId): (r: Option<Location>)
    ensures r.Some? ==> FellIn(props, r.value, dev, id) && r.value in history
  {
    if history == [] then None
    else
      var loc := history[|history| - 1];
      if FellIn(props, loc, dev, id) then Some(loc) else LastIn(props, history[..|history| - 1], dev, id)
  }

  /** The last report of a device. */
  function LastOf(history: seq<Location>, dev: DeviceId): (r: Option<Location>)
    ensures r.Some? ==> r.value.devId == dev && r.value in history
  {
    if history == [] then None
    else
      var loc := history[|history| - 1];
      if loc.devId == dev then Some(loc) else LastOf(history[..|history| - 1], dev)
  }

  function Lookup(cells: Cells, id: CellId, dev: DeviceId): Option<Location> {
    if id in cells && dev in cells[id] then Some(cells[id][dev]) else None
  }

  /** The record of each device in each cell is its last report that fell in that cell. */
  ghost predicate CellsTrack(props: Properties, history: seq<Location>, cells: Cells) {
    forall id, dev :: Lookup(cells, id, dev) == LastIn(props, history, dev, id)
  }

  ghost predicate PoolTracks(history: seq<Location>, aos: Devices) {
    forall dev :: (if dev in aos then Some(aos[dev]) else None) == LastOf(history, dev)
  }

  predicate AllInGrid(props: Properties, history: seq<Location>) {
    forall loc :: loc in history ==> InGrid(props, loc.point)
  }

  lemma CellsTrackMore(props: Properties, history: seq<Location>, cells: Cells, loc: Location)
    requires CellsTrack(props, history, cells) && InGrid(props, loc.point)
    ensures var id := CellOf(props, loc.point);
            CellsTrack(props, history + [loc], cells[id := Filed(cells, id)[loc.devId := loc]])
  {
    hide InGrid, CellOf;
    var id := CellOf(props, loc.point);
    var cells' := cells[id := Filed(cells, id)[loc.devId := loc]];
    forall other, dev
      ensures Lookup(cells', other, dev) == LastIn(props, history + [loc], dev, other)
    {
      assert (history + [loc])[..|history|] == history;
      assert Lookup(cells, other, dev) == LastIn(props, history, dev, other);
    }
  }

  lemma PoolTracksMore(history: seq<Location>, aos: Devices, loc: Location)
    requires PoolTracks(history, aos)
    ensures PoolTracks(history + [loc], aos[loc.devId := loc])
  {
    assert (history + [loc])[..|history|] == history;
  }

  // ---------- the pool and the server ----------

  class Pool {
    var aos: Devices

    constructor ()
      ensures aos == map[]
    {
      aos := map[];
    }

    method Update(loc: Location)
      modifies this
      ensures aos == old(aos)[loc.devId := loc]
    {
      aos := aos[loc.devId := loc];
    }

    method WhereIs(dev: DeviceId) returns (loc: Option<Location>)
      ensures loc == if dev in aos then Some(aos[dev]) else None
    {
      if dev in aos {
        return Some(aos[dev]);
      }
      return None;
    }
  }

  class Server {
    const grid: GlobalMap
    const pool: Pool
    ghost var history: seq<Location>

    ghost predicate Valid()
      reads this, grid, grid.cells.Values, pool
    {
      grid.Valid() && AllInGrid(grid.props, history) &&
      CellsTrack(grid.props, history, grid.Contents()) && PoolTracks(history, pool.aos)
    }

    constructor (props: Properties)
      requires GoodProperties(props)
      ensures Valid() && history == [] && grid.props == props
      ensures fresh(grid) && fresh(pool) && grid.cells == map[]
    {
      grid := new GlobalMap(props);
      pool := new Pool();
      history := [];
    }

    method Update(loc: Location)
      requires Valid() && InGrid(grid.props, loc.point)
      modifies this`history, grid`cells, grid.cells.Values, pool
      ensures Valid() && history == old(history) + [loc]
      ensures fresh(grid.cells.Values - old(grid.cells.Values))
    {
      hide CellsTrack, PoolTracks, InGrid, CellOf, GlobalMap.Valid, GlobalMap.Contents;
      CellsTrackMore(grid.props, history, grid.Contents(), loc);
      PoolTracksMore(history, pool.aos, loc);
      grid.Update(loc);
      pool.Update(loc);
      history := history + [loc];
    }

    lemma GridIsValid()
      requires Valid()
      ensures grid.Valid()
    {
    }

    /** The last position of a device is the one on record in the cell it lies in. */
    method WhereIs(dev: DeviceId) returns (loc: Option<Location>)
      requires Valid()
      ensures loc == LastOf(history, dev)
      ensures loc.Some? ==>
        InGrid(grid.props, loc.value.point) &&
        Lookup(grid.Contents(), CellOf(grid.props, loc.value.point), dev) == loc
    {
      hide InGrid, CellOf, GlobalMap.Valid, GlobalMap.Contents, LastIn, LastOf;
      loc := pool.WhereIs(dev);
      if loc.Some? {
        FallsInItsCell(grid.props, history, loc.value);
        LastIsInItsCell(grid.props, history, dev, loc.value, CellOf(grid.props, loc.value.point));
      }
    }
  }

  /**
   Any run of updates on a new server: afterwards each record in each cell is the last report of its
   device that fell there, and the pool holds the last report of each device.
   */
  method Run(props: Properties, reports: seq<Location>) returns (server: Server)
    requires GoodProperties(props) && AllInGrid(props, reports)
    ensures fresh(server) && fresh(server.grid) && fresh(server.pool) && fresh(server.grid.cells.Values)
    ensures server.Valid() && server.history == reports && server.grid.props == props
    ensures CellsTrack(props, reports, server.grid.Contents()) && PoolTracks(reports, server.pool.aos)
  {
    server := new Server(props);
    for i := 0 to |reports|
      invariant fresh(server) && fresh(server.grid) && fresh(server.pool) && fresh(server.grid.cells.Values)
      invariant server.Valid() && server.history == reports[..i] && server.grid.props == props
    {
      hide Server.Valid, InGrid;
      assert reports[i] in reports && reports[..i + 1] == reports[..i] + [reports[i]];
      server.Update(reports[i]);
    }
    assert reports[..|reports|] == reports;
  }

  // ---------- which records are current ----------

  /** The last report of a device is also its last report in the cell it fell in. */
  lemma {:induction false} LastIsInItsCell(props: Properties, history: seq<Location>, dev: DeviceId, loc: Location, id: CellId)
    ensures LastOf(history, dev) == Some(loc) && FellIn(props, loc, dev, id) ==> LastIn(props, history, dev, id) == Some(loc)
  {
    hide FellIn;
    if history != [] && history[|history| - 1].devId != dev {
      LastIsInItsCell(props, history[..|history| - 1], dev, loc, id);
      OthersElsewhere(props, history[|history| - 1], dev, id);
    }
  }

  lemma OthersElsewhere(props: Properties, loc: Location, dev: DeviceId, id: CellId)
    requires loc.devId != dev
    ensures !FellIn(props, loc, dev, id)
  {
    hide InGrid, CellOf;
  }

  /** A report fell in the cell of its position. */
  lemma FallsInItsCell(props: Properties, history: seq<Location>, loc: Location)
    requires AllInGrid(props, history) && loc in history
    ensures InGrid(props, loc.point) && FellIn(props, loc, loc.devId, CellOf(props, loc.point))
  {
    hide InGrid, CellOf;
  }

  /**
   A device that has moved on leaves its record behind: the record of a device in a cell is its current
   position exactly when its last report fell in that cell.
   */
  lemma CurrentIff(props: Properties, history: seq<Location>, dev: DeviceId, id: CellId)
    requires AllInGrid(props, history)
    ensures LastIn(props, history, dev, id).Some? ==>
      LastOf(history, dev).Some? &&
      (LastIn(props, history, dev, id) == LastOf(history, dev) <==>
        CellOf(props, LastOf(history, dev).value.point) == id)
  {
    hide InGrid, CellOf;
    ReportedSomewhere(props, history, dev, id);
    if LastOf(history, dev).Some? {
      var loc := LastOf(history, dev).value;
      FallsInItsCell(props, history, loc);
      LastIsInItsCell(props, history, dev, loc, CellOf(props, loc.point));
    }
  }

  lemma {:induction false} ReportedSomewhere(props: Properties, history: seq<Location>, dev: DeviceId, id: CellId)
    ensures LastIn(props, history, dev, id).Some? ==> LastOf(history, dev).Some?
  {
    hide InGrid, CellOf;
    if history != [] && history[|history| - 1].devId != dev {
      ReportedSomewhere(props, history[..|history| - 1], dev, id);
    }
  }

  // ---------- what a query finds ----------

  lemma {:induction false} HitsMean(devs: Devices, qc: Query, now: nat, loc: Location)
    ensures loc in Hits(devs, qc, now) <==> exists dev :: dev in devs && devs[dev] == loc && Passes(qc, now, loc)
    decreases |devs|
  {
    hide Passes;
    if devs != map[] {
      HasLeast(devs);
      var id :| IsLeast(id, devs) && Hits(devs, qc, now) ==
        (if Passes(qc, now, devs[id]) then [devs[id]] else []) + Hits(devs - {id}, qc, now);
      HitsMean(devs - {id}, qc, now, loc);
      assert forall dev :: dev in devs <==> dev == id || dev in devs - {id};
    }
  }

  lemma {:induction false} ScanMeans(cells: Cells, ids: seq<CellId>, qc: Query, now: nat, loc: Location)
    ensures loc in Scan(cells, ids, qc, now) <==>
            exists id, dev :: id in ids && Lookup(cells, id, dev) == Some(loc) && Passes(qc, now, loc)
  {
    hide Passes, Hits;
    if ids != [] {
      ScanMeans(cells, ids[1..], qc, now, loc);
      if ids[0] in cells {
        HitsMean(cells[ids[0]], qc, now, loc);
        if dev :| dev in cells[ids[0]] && cells[ids[0]][dev] == loc && Passes(qc, now, loc) {
          assert Lookup(cells, ids[0], dev) == Some(loc);
        }
      }
      assert forall id :: id in ids <==> id == ids[0] || id in ids[1..];
    }
  }

  /** A query finds exactly the reports that pass its filters and are the last of their device in their cell. */
  lemma QueryFinds(props: Properties, history: seq<Location>, cells: Cells, qc: Query, now: nat, loc: Location)
    requires QueryInGrid(props, qc) && CellsTrack(props, history, cells) && InGrid(props, loc.point)
    ensures loc in Scan(cells, QueryIds(props, qc), qc, now) <==>
            (qc.sqt == ByRectangle ==>
              qc.rect.x <= loc.point.lon && loc.point.lon - qc.rect.x <= qc.rect.width &&
              qc.rect.y <= loc.point.lat && loc.point.lat - qc.rect.y <= qc.rect.height) &&
            (qc.sqt == ByDistance ==>
              var x, y, r := loc.point.lon - qc.circle.center.lon, loc.point.lat - qc.circle.center.lat, qc.circle.radius;
              r >= 0.0 && x * x + y * y <= r * r) &&
            (qc.groupId != "" ==> qc.groupId in loc.groups) && Recent(qc.elapsed, loc.time, now) &&
            LastIn(props, history, loc.devId, CellOf(props, loc.point)) == Some(loc)
  {
    hide CellOf, QueryIds, InGrid, LastIn, InRegion, InGroup, Recent, QueryInGrid;
    PassesMeans(qc, now, loc);
    var ids, id := QueryIds(props, qc), CellOf(props, loc.point);
    ScanMeans(cells, ids, qc, now, loc);
    assert Lookup(cells, id, loc.devId) == LastIn(props, history, loc.devId, id);
    if Passes(qc, now, loc) {
      RegionIsCovered(props, qc, loc.point, ids, id);
    }
    forall other, dev | Lookup(cells, other, dev) == Some(loc)
      ensures other == id && dev == loc.devId
    {
      assert Lookup(cells, other, dev) == LastIn(props, history, dev, other);
    }
  }

  // ---------- an example of a record left behind ----------

  const UNIT_GRID := Properties(Point(0.0, 0.0), Size(1.0, 1.0))
  const BEFORE := Location(7, Point(0.5, 0.5), 1, [])
  const AFTER := Location(7, Point(5.5, 5.5), 2, [])
  const AROUND_BEFORE :=
    Query(Circle(Point(0.0, 0.0), 0.0), Rect(0.0, 0.0, 1.0, 1.0), ByRectangle, Unsorted, 0, "", 10)

  lemma ExampleCells()
    ensures InGrid(UNIT_GRID, BEFORE.point) && CellOf(UNIT_GRID, BEFORE.point) == MakeId(1, 1)
    ensures InGrid(UNIT_GRID, AFTER.point) && CellOf(UNIT_GRID, AFTER.point) == MakeId(6, 6)
    ensures QueryInGrid(UNIT_GRID, AROUND_BEFORE)
  {
  }

  lemma ExampleHistory()
    ensures LastOf([BEFORE, AFTER], 7) == Some(AFTER)
    ensures LastIn(UNIT_GRID, [BEFORE, AFTER], 7, CellOf(UNIT_GRID, BEFORE.point)) == Some(BEFORE)
  {
    hide InGrid, CellOf;
    ExampleCells();
    assert [BEFORE, AFTER][..1] == [BEFORE];
    assert LastIn(UNIT_GRID, [BEFORE], 7, MakeId(1, 1)) == Some(BEFORE);
  }

  /** A device that has left a region is still found there: its old record is not removed. */
  lemma LeftBehind(cells: Cells, now: nat)
    requires CellsTrack(UNIT_GRID, [BEFORE, AFTER], cells)
    ensures LastOf([BEFORE, AFTER], 7) == Some(AFTER) && !InRegion(AROUND_BEFORE, AFTER.point)
    ensures QueryInGrid(UNIT_GRID, AROUND_BEFORE) &&
            BEFORE in Scan(cells, QueryIds(UNIT_GRID, AROUND_BEFORE), AROUND_BEFORE, now)
  {
    hide CellsTrack, Scan, QueryIds, QueryInGrid, InGrid, CellOf, LastIn, LastOf;
    ExampleCells();
    ExampleHistory();
    QueryFinds(UNIT_GRID, [BEFORE, AFTER], cells, AROUND_BEFORE, now, BEFORE);
  }

  /** Nothing else is found there. */
  lemma OnlyBefore(cells: Cells, ids: seq<CellId>, now: nat, loc: Location)
    ensures CellsTrack(UNIT_GRID, [BEFORE, AFTER], cells) && loc in Scan(cells, ids, AROUND_BEFORE, now) ==> loc == BEFORE
  {
    hide Scan, InGrid, CellOf, LastIn, InCircle;
    if CellsTrack(UNIT_GRID, [BEFORE, AFTER], cells) && loc in Scan(cells, ids, AROUND_BEFORE, now) {
      ScanMeans(cells, ids, AROUND_BEFORE, now, loc);
      var id, dev :| Lookup(cells, id, dev) == Some(loc) && Passes(AROUND_BEFORE, now, loc);
      assert LastIn(UNIT_GRID, [BEFORE, AFTER], dev, id) == Some(loc);
    }
  }

  /** So the limit on the number of records does no harm. */
  lemma KeptBefore(found: seq<Location>)
    requires BEFORE in found && forall loc :: loc in found ==> loc == BEFORE
    ensures BEFORE in Answer([] + found, AROUND_BEFORE)
  {
    var kept := Answer([] + found, AROUND_BEFORE);
    assert [] + found == found;
    assert found[0] in found && kept[0] == found[0];
    assert kept[0] in kept;
  }

  /** The same on a server: the device reports from two places and is then found in the place it has left. */
  method MoveAndQuery(now: nat) returns (whereIs: Option<Location>, found: seq<Location>)
    ensures whereIs == Some(AFTER)
    ensures !InRegion(AROUND_BEFORE, AFTER.point) && BEFORE in found
  {
    hide *;
    ExampleCells();
    ExampleInGrid();
    var server := Run(UNIT_GRID, [BEFORE, AFTER]);
    server.GridIsValid();
    whereIs := server.WhereIs(7);
    ghost var cells := server.grid.Contents();
    LeftBehind(cells, now);
    found := server.grid.SpatialQuery([], AROUND_BEFORE, now);
    ghost var scanned := Scan(cells, QueryIds(UNIT_GRID, AROUND_BEFORE), AROUND_BEFORE, now);
    forall loc | loc in scanned
      ensures loc == BEFORE
    {
      OnlyBefore(cells, QueryIds(UNIT_GRID, AROUND_BEFORE), now, loc);
    }
    KeptBefore(scanned);
  }

  lemma ExampleInGrid()
    ensures GoodProperties(UNIT_GRID) && AllInGrid(UNIT_GRID, [BEFORE, AFTER])
  {
    ExampleCells();
  }
}
