/** The grid index over device positions, on values: cells, regions, filters and sorting. */
module GeoMap {
  // Coordinates are real numbers, and distances are compared by their squares.


  type DeviceId = nat
  type CellId = nat

  datatype Point = Point(lon: real, lat: real)
  datatype Size = Size(width: real, height: real)
  datatype Rect = Rect(x: real, y: real, width: real, height: real)
  datatype Circle = Circle(center: Point, radius: real)

  datatype Location = Location(devId: DeviceId, point: Point, time: nat, groups: seq<string>)

  datatype QueryType = ByDistance | ByRectangle
  datatype Order = TimeOrder | DistanceOrder | Unsorted

  datatype Query = Query(circle: Circle, rect: Rect, sqt: QueryType, qot: Order, elapsed: nat, groupId: string, maxNum: nat)

  // ---------- regions and filters ----------

  predicate Within(rc: Rect, pt: Point) {
    rc.x <= pt.lon <= rc.x + rc.width && rc.y <= pt.lat <= rc.y + rc.height
  }

  function Square(a: real): real {
    a * a
  }

  function SquaredDistance(a: Point, b: Point): real {
    Square(b.lon - a.lon) + Square(b.lat - a.lat)
  }

  /** distance(center) <= radius */
  predicate InCircle(c: Circle, pt: Point) {
    0.0 <= c.radius && SquaredDistance(pt, c.center) <= Square(c.radius)
  }

  predicate InRegion(qc: Query, pt: Point) {
    match qc.sqt
    case ByDistance => InCircle(qc.circle, pt)
    case ByRectangle => Within(qc.rect, pt)
  }

  predicate InGroup(qc: Query, loc: Location) {
    qc.groupId == "" || qc.groupId in loc.groups
  }

  /** The subtraction of the time stamps in 64-bit unsigned arithmetic; 0 stands for no limit. */
  predicate Recent(elapsed: nat, time: nat, now: nat) {
    elapsed == 0 || (now - time) % 0x1_0000_0000_0000_0000 <= elapsed
  }

  predicate Passes(qc: Query, now: nat, loc: Location) {
    InRegion(qc, loc.point) && InGroup(qc, loc) && Recent(qc.elapsed, loc.time, now)
  }

  /** The filters of a query, written out. */
  lemma PassesMeans(qc: Query, now: nat, loc: Location)
    ensures Passes(qc, now, loc) <==>
      (qc.sqt == ByRectangle ==>
        qc.rect.x <= loc.point.lon && loc.point.lon - qc.rect.x <= qc.rect.width &&
        qc.rect.y <= loc.point.lat && loc.point.lat - qc.rect.y <= qc.rect.height) &&
      (qc.sqt == ByDistance ==>
        var x, y, r := loc.point.lon - qc.circle.center.lon, loc.point.lat - qc.circle.center.lat, qc.circle.radius;
        r >= 0.0 && x * x + y * y <= r * r) &&
      (qc.groupId != "" ==> qc.groupId in loc.groups) && Recent(qc.elapsed, loc.time, now)
  {
    hide Recent;
    SquareOfDifference(loc.point.lon, qc.circle.center.lon);
    SquareOfDifference(loc.point.lat, qc.circle.center.lat);
  }

  lemma SquareOfDifference(a: real, b: real)
    ensures Square(b - a) == (a - b) * (a - b)
  {
  }

  /** The wrap of the subtraction keeps reports from the future out. */
  lemma RecentMeans(elapsed: nat, time: nat, now: nat)
    requires elapsed < 0x1_0000_0000 && time < 0x1_0000_0000 && now < 0x1_0000_0000_0000_0000
    ensures Recent(elapsed, time, now) <==> elapsed == 0 || now - elapsed <= time <= now
  {
    if time <= now {
      assert (now - time) % 0x1_0000_0000_0000_0000 == now - time;
    } else {
      assert (now - time) % 0x1_0000_0000_0000_0000 == now - time + 0x1_0000_0000_0000_0000;
    }
  }

  // ---------- cells ----------

  datatype Properties = Properties(origin: Point, cell: Size)

  predicate GoodProperties(props: Properties) {
    props.cell.width > 0.0 && props.cell.height > 0.0
  }

  /** "x = uint16_t(div); if (div) x++" for a quotient that is not negative. */
  function Index(div: real): (i: int)
    requires div >= 0.0
    ensures i >= 0
  {
    if div == 0.0 then 0 else div.Floor + 1
  }

  function Column(props: Properties, lon: real): (i: int)
    requires GoodProperties(props) && lon >= props.origin.lon
    ensures i >= 0
  {
    QuotientPositive(lon - props.origin.lon, props.cell.width);
    Index((lon - props.origin.lon) / props.cell.width)
  }

  function Row(props: Properties, lat: real): (i: int)
    requires GoodProperties(props) && lat >= props.origin.lat
    ensures i >= 0
  {
    QuotientPositive(lat - props.origin.lat, props.cell.height);
    Index((lat - props.origin.lat) / props.cell.height)
  }

  lemma QuotientPositive(a: real, b: real)
    requires a >= 0.0 && b > 0.0
    ensures a / b >= 0.0
  {
  }

  lemma QuotientMonotone(a: real, b: real, w: real)
    requires a <= b && w > 0.0
    ensures a / w <= b / w
  {
    assert b / w - a / w == (b - a) / w;
    QuotientPositive(b - a, w);
  }

  /** The point is at or beyond the origin and its indices fit 16 bits. */
  predicate InGrid(props: Properties, pt: Point) {
    GoodProperties(props) &&
    props.origin.lon <= pt.lon < props.origin.lon + 65535.0 * props.cell.width &&
    props.origin.lat <= pt.lat < props.origin.lat + 65535.0 * props.cell.height
  }

  /** The indices fit 16 bits exactly in the grid. */
  lemma InGridMeans(props: Properties, pt: Point)
    requires GoodProperties(props) && pt.lon >= props.origin.lon && pt.lat >= props.origin.lat
    ensures InGrid(props, pt) <==> Column(props, pt.lon) < 65536 && Row(props, pt.lat) < 65536
  {
    IndexFits(pt.lon - props.origin.lon, props.cell.width);
    IndexFits(pt.lat - props.origin.lat, props.cell.height);
  }

  lemma IndexFits(a: real, w: real)
    requires a >= 0.0 && w > 0.0 && a / w >= 0.0
    ensures Index(a / w) < 65536 <==> a < 65535.0 * w
  {
    hide Index;
    var q := Quotient(a, w);
    TimesOrder(q, 65535.0, w);
    IndexBelow(q);
  }

  /** Index 0 is the origin alone; a position between the lines k - 1 and k of the grid has index k. */
  lemma ColumnMeans(props: Properties, lon: real, k: nat)
    requires GoodProperties(props) && lon >= props.origin.lon
    ensures Column(props, lon) == k <==>
      if k == 0 then lon == props.origin.lon
      else lon > props.origin.lon && (k - 1) as real * props.cell.width <= lon - props.origin.lon < k as real * props.cell.width
  {
    IndexMeans(lon - props.origin.lon, props.cell.width, k);
  }

  lemma RowMeans(props: Properties, lat: real, k: nat)
    requires GoodProperties(props) && lat >= props.origin.lat
    ensures Row(props, lat) == k <==>
      if k == 0 then lat == props.origin.lat
      else lat > props.origin.lat && (k - 1) as real * props.cell.height <= lat - props.origin.lat < k as real * props.cell.height
  {
    IndexMeans(lat - props.origin.lat, props.cell.height, k);
  }

  lemma IndexMeans(a: real, w: real, k: nat)
    requires a >= 0.0 && w > 0.0 && a / w >= 0.0
    ensures Index(a / w) == k <==>
      if k == 0 then a == 0.0 else a > 0.0 && (k - 1) as real * w <= a < k as real * w
  {
    hide Index;
    var q := Quotient(a, w);
    QuotientOrder(a, w, q, 0.0);
    assert 0.0 * w == 0.0;
    QuotientOrder(a, w, q, k as real);
    if k > 0 {
      QuotientOrder(a, w, q, (k - 1) as real);
    }
    IndexAt(q, k);
  }

  lemma QuotientOrder(a: real, w: real, q: real, x: real)
    requires w > 0.0 && q * w == a
    ensures (q < x <==> a < x * w) && (x <= q <==> x * w <= a) && (x < q <==> x * w < a) && (x == q <==> x * w == a)
  {
    TimesOrder(q, x, w);
    TimesOrder(x, q, w);
  }

  lemma IndexAt(q: real, k: nat)
    requires q >= 0.0
    ensures Index(q) == k <==> if k == 0 then q == 0.0 else q > 0.0 && (k - 1) as real <= q < k as real
  {
  }

  lemma Quotient(a: real, w: real) returns (q: real)
    requires w > 0.0
    ensures q == a / w && q * w == a
  {
    q := a / w;
  }

  lemma TimesOrder(p: real, q: real, w: real)
    requires w > 0.0
    ensures p < q <==> p * w < q * w
  {
    if p < q {
      assert (q - p) * w > 0.0;
    } else {
      assert (p - q) * w >= 0.0;
    }
  }

  lemma IndexBelow(q: real)
    requires q >= 0.0
    ensures Index(q) < 65536 <==> q < 65535.0
  {
  }

  /** MAPCELL_MAKE_ID */
  function MakeId(x: nat, y: nat): CellId {
    x * 65536 + y
  }

  function CellOf(props: Properties, pt: Point): CellId
    requires InGrid(props, pt)
  {
    MakeId(Column(props, pt.lon), Row(props, pt.lat))
  }

  lemma IdParts(x: nat, y: nat)
    requires x < 65536 && y < 65536
    ensures MakeId(x, y) / 65536 % 65536 == x && MakeId(x, y) % 65536 == y
  {
  }

  lemma ColumnMonotone(props: Properties, a: real, b: real)
    requires GoodProperties(props) && props.origin.lon <= a <= b
    ensures Column(props, a) <= Column(props, b)
  {
    QuotientMonotone(a - props.origin.lon, b - props.origin.lon, props.cell.width);
  }

  lemma RowMonotone(props: Properties, a: real, b: real)
    requires GoodProperties(props) && props.origin.lat <= a <= b
    ensures Row(props, a) <= Row(props, b)
  {
    QuotientMonotone(a - props.origin.lat, b - props.origin.lat, props.cell.height);
  }

  // ---------- the region of a query as a rectangle ----------

  function BoundingBox(qc: Query): Rect {
    match qc.sqt
    case ByRectangle => qc.rect
    case ByDistance =>
      Rect(qc.circle.center.lon - qc.circle.radius, qc.circle.center.lat - qc.circle.radius,
           qc.circle.radius * 2.0, qc.circle.radius * 2.0)
  }

  lemma SquareBound(a: real, b: real, r: real)
    requires Square(a) + Square(b) <= Square(r) && r >= 0.0
    ensures -r <= a <= r
  {
    SquareNotNegative(b);
    if a > r {
      SquareGrows(r, a);
    } else if -a > r {
      SquareGrows(r, -a);
    }
  }

  lemma SquareNotNegative(a: real)
    ensures Square(a) >= 0.0 && Square(-a) == Square(a)
  {
  }

  function Product(a: real, b: real): real {
    a * b
  }

  lemma ProductPositive(a: real, b: real)
    requires a > 0.0 && b > 0.0
    ensures Product(a, b) > 0.0
  {
    assert a * b != 0.0;
  }

  lemma SquareDifference(a: real, b: real)
    ensures Square(b) - Square(a) == Product(b - a, b + a)
  {
  }

  lemma SquareGrows(a: real, b: real)
    requires 0.0 <= a < b
    ensures Square(a) < Square(b)
  {
    hide Square, Product;
    SquareDifference(a, b);
    ProductPositive(b - a, b + a);
  }

  lemma RegionInBox(qc: Query, pt: Point)
    requires InRegion(qc, pt)
    ensures Within(BoundingBox(qc), pt)
  {
    hide Square;
    if qc.sqt == ByDistance {
      var dx, dy := qc.circle.center.lon - pt.lon, qc.circle.center.lat - pt.lat;
      SquareBound(dx, dy, qc.circle.radius);
      SquareBound(dy, dx, qc.circle.radius);
    }
  }

  function LowCorner(rc: Rect): Point {
    Point(rc.x, rc.y)
  }

  function HighCorner(rc: Rect): Point {
    Point(rc.x + rc.width, rc.y + rc.height)
  }

  predicate BoxInGrid(props: Properties, rc: Rect) {
    InGrid(props, LowCorner(rc)) && InGrid(props, HighCorner(rc))
  }

  /** The ids of the cells the box meets, row by row. */
  function BoxIds(x1: nat, x2: nat, y1: nat, y2: nat): seq<CellId>
    decreases y2 - y1
  {
    if y1 > y2 then [] else RowIds(x1, x2, y1) + BoxIds(x1, x2, y1 + 1, y2)
  }

  function RowIds(x1: nat, x2: nat, y: nat): (ids: seq<CellId>)
    ensures |ids| == if x1 > x2 then 0 else x2 - x1 + 1
    ensures forall i :: 0 <= i < |ids| ==> ids[i] == MakeId(x1 + i, y)
    decreases x2 - x1
  {
    if x1 > x2 then [] else [MakeId(x1, y)] + RowIds(x1 + 1, x2, y)
  }

  predicate NoRepeats<T(==)>(s: seq<T>) {
    forall i, j :: 0 <= i < j < |s| ==> s[i] != s[j]
  }

  lemma JoinDistinct(a: seq<CellId>, b: seq<CellId>)
    requires NoRepeats(a) && NoRepeats(b) && forall x :: x in a ==> x !in b
    ensures NoRepeats(a + b)
  {
    forall i, j | 0 <= i < |a| <= j < |a + b|
      ensures (a + b)[i] != (a + b)[j]
    {
      assert a[i] in a && b[j - |a|] in b;
    }
  }

  /** No cell is listed twice. */
  lemma {:induction false} BoxIdsDistinct(x1: nat, x2: nat, y1: nat, y2: nat)
    requires y2 < 65536
    ensures NoRepeats(BoxIds(x1, x2, y1, y2))
    ensures forall id :: id in BoxIds(x1, x2, y1, y2) ==> y1 <= id % 65536
    decreases y2 - y1
  {
    hide NoRepeats, RowIds;
    if y1 <= y2 {
      BoxIdsDistinct(x1, x2, y1 + 1, y2);
      RowIdsDistinct(x1, x2, y1);
      JoinDistinct(RowIds(x1, x2, y1), BoxIds(x1, x2, y1 + 1, y2));
    } else {
      NoneRepeats();
    }
  }

  lemma NoneRepeats()
    ensures NoRepeats<CellId>([])
  {
  }

  lemma RowIdsDistinct(x1: nat, x2: nat, y: nat)
    requires y < 65536
    ensures NoRepeats(RowIds(x1, x2, y))
    ensures forall id :: id in RowIds(x1, x2, y) ==> id % 65536 == y
  {
    hide RowIds;
    forall id | id in RowIds(x1, x2, y)
      ensures id % 65536 == y
    {
      var i :| 0 <= i < |RowIds(x1, x2, y)| && RowIds(x1, x2, y)[i] == id;
    }
  }

  /** Every cell of the box is listed. */
  lemma {:induction false} BoxIdListed(x1: nat, x2: nat, y1: nat, y2: nat, x: nat, y: nat)
    requires x1 <= x <= x2 && y1 <= y <= y2
    ensures MakeId(x, y) in BoxIds(x1, x2, y1, y2)
    decreases y2 - y1
  {
    hide MakeId, RowIds;
    if y == y1 {
      assert RowIds(x1, x2, y)[x - x1] == MakeId(x, y);
    } else {
      BoxIdListed(x1, x2, y1 + 1, y2, x, y);
    }
  }

  // ---------- collecting ----------

  type Devices = map<DeviceId, Location>
  type Cells = map<CellId, Devices>

  ghost predicate IsLeast(id: DeviceId, devs: Devices) {
    id in devs && forall k :: k in devs ==> id <= k
  }

  lemma {:induction false} HasLeast(devs: Devices)
    requires devs != map[]
    ensures exists id :: IsLeast(id, devs)
    decreases |devs|
  {
    var k :| k in devs;
    var rest := devs - {k};
    assert forall j :: j in devs ==> j == k || j in rest;
    if rest == map[] {
      assert IsLeast(k, devs);
    } else {
      HasLeast(rest);
      var l :| IsLeast(l, rest);
      assert IsLeast(if k < l then k else l, devs);
    }
  }

  /** The records of a cell that pass the filters, in the order of the devices. */
  ghost function Hits(devs: Devices, qc: Query, now: nat): seq<Location>
    decreases |devs|
  {
    if devs == map[] then []
    else
      HasLeast(devs);
      var id :| IsLeast(id, devs);
      (if Passes(qc, now, devs[id]) then [devs[id]] else []) + Hits(devs - {id}, qc, now)
  }

  /** The hits of the cells with the given ids, as far as there are such cells. */
  ghost function Scan(cells: Cells, ids: seq<CellId>, qc: Query, now: nat): seq<Location> {
    if ids == [] then [] else CellHits(cells, ids[0], qc, now) + Scan(cells, ids[1..], qc, now)
  }

  ghost function CellHits(cells: Cells, id: CellId, qc: Query, now: nat): seq<Location> {
    if id in cells then Hits(cells[id], qc, now) else []
  }

  lemma {:induction false} NoHits(devs: Devices, qc: Query, now: nat)
    requires forall id :: id in devs ==> !Passes(qc, now, devs[id])
    ensures Hits(devs, qc, now) == []
    decreases |devs|
  {
    hide Passes;
    if devs != map[] {
      HasLeast(devs);
      var id :| IsLeast(id, devs);
      NoHits(devs - {id}, qc, now);
    }
  }

  /** Every record is held once, under its own device, in the cell of its position. */
  ghost predicate InPlace(props: Properties, cells: Cells) {
    forall id, dev :: id in cells && dev in cells[id] ==>
      cells[id][dev].devId == dev && InGrid(props, cells[id][dev].point) && CellOf(props, cells[id][dev].point) == id
  }

  predicate QueryInGrid(props: Properties, qc: Query) {
    BoxInGrid(props, BoundingBox(qc))
  }

  function QueryIds(props: Properties, qc: Query): seq<CellId>
    requires QueryInGrid(props, qc)
  {
    var low, high := LowCorner(BoundingBox(qc)), HighCorner(BoundingBox(qc));
    BoxIds(Column(props, low.lon), Column(props, high.lon), Row(props, low.lat), Row(props, high.lat))
  }

  /** A position in the region of a query lies in a cell the query looks at. */
  lemma RegionIsCovered(props: Properties, qc: Query, pt: Point, ids: seq<CellId>, id: CellId)
    requires QueryInGrid(props, qc) && InGrid(props, pt)
    ensures InRegion(qc, pt) && ids == QueryIds(props, qc) && id == CellOf(props, pt) ==> id in ids
  {
    hide Column, Row, InRegion, MakeId, BoxIds;
    if !InRegion(qc, pt) {
      return;
    }
    var rc := BoundingBox(qc);
    RegionInBox(qc, pt);
    ColumnMonotone(props, rc.x, pt.lon);
    ColumnMonotone(props, pt.lon, rc.x + rc.width);
    RowMonotone(props, rc.y, pt.lat);
    RowMonotone(props, pt.lat, rc.y + rc.height);
    BoxIdListed(Column(props, rc.x), Column(props, rc.x + rc.width), Row(props, rc.y), Row(props, rc.y + rc.height),
      Column(props, pt.lon), Row(props, pt.lat));
  }

  lemma OutsideCellsMiss(props: Properties, cells: Cells, qc: Query, now: nat, id: CellId)
    requires QueryInGrid(props, qc) && InPlace(props, cells) && id !in QueryIds(props, qc)
    ensures CellHits(cells, id, qc, now) == []
  {
    hide QueryIds, CellOf, InGrid, Hits, InRegion, QueryInGrid;
    if id in cells {
      forall dev | dev in cells[id]
        ensures !Passes(qc, now, cells[id][dev])
      {
        if InRegion(qc, cells[id][dev].point) {
          RegionIsCovered(props, qc, cells[id][dev].point, QueryIds(props, qc), id);
        }
      }
      NoHits(cells[id], qc, now);
    }
  }

  /** Two scans find the same records if they list the same cells, apart from cells without hits. */
  lemma {:induction false} SameScan(cells: Cells, a: seq<CellId>, b: seq<CellId>, qc: Query, now: nat)
    requires NoRepeats(a) && NoRepeats(b)
    requires forall id :: CellHits(cells, id, qc, now) != [] ==> (id in a <==> id in b)
    ensures multiset(Scan(cells, a, qc, now)) == multiset(Scan(cells, b, qc, now))
  {
    hide CellHits;
    if a == [] {
      EmptyScan(cells, b, qc, now);
    } else if CellHits(cells, a[0], qc, now) == [] {
      RestIsSame(cells, a, b, qc, now);
      SameScan(cells, a[1..], b, qc, now);
      assert Scan(cells, a, qc, now) == Scan(cells, a[1..], qc, now);
    } else {
      var k :| 0 <= k < |b| && b[k] == a[0];
      ScanWithout(cells, b, k, qc, now);
      RestIsSameWithout(cells, a, b, k, qc, now);
      SameScan(cells, a[1..], b[..k] + b[k + 1..], qc, now);
    }
  }

  lemma RestIsSame(cells: Cells, a: seq<CellId>, b: seq<CellId>, qc: Query, now: nat)
    requires a != [] && NoRepeats(a) && CellHits(cells, a[0], qc, now) == []
    requires forall id :: CellHits(cells, id, qc, now) != [] ==> (id in a <==> id in b)
    ensures NoRepeats(a[1..])
    ensures forall id :: CellHits(cells, id, qc, now) != [] ==> (id in a[1..] <==> id in b)
  {
    hide CellHits;
    forall id | CellHits(cells, id, qc, now) != []
      ensures id in a[1..] <==> id in a
    {
      assert id in a <==> id == a[0] || id in a[1..];
    }
  }

  lemma RestIsSameWithout(cells: Cells, a: seq<CellId>, b: seq<CellId>, k: nat, qc: Query, now: nat)
    requires a != [] && k < |b| && b[k] == a[0] && NoRepeats(a) && NoRepeats(b)
    requires forall id :: CellHits(cells, id, qc, now) != [] ==> (id in a <==> id in b)
    ensures var c := b[..k] + b[k + 1..];
            NoRepeats(a[1..]) && NoRepeats(c) &&
            forall id :: CellHits(cells, id, qc, now) != [] ==> (id in a[1..] <==> id in c)
  {
    hide CellHits;
    var c := b[..k] + b[k + 1..];
    NoRepeatsWithout(b, k);
    forall id | CellHits(cells, id, qc, now) != []
      ensures id in a[1..] <==> id in c
    {
      assert id in a <==> id == a[0] || id in a[1..];
      assert id in b <==> id == b[k] || id in c;
    }
  }

  lemma NoRepeatsWithout(b: seq<CellId>, k: nat)
    requires k < |b| && NoRepeats(b)
    ensures NoRepeats(b[..k] + b[k + 1..]) && b[k] !in b[..k] + b[k + 1..]
    ensures forall id :: id in b <==> id == b[k] || id in b[..k] + b[k + 1..]
  {
    var c := b[..k] + b[k + 1..];
    forall i | 0 <= i < |c|
      ensures c[i] == b[if i < k then i else i + 1]
    {
    }
    forall id | id in b
      ensures id == b[k] || id in c
    {
      var i :| 0 <= i < |b| && b[i] == id;
      assert i < k ==> c[i] == id;
      assert i > k ==> c[i - 1] == id;
    }
  }

  lemma {:induction false} EmptyScan(cells: Cells, ids: seq<CellId>, qc: Query, now: nat)
    requires forall id :: id in ids ==> CellHits(cells, id, qc, now) == []
    ensures Scan(cells, ids, qc, now) == []
  {
    hide CellHits;
    if ids != [] {
      EmptyScan(cells, ids[1..], qc, now);
    }
  }

  lemma {:induction false} ScanWithout(cells: Cells, ids: seq<CellId>, k: nat, qc: Query, now: nat)
    requires k < |ids|
    ensures multiset(Scan(cells, ids, qc, now)) ==
            multiset(CellHits(cells, ids[k], qc, now)) + multiset(Scan(cells, ids[..k] + ids[k + 1..], qc, now))
  {
    hide CellHits, Scan;
    var c := ids[..k] + ids[k + 1..];
    ScanFirst(cells, ids, qc, now);
    if k == 0 {
      assert c == ids[1..];
    } else {
      ScanFirst(cells, c, qc, now);
      ScanWithout(cells, ids[1..], k - 1, qc, now);
      assert c[1..] == ids[1..][..k - 1] + ids[1..][k..];
    }
  }

  lemma ScanFirst(cells: Cells, ids: seq<CellId>, qc: Query, now: nat)
    requires ids != []
    ensures multiset(Scan(cells, ids, qc, now)) ==
            multiset(CellHits(cells, ids[0], qc, now)) + multiset(Scan(cells, ids[1..], qc, now))
  {
    hide CellHits;
  }

  /** The grid prunes without loss: a query finds what a scan of all cells finds, as often. */
  lemma PruningIsExact(props: Properties, cells: Cells, qc: Query, now: nat, all: seq<CellId>)
    requires QueryInGrid(props, qc) && InPlace(props, cells)
    requires NoRepeats(all) && forall id :: id in cells ==> id in all
    ensures multiset(Scan(cells, QueryIds(props, qc), qc, now)) == multiset(Scan(cells, all, qc, now))
  {
    hide Scan, Hits, InPlace;
    var ids := QueryIds(props, qc);
    var rc := BoundingBox(qc);
    InGridMeans(props, HighCorner(rc));
    BoxIdsDistinct(Column(props, rc.x), Column(props, rc.x + rc.width), Row(props, rc.y), Row(props, rc.y + rc.height));
    forall id | CellHits(cells, id, qc, now) != []
      ensures id in ids <==> id in all
    {
      if id !in ids {
        OutsideCellsMiss(props, cells, qc, now, id);
      }
    }
    SameScan(cells, ids, all, qc, now);
  }

  // ---------- sorting and cutting ----------

  /** What CompareOrderQuery compares. */
  function Key(qc: Query, loc: Location): real {
    if qc.qot == TimeOrder then loc.time as real else SquaredDistance(loc.point, qc.circle.center)
  }

  function Insert(loc: Location, list: seq<Location>, qc: Query): seq<Location> {
    if list == [] || Key(qc, loc) <= Key(qc, list[0]) then [loc] + list else [list[0]] + Insert(loc, list[1..], qc)
  }

  /** list.sort with CompareOrderQuery: the stable sort of the standard library. */
  function Sort(list: seq<Location>, qc: Query): seq<Location> {
    if list == [] then [] else Insert(list[0], Sort(list[1..], qc), qc)
  }

  predicate IsSorted(list: seq<Location>, qc: Query) {
    forall i, j :: 0 <= i < j < |list| ==> Key(qc, list[i]) <= Key(qc, list[j])
  }

  /** The records of a list with a given key, in order. */
  function WithKey(list: seq<Location>, key: real, qc: Query): seq<Location> {
    if list == [] then []
    else (if Key(qc, list[0]) == key then [list[0]] else []) + WithKey(list[1..], key, qc)
  }

  lemma {:induction false} InsertPermutes(loc: Location, list: seq<Location>, qc: Query)
    ensures multiset(Insert(loc, list, qc)) == multiset{loc} + multiset(list)
  {
    hide Key;
    if list != [] && !(Key(qc, loc) <= Key(qc, list[0])) {
      InsertPermutes(loc, list[1..], qc);
      assert list == [list[0]] + list[1..];
    }
  }

  lemma {:induction false} InsertSorts(loc: Location, list: seq<Location>, qc: Query)
    requires IsSorted(list, qc)
    ensures IsSorted(Insert(loc, list, qc), qc)
  {
    hide Key;
    if list != [] && !(Key(qc, loc) <= Key(qc, list[0])) {
      InsertSorts(loc, list[1..], qc);
      InsertPermutes(loc, list[1..], qc);
      var rest := Insert(loc, list[1..], qc);
      forall i | 0 <= i < |rest|
        ensures Key(qc, list[0]) <= Key(qc, rest[i])
      {
        assert rest[i] in multiset(rest);
      }
    }
  }

  lemma {:induction false} InsertIsStable(loc: Location, list: seq<Location>, key: real, qc: Query)
    ensures WithKey(Insert(loc, list, qc), key, qc) == WithKey([loc] + list, key, qc)
  {
    hide Key;
    assert ([loc] + list)[1..] == list;
    if list != [] && !(Key(qc, loc) <= Key(qc, list[0])) {
      InsertIsStable(loc, list[1..], key, qc);
      assert ([loc] + list[1..])[1..] == list[1..];
      assert Insert(loc, list, qc)[1..] == Insert(loc, list[1..], qc);
    }
  }

  /** Sorting orders the list by the key and keeps the order of records with equal keys. */
  lemma {:induction false} SortMeans(list: seq<Location>, qc: Query)
    ensures IsSorted(Sort(list, qc), qc) && multiset(Sort(list, qc)) == multiset(list)
    ensures forall key :: WithKey(Sort(list, qc), key, qc) == WithKey(list, key, qc)
  {
    hide Insert, Key;
    if list != [] {
      SortMeans(list[1..], qc);
      InsertSorts(list[0], Sort(list[1..], qc), qc);
      InsertPermutes(list[0], Sort(list[1..], qc), qc);
      assert list == [list[0]] + list[1..];
      forall key
        ensures WithKey(Sort(list, qc), key, qc) == WithKey(list, key, qc)
      {
        InsertIsStable(list[0], Sort(list[1..], qc), key, qc);
        assert ([list[0]] + Sort(list[1..], qc))[1..] == Sort(list[1..], qc);
      }
    }
  }

  /** The last two steps of spatialQuery. */
  function Answer(list: seq<Location>, qc: Query): seq<Location> {
    var sorted := if qc.qot == Unsorted then list else Sort(list, qc);
    if |sorted| > qc.maxNum then sorted[..qc.maxNum] else sorted
  }

  /**
   The answer to a query in terms of a scan of all cells: it holds as many of the records found as it
   may, in order, and every record kept sorts no later than every record dropped.
   */
  lemma AnswerMeans(props: Properties, cells: Cells, qc: Query, now: nat, all: seq<CellId>) returns (dropped: seq<Location>)
    requires QueryInGrid(props, qc) && InPlace(props, cells)
    requires NoRepeats(all) && forall id :: id in cells ==> id in all
    ensures var kept, found := Answer(Scan(cells, QueryIds(props, qc), qc, now), qc), Scan(cells, all, qc, now);
            multiset(kept) + multiset(dropped) == multiset(found) && |kept| <= qc.maxNum &&
            (dropped != [] ==> |kept| == qc.maxNum) &&
            (qc.qot == TimeOrder ==>
              (forall i, j :: 0 <= i < j < |kept| ==> kept[i].time <= kept[j].time) &&
              forall a, b :: a in kept && b in dropped ==> a.time <= b.time) &&
            (qc.qot == DistanceOrder ==>
              var x, y := qc.circle.center.lon, qc.circle.center.lat;
              (forall i, j :: 0 <= i < j < |kept| ==>
                (kept[i].point.lon - x) * (kept[i].point.lon - x) + (kept[i].point.lat - y) * (kept[i].point.lat - y) <=
                (kept[j].point.lon - x) * (kept[j].point.lon - x) + (kept[j].point.lat - y) * (kept[j].point.lat - y)) &&
              forall a, b :: a in kept && b in dropped ==>
                (a.point.lon - x) * (a.point.lon - x) + (a.point.lat - y) * (a.point.lat - y) <=
                (b.point.lon - x) * (b.point.lon - x) + (b.point.lat - y) * (b.point.lat - y))
  {
    hide Scan, Sort, QueryIds, InPlace, NoRepeats, QueryInGrid, Key;
    PruningIsExact(props, cells, qc, now, all);
    var list := Scan(cells, QueryIds(props, qc), qc, now);
    SortMeans(list, qc);
    var sorted := if qc.qot == Unsorted then list else Sort(list, qc);
    var n := if |sorted| > qc.maxNum then qc.maxNum else |sorted|;
    dropped := sorted[n..];
    assert sorted == sorted[..n] + sorted[n..];
    assert sorted[..|sorted|] == sorted;
    forall a, b | Key(qc, a) <= Key(qc, b)
      ensures qc.qot == TimeOrder ==> a.time <= b.time
      ensures qc.qot == DistanceOrder ==>
        var x, y := qc.circle.center.lon, qc.circle.center.lat;
        (a.point.lon - x) * (a.point.lon - x) + (a.point.lat - y) * (a.point.lat - y) <=
        (b.point.lon - x) * (b.point.lon - x) + (b.point.lat - y) * (b.point.lat - y)
    {
      KeyOrders(qc, a, b);
    }
  }

  /** The answer is in the order asked for. */
  lemma AnswerOrdered(list: seq<Location>, qc: Query)
    ensures var kept := Answer(list, qc);
            (qc.qot == TimeOrder ==> forall i, j :: 0 <= i < j < |kept| ==> kept[i].time <= kept[j].time) &&
            (qc.qot == DistanceOrder ==>
              var x, y := qc.circle.center.lon, qc.circle.center.lat;
              forall i, j :: 0 <= i < j < |kept| ==>
                (kept[i].point.lon - x) * (kept[i].point.lon - x) + (kept[i].point.lat - y) * (kept[i].point.lat - y) <=
                (kept[j].point.lon - x) * (kept[j].point.lon - x) + (kept[j].point.lat - y) * (kept[j].point.lat - y))
  {
    hide Sort, Key;
    SortMeans(list, qc);
    var kept := Answer(list, qc);
    forall i, j | 0 <= i < j < |kept| && qc.qot != Unsorted
      ensures Key(qc, kept[i]) <= Key(qc, kept[j])
    {
      assert kept[i] == Sort(list, qc)[i] && kept[j] == Sort(list, qc)[j];
    }
    forall i, j | 0 <= i < j < |kept|
      ensures qc.qot == TimeOrder ==> kept[i].time <= kept[j].time
      ensures qc.qot == DistanceOrder ==>
        var x, y := qc.circle.center.lon, qc.circle.center.lat;
        (kept[i].point.lon - x) * (kept[i].point.lon - x) + (kept[i].point.lat - y) * (kept[i].point.lat - y) <=
        (kept[j].point.lon - x) * (kept[j].point.lon - x) + (kept[j].point.lat - y) * (kept[j].point.lat - y)
    {
      KeyOrders(qc, kept[i], kept[j]);
    }
  }

  /** The order by the key: the time, or the distance from the center by its square. */
  lemma KeyOrders(qc: Query, a: Location, b: Location)
    ensures qc.qot == TimeOrder ==> (Key(qc, a) <= Key(qc, b) <==> a.time <= b.time)
    ensures qc.qot == DistanceOrder ==>
      var x, y := qc.circle.center.lon, qc.circle.center.lat;
      Key(qc, a) <= Key(qc, b) <==>
        (a.point.lon - x) * (a.point.lon - x) + (a.point.lat - y) * (a.point.lat - y) <=
        (b.point.lon - x) * (b.point.lon - x) + (b.point.lat - y) * (b.point.lat - y)
  {
    SquareOfDifference(a.point.lon, qc.circle.center.lon);
    SquareOfDifference(a.point.lat, qc.circle.center.lat);
    SquareOfDifference(b.point.lon, qc.circle.center.lon);
    SquareOfDifference(b.point.lat, qc.circle.center.lat);
  }
}
