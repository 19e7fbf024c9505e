/** MapCell and GlobalMap: the cells in place, and the queries that collect records from them. */
module GridMap {
  import opened GeoMap

  class MapCell {
    var devs: Devices

    constructor ()
      ensures devs == map[]
    {
      devs := map[];
    }

    method Update(loc: Location)
      modifies this
      ensures devs == old(devs)[loc.devId := loc]
    {
      if loc.devId !in devs {
        devs := devs[loc.devId := loc];
        return;
      }
      devs := devs[loc.devId := loc];
    }

    /** Appends the records that pass the filters to the list. */
    method DoQuery(list: seq<Location>, qc: Query, now: nat) returns (found: seq<Location>)
      ensures found == list + Hits(devs, qc, now)
    {
      hide Hits, InRegion;
      found := list;
      var rest := devs;
      while rest != map[]
        invariant found + Hits(rest, qc, now) == list + Hits(devs, qc, now)
        decreases |rest|
      {
        HasLeast(rest);
        var id :| id in rest && forall k :: k in rest ==> id <= k;
        var loc, pass := rest[id], false;
        if qc.sqt == ByDistance {
          if InCircle(qc.circle, loc.point) {
            pass := true;
          }
        } else if qc.sqt == ByRectangle {
          if Within(qc.rect, loc.point) {
            pass := true;
          }
        }
        if pass && qc.groupId != "" {
          pass := qc.groupId in loc.groups;
        }
        if pass && qc.elapsed != 0 {
          pass := (now - loc.time) % 0x1_0000_0000_0000_0000 <= qc.elapsed;
        }
        assert pass == Passes(qc, now, loc) by { RegionCases(qc, loc.point); }
        HitsUnfold(found, rest, id, qc, now);
        if pass {
          found := found + [loc];
        }
        rest := rest - {id};
      }
      NoneLeft(found, qc, now);
    }
  }

  lemma RegionCases(qc: Query, pt: Point)
    ensures InRegion(qc, pt) == if qc.sqt == ByDistance then InCircle(qc.circle, pt) else Within(qc.rect, pt)
  {
  }

  lemma HitsUnfold(found: seq<Location>, devs: Devices, id: DeviceId, qc: Query, now: nat)
    requires IsLeast(id, devs)
    ensures found + Hits(devs, qc, now) ==
            (if Passes(qc, now, devs[id]) then found + [devs[id]] else found) + Hits(devs - {id}, qc, now)
  {
    hide Passes;
    assert forall k :: IsLeast(k, devs) ==> k == id;
    assert devs != map[];
    var rest := Hits(devs - {id}, qc, now);
    assert Hits(devs, qc, now) == (if Passes(qc, now, devs[id]) then [devs[id]] else []) + rest;
    assert found + ([devs[id]] + rest) == found + [devs[id]] + rest;
    assert [] + rest == rest;
  }

  lemma NoneLeft(found: seq<Location>, qc: Query, now: nat)
    ensures found + Hits(map[], qc, now) == found
  {
  }

  /** The cells with the given ids, as far as they exist. */
  ghost function Present(cells: map<CellId, MapCell>, ids: seq<CellId>): seq<MapCell> {
    if ids == [] then []
    else (if ids[0] in cells then [cells[ids[0]]] else []) + Present(cells, ids[1..])
  }

  lemma {:induction false} PresentJoin(cells: map<CellId, MapCell>, a: seq<CellId>, b: seq<CellId>)
    ensures Present(cells, a + b) == Present(cells, a) + Present(cells, b)
  {
    if a == [] {
      assert a + b == b;
    } else {
      PresentFirst(cells, a);
      PresentFirst(cells, a + b);
      hide Present;
      PresentJoin(cells, a[1..], b);
      assert (a + b)[1..] == a[1..] + b;
      var first := if a[0] in cells then [cells[a[0]]] else [];
      assert first + (Present(cells, a[1..]) + Present(cells, b)) == (first + Present(cells, a[1..])) + Present(cells, b);
    }
  }

  lemma PresentFirst(cells: map<CellId, MapCell>, ids: seq<CellId>)
    requires ids != []
    ensures Present(cells, ids) == (if ids[0] in cells then [cells[ids[0]]] else []) + Present(cells, ids[1..])
  {
  }

  /** The hits of a list of cells. */
  ghost function HitsOf(list: seq<MapCell>, qc: Query, now: nat): seq<Location>
    reads list
  {
    if list == [] then [] else Hits(list[0].devs, qc, now) + HitsOf(list[1..], qc, now)
  }

  class GlobalMap {
    const props: Properties
    var cells: map<CellId, MapCell>

    constructor (props: Properties)
      requires GoodProperties(props)
      ensures Valid() && this.props == props && Contents() == map[] && cells == map[]
    {
      this.props, cells := props, map[];
    }

    ghost function Contents(): Cells
      reads this, cells.Values
    {
      map id | id in cells :: cells[id].devs
    }

    ghost predicate Valid()
      reads this, cells.Values
    {
      GoodProperties(props) && InPlace(props, Contents()) &&
      forall a, b :: a in cells && b in cells && a != b ==> cells[a] != cells[b]
    }

    /** Files a report under the cell of its position, which is made if it is the first there. */
    method Update(loc: Location)
      requires Valid() && InGrid(props, loc.point)
      modifies this`cells, cells.Values
      ensures Valid() && fresh(cells.Values - old(cells.Values))
      ensures var id := CellOf(props, loc.point);
              Contents() == old(Contents())[id := Filed(old(Contents()), id)[loc.devId := loc]]
    {
      hide InGrid, CellOf;
      var id := CellOf(props, loc.point);
      if id !in cells {
        var made := new MapCell();
        cells := cells[id := made];
      }
      cells[id].Update(loc);
      StillInPlace(props, old(Contents()), loc);
      assert Contents() == old(Contents())[id := Filed(old(Contents()), id)[loc.devId := loc]];
    }

    /** The present cells a box meets, row by row. */
    method GetCells(rc: Rect) returns (list: seq<MapCell>)
      requires Valid() && BoxInGrid(props, rc)
      ensures list == Present(cells, BoxIds(Column(props, rc.x), Column(props, rc.x + rc.width),
                                            Row(props, rc.y), Row(props, rc.y + rc.height)))
    {
      hide Present, Column, Row, BoxIds, RowIds;
      var first, third := CellOf(props, LowCorner(rc)), CellOf(props, HighCorner(rc));
      InGridMeans(props, LowCorner(rc));
      InGridMeans(props, HighCorner(rc));
      IdParts(Column(props, rc.x), Row(props, rc.y));
      IdParts(Column(props, rc.x + rc.width), Row(props, rc.y + rc.height));
      var x1, y1 := first / 65536 % 65536, first % 65536;
      var x2, y2 := third / 65536 % 65536, third % 65536;
      list := CollectRows(x1, x2, y1, y2);
    }

    method CollectRows(x1: nat, x2: nat, y1: nat, y2: nat) returns (list: seq<MapCell>)
      ensures list == Present(cells, BoxIds(x1, x2, y1, y2))
    {
      hide Present, RowIds, BoxIds;
      list := [];
      var row := y1;
      while row <= y2
        invariant row >= y1
        invariant list + Present(cells, BoxIds(x1, x2, row, y2)) == Present(cells, BoxIds(x1, x2, y1, y2))
        decreases y2 + 1 - row
      {
        BoxUnfold(x1, x2, row, y2);
        PresentJoin(cells, RowIds(x1, x2, row), BoxIds(x1, x2, row + 1, y2));
        var more := CollectRow(list, x1, x2, row);
        assert more + Present(cells, BoxIds(x1, x2, row + 1, y2)) == list + Present(cells, BoxIds(x1, x2, row, y2));
        list := more;
        row := row + 1;
      }
      BoxUnfold(x1, x2, row, y2);
      NonePresent(list, cells);
    }

    static lemma BoxUnfold(x1: nat, x2: nat, row: nat, y2: nat)
      ensures BoxIds(x1, x2, row, y2) ==
              if row > y2 then [] else RowIds(x1, x2, row) + BoxIds(x1, x2, row + 1, y2)
    {
      hide RowIds;
    }

    method CollectRow(start: seq<MapCell>, x1: nat, x2: nat, row: nat) returns (list: seq<MapCell>)
      ensures list == start + Present(cells, RowIds(x1, x2, row))
    {
      hide Present, MakeId;
      list := start;
      var col := x1;
      while col <= x2
        invariant col >= x1
        invariant list + Present(cells, RowIds(col, x2, row)) == start + Present(cells, RowIds(x1, x2, row))
        decreases x2 + 1 - col
      {
        var id := MakeId(col, row);
        PresentUnfold(list, cells, id, RowIds(col + 1, x2, row));
        if id in cells {
          list := list + [cells[id]];
        }
        col := col + 1;
      }
      NonePresent(list, cells);
    }

    method DoQueryCells(list: seq<Location>, query: seq<MapCell>, qc: Query, now: nat) returns (found: seq<Location>)
      ensures found == list + HitsOf(query, qc, now)
    {
      hide Hits;
      found := list;
      var i := 0;
      assert query[0..] == query;
      while i < |query|
        invariant i <= |query| && found + HitsOf(query[i..], qc, now) == list + HitsOf(query, qc, now)
      {
        var more := query[i].DoQuery(found, qc, now);
        assert query[i..][1..] == query[i + 1..];
        assert more + HitsOf(query[i + 1..], qc, now) == found + HitsOf(query[i..], qc, now);
        found := more;
        i := i + 1;
      }
    }

    method DoQueryByDistance(list: seq<Location>, qc: Query, now: nat) returns (found: seq<Location>)
      requires Valid() && qc.sqt == ByDistance && QueryInGrid(props, qc)
      ensures found == list + Scan(Contents(), QueryIds(props, qc), qc, now)
    {
      hide Scan, HitsOf, Present, Contents, Valid, Column, Row;
      var x, y := qc.circle.center.lon - qc.circle.radius, qc.circle.center.lat - qc.circle.radius;
      var width := qc.circle.radius * 2.0;
      var rc := Rect(x, y, width, width);
      var query := GetCells(rc);
      found := DoQueryCells(list, query, qc, now);
      HitsArePresent(QueryIds(props, qc), qc, now);
    }

    method DoQueryByRectangle(list: seq<Location>, qc: Query, now: nat) returns (found: seq<Location>)
      requires Valid() && qc.sqt == ByRectangle && QueryInGrid(props, qc)
      ensures found == list + Scan(Contents(), QueryIds(props, qc), qc, now)
    {
      hide Scan, HitsOf, Present, Contents, Valid, Column, Row;
      var query := GetCells(qc.rect);
      found := DoQueryCells(list, query, qc, now);
      HitsArePresent(QueryIds(props, qc), qc, now);
    }

    lemma {:induction false} HitsArePresent(ids: seq<CellId>, qc: Query, now: nat)
      ensures HitsOf(Present(cells, ids), qc, now) == Scan(Contents(), ids, qc, now)
    {
      hide Hits;
      if ids != [] {
        HitsArePresent(ids[1..], qc, now);
        var rest := Present(cells, ids[1..]);
        if ids[0] in cells {
          assert Present(cells, ids)[1..] == rest;
        } else {
          assert [] + rest == rest;
          assert [] + Scan(Contents(), ids[1..], qc, now) == Scan(Contents(), ids[1..], qc, now);
        }
      }
    }

    /** Collects, sorts and cuts. */
    method SpatialQuery(list: seq<Location>, qc: Query, now: nat) returns (result: seq<Location>)
      requires Valid() && QueryInGrid(props, qc)
      ensures result == Answer(list + Scan(Contents(), QueryIds(props, qc), qc, now), qc)
      ensures qc.qot == TimeOrder ==> forall i, j :: 0 <= i < j < |result| ==> result[i].time <= result[j].time
      ensures qc.qot == DistanceOrder ==>
        var x, y := qc.circle.center.lon, qc.circle.center.lat;
        forall i, j :: 0 <= i < j < |result| ==>
          (result[i].point.lon - x) * (result[i].point.lon - x) + (result[i].point.lat - y) * (result[i].point.lat - y) <=
          (result[j].point.lon - x) * (result[j].point.lon - x) + (result[j].point.lat - y) * (result[j].point.lat - y)
    {
      hide Scan, Sort, Contents, Valid, QueryIds;
      AnswerOrdered(list + Scan(Contents(), QueryIds(props, qc), qc, now), qc);
      result := list;
      if qc.sqt == ByDistance {
        result := DoQueryByDistance(result, qc, now);
      } else if qc.sqt == ByRectangle {
        result := DoQueryByRectangle(result, qc, now);
      }
      if qc.qot != Unsorted {
        result := Sort(result, qc);
      }
      if |result| > qc.maxNum {
        result := result[..qc.maxNum];
      }
    }
  }

  /** What is filed in a cell so far. */
  ghost function Filed(cells: Cells, id: CellId): Devices {
    if id in cells then cells[id] else map[]
  }

  lemma StillInPlace(props: Properties, cells: Cells, loc: Location)
    requires InPlace(props, cells) && InGrid(props, loc.point)
    ensures var id := CellOf(props, loc.point);
            InPlace(props, cells[id := Filed(cells, id)[loc.devId := loc]])
  {
  }

  lemma NonePresent(list: seq<MapCell>, cells: map<CellId, MapCell>)
    ensures list + Present(cells, []) == list
  {
  }

  lemma PresentUnfold(list: seq<MapCell>, cells: map<CellId, MapCell>, id: CellId, ids: seq<CellId>)
    ensures list + Present(cells, [id] + ids) ==
            (if id in cells then list + [cells[id]] else list) + Present(cells, ids)
  {
    assert ([id] + ids)[1..] == ids;
  }
}
