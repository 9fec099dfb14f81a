/** The chart component's data path: the "no data" guard, the merge of every
    dataset's points into one table keyed by the raw `x` text, the ordering
    of the rows by parsed time, and the line list with its colours. Parsing a
    time text is a parameter `parse`, standing for `new Date(text)` read as a
    number. */
module ChartData {
  import opened Results
  import Text
  import Seqs
  import Palette

  datatype Point = Point(x: string, y: real)

  /** One series of the response: `series` is its `label`, `points` its
      `data` (missing when absent), `borderColor` its optional colour. */
  datatype Dataset = Dataset(series: string, points: Option<seq<Point>>, borderColor: Option<string>)

  /** The graph response; `datasets` is missing when the field is absent. */
  datatype Payload = Payload(datasets: Option<seq<Dataset>>)

  /** A single assignment `row[label] = y` into the row keyed `x`. */
  datatype Write = Write(x: string, series: string, y: real)

  /** One chart row: its raw time text and the value of each series at it. */
  datatype Row = Row(time: string, values: map<string, real>)

  /** The merged table: row keys in the order they were first met, and the
      values held under each key. (JavaScript would list integer-like keys
      first, in ascending numeric order; the model keeps first-met order
      for every key.) */
  datatype Table = Table(order: seq<string>, cells: map<string, map<string, real>>)

  /** A drawn line: the series it reads and its stroke colour. */
  datatype Line = Line(dataKey: string, stroke: string)

  /** What the component shows: the placeholder, or a chart. */
  datatype View = Placeholder | Plot(rows: seq<Row>, lines: seq<Line>)

  const Empty: Table := Table([], map[])

  /** Every key is listed exactly once and every listed key has a row. */
  predicate Valid(t: Table) {
    && Seqs.NoDuplicates(t.order)
    && (forall i :: 0 <= i < |t.order| ==> t.order[i] in t.cells)
    && (forall x :: x in t.cells ==> x in t.order)
  }

  predicate Has(t: Table, x: string, series: string) {
    x in t.cells && series in t.cells[x]
  }

  /** The `x` texts the writes touch. */
  function Xs(ws: seq<Write>): set<string> {
    set w | w in ws :: w.x
  }

  /** The (x, series) cells the writes touch. */
  function Pairs(ws: seq<Write>): set<(string, string)> {
    set w | w in ws :: (w.x, w.series)
  }

  /** The writes one dataset makes, point by point; none without `data`. */
  function DatasetWrites(d: Dataset): (ws: seq<Write>)
    ensures d.points.None? ==> ws == []
    ensures d.points.Some? ==> |ws| == |d.points.value|
    ensures d.points.Some? ==> forall i :: 0 <= i < |ws| ==>
      ws[i] == Write(d.points.value[i].x, d.series, d.points.value[i].y)
  {
    match d.points
    case None => []
    case Some(pts) => seq(|pts|, i requires 0 <= i < |pts| => Write(pts[i].x, d.series, pts[i].y))
  }

  /** All writes of the nested `forEach`, dataset after dataset. */
  function Writes(sets: seq<Dataset>): seq<Write>
    decreases |sets|
  {
    if |sets| == 0 then [] else DatasetWrites(sets[0]) + Writes(sets[1..])
  }

  /** One assignment: the row for `w.x` is created empty when missing
      (and its key appended to the order), then its `w.series` is set. */
  function Put(t: Table, w: Write): (u: Table)
    requires Valid(t)
    ensures Valid(u)
    ensures u.cells.Keys == t.cells.Keys + {w.x}
    ensures Has(u, w.x, w.series) && u.cells[w.x][w.series] == w.y
  {
    var row := if w.x in t.cells then t.cells[w.x] else map[];
    var order := if w.x in t.cells then t.order else t.order + [w.x];
    Table(order, t.cells[w.x := row[w.series := w.y]])
  }

  /** Performs the writes in order. */
  function Apply(t: Table, ws: seq<Write>): (u: Table)
    requires Valid(t)
    ensures Valid(u)
    decreases |ws|
  {
    if |ws| == 0 then t else Apply(Put(t, ws[0]), ws[1..])
  }

  /** `processedDataMap` after both loops. */
  function Merge(sets: seq<Dataset>): (t: Table)
    ensures Valid(t)
  {
    Apply(Empty, Writes(sets))
  }

  /** `Object.values(processedDataMap)`: one row per key, in the table's
      first-met key order. */
  function Rows(t: Table): (rows: seq<Row>)
    requires Valid(t)
    ensures |rows| == |t.order|
    ensures forall i :: 0 <= i < |rows| ==> rows[i].time in t.cells && rows[i].values == t.cells[rows[i].time]
    ensures forall x :: x in t.cells ==> exists i :: 0 <= i < |rows| && rows[i].time == x
    ensures DistinctTimes(rows)
  {
    var rows := seq(|t.order|, i requires 0 <= i < |t.order| => Row(t.order[i], t.cells[t.order[i]]));
    assert forall x :: x in t.cells ==> exists i :: 0 <= i < |rows| && rows[i].time == x by {
      forall x | x in t.cells
        ensures exists i :: 0 <= i < |rows| && rows[i].time == x
      {
        var i :| 0 <= i < |t.order| && t.order[i] == x;
        assert rows[i].time == x;
      }
    }
    rows
  }

  predicate DistinctTimes(rows: seq<Row>) {
    forall i, j :: 0 <= i < j < |rows| ==> rows[i].time != rows[j].time
  }

  predicate SortedBy(rows: seq<Row>, parse: string -> int) {
    forall i, j :: 0 <= i < j < |rows| ==> parse(rows[i].time) <= parse(rows[j].time)
  }

  /** Places `r` before the first row that is not earlier than it. */
  function Insert(r: Row, rows: seq<Row>, parse: string -> int): (out: seq<Row>)
    ensures multiset(out) == multiset(rows) + multiset{r}
    decreases |rows|
  {
    if |rows| == 0 || parse(r.time) <= parse(rows[0].time) then [r] + rows
    else
      assert rows == [rows[0]] + rows[1..];
      [rows[0]] + Insert(r, rows[1..], parse)
  }

  /** The rows ordered by parsed time (`sort` with `a - b` on parsed times). */
  function SortRows(rows: seq<Row>, parse: string -> int): (out: seq<Row>)
    ensures multiset(out) == multiset(rows)
    decreases |rows|
  {
    if |rows| == 0 then []
    else
      assert rows == [rows[0]] + rows[1..];
      Insert(rows[0], SortRows(rows[1..], parse), parse)
  }

  /** Every row's parsed time is at least `v`. */
  predicate AtLeast(rows: seq<Row>, v: int, parse: string -> int) {
    forall i :: 0 <= i < |rows| ==> v <= parse(rows[i].time)
  }

  /** Inserting a row no earlier than `v` among rows no earlier than `v`
      keeps every row no earlier than `v`. */
  lemma {:induction false} InsertAtLeast(r: Row, rows: seq<Row>, v: int, parse: string -> int)
    requires AtLeast(rows, v, parse) && v <= parse(r.time)
    ensures AtLeast(Insert(r, rows, parse), v, parse)
    decreases |rows|
  {
    if |rows| > 0 && parse(r.time) > parse(rows[0].time) {
      InsertAtLeast(r, rows[1..], v, parse);
    }
  }

  /** A row no later than every row of a sorted sequence can lead it. */
  lemma ConsSorted(h: Row, rest: seq<Row>, parse: string -> int)
    requires SortedBy(rest, parse) && AtLeast(rest, parse(h.time), parse)
    ensures SortedBy([h] + rest, parse)
  {
    var out := [h] + rest;
    forall i, j | 0 <= i < j < |out|
      ensures parse(out[i].time) <= parse(out[j].time)
    {
      assert out[j] == rest[j - 1];
      if i > 0 {
        assert out[i] == rest[i - 1];
      }
    }
  }

  /** Inserting into sorted rows keeps them sorted. */
  lemma {:induction false} InsertSorted(r: Row, rows: seq<Row>, parse: string -> int)
    requires SortedBy(rows, parse)
    ensures SortedBy(Insert(r, rows, parse), parse)
    decreases |rows|
  {
    if |rows| == 0 || parse(r.time) <= parse(rows[0].time) {
      ConsSorted(r, rows, parse);
    } else {
      InsertSorted(r, rows[1..], parse);
      InsertAtLeast(r, rows[1..], parse(rows[0].time), parse);
      ConsSorted(rows[0], Insert(r, rows[1..], parse), parse);
    }
  }

  /** Sorting yields rows ordered non-decreasingly by parsed time. */
  lemma {:induction false} SortRowsSorted(rows: seq<Row>, parse: string -> int)
    ensures SortedBy(SortRows(rows, parse), parse)
    decreases |rows|
  {
    if |rows| > 0 {
      SortRowsSorted(rows[1..], parse);
      InsertSorted(rows[0], SortRows(rows[1..], parse), parse);
    }
  }

  /** The set of row times. */
  function Times(rows: seq<Row>): set<string> {
    set r | r in rows :: r.time
  }

  /** Reordering rows keeps their times, and pairwise-different times stay
      pairwise different. */
  lemma PermutedTimes(a: seq<Row>, b: seq<Row>)
    requires multiset(a) == multiset(b)
    requires DistinctTimes(a)
    ensures Times(a) == Times(b)
    ensures DistinctTimes(b)
    ensures |a| == |b|
  {
    assert forall r :: r in a <==> r in b by {
      forall r
        ensures r in a <==> r in b
      {
        assert r in a <==> r in multiset(a);
      }
    }
    assert |a| == |multiset(a)| == |multiset(b)| == |b|;
    if !DistinctTimes(b) {
      var i, j :| 0 <= i < j < |b| && b[i].time == b[j].time;
      assert b[i] in b && b[j] in b;
      var i' :| 0 <= i' < |a| && a[i'] == b[i];
      var j' :| 0 <= j' < |a| && a[j'] == b[j];
      assert i' == j';
      CountTwice(b, i, j);
      OnceWhenDistinct(a, i');
      assert false;
    }
  }

  /** An element found at two positions occurs at least twice. */
  lemma CountTwice<T>(s: seq<T>, i: nat, j: nat)
    requires i < j < |s| && s[i] == s[j]
    ensures multiset(s)[s[i]] >= 2
  {
    assert s == s[..j] + s[j..];
    assert s[i] in s[..j];
    assert s[j] in s[j..];
  }

  /** An element of rows with pairwise-different times occurs once. */
  lemma {:induction false} OnceWhenDistinct(a: seq<Row>, i: nat)
    requires DistinctTimes(a) && i < |a|
    ensures multiset(a)[a[i]] == 1
    decreases |a|
  {
    assert a == [a[0]] + a[1..];
    if i == 0 {
      assert a[0] !in a[1..];
      assert multiset(a[1..])[a[0]] == 0;
    } else {
      OnceWhenDistinct(a[1..], i - 1);
      assert a[1..][i - 1] == a[i];
    }
  }

  /** One line per dataset, in dataset order, coloured by `Palette.Stroke`. */
  function Lines(sets: seq<Dataset>): (lines: seq<Line>)
    ensures |lines| == |sets|
    ensures forall k :: 0 <= k < |sets| ==>
      lines[k].dataKey == sets[k].series && lines[k].stroke == Palette.Stroke(sets[k].borderColor, k)
  {
    seq(|sets|, k requires 0 <= k < |sets| => Line(sets[k].series, Palette.Stroke(sets[k].borderColor, k)))
  }

  /** The whole component: the placeholder without datasets, otherwise the
      merged rows sorted by parsed time and one line per dataset. */
  function Render(data: Option<Payload>, parse: string -> int): (v: View)
    ensures v.Placeholder? <==> data.None? || data.value.datasets.None? || |data.value.datasets.value| == 0
    ensures v.Plot? ==> SortedBy(v.rows, parse)
    ensures v.Plot? ==> multiset(v.rows) == multiset(Rows(Merge(data.value.datasets.value)))
    ensures v.Plot? ==> |v.lines| == |data.value.datasets.value|
    ensures v.Plot? ==> v.lines == Lines(data.value.datasets.value)
  {
    if data.None? || data.value.datasets.None? || |data.value.datasets.value| == 0 then Placeholder
    else
      var sets := data.value.datasets.value;
      var rows := Rows(Merge(sets));
      SortRowsSorted(rows, parse);
      Plot(SortRows(rows, parse), Lines(sets))
  }

  // ----- Properties of the merge -----

  /** A write to one cell leaves every other cell as it was. */
  lemma PutElsewhere(t: Table, w: Write, x: string, series: string)
    requires Valid(t)
    requires (x, series) != (w.x, w.series)
    ensures Has(Put(t, w), x, series) == Has(t, x, series)
    ensures Has(t, x, series) ==> Put(t, w).cells[x][series] == t.cells[x][series]
  {
  }

  lemma SplitWrites(ws: seq<Write>)
    requires |ws| > 0
    ensures Xs(ws) == {ws[0].x} + Xs(ws[1..])
    ensures Pairs(ws) == {(ws[0].x, ws[0].series)} + Pairs(ws[1..])
  {
    assert ws == [ws[0]] + ws[1..];
  }

  /** The keys after the writes are the keys before plus every written `x`. */
  lemma {:induction false} ApplyKeys(t: Table, ws: seq<Write>)
    requires Valid(t)
    ensures Apply(t, ws).cells.Keys == t.cells.Keys + Xs(ws)
    decreases |ws|
  {
    if |ws| > 0 {
      ApplyKeys(Put(t, ws[0]), ws[1..]);
      SplitWrites(ws);
    }
  }

  /** A cell no write touches keeps its presence and value. */
  lemma {:induction false} ApplyUntouched(t: Table, ws: seq<Write>, x: string, series: string)
    requires Valid(t)
    requires (x, series) !in Pairs(ws)
    ensures Has(Apply(t, ws), x, series) == Has(t, x, series)
    ensures Has(t, x, series) ==> Apply(t, ws).cells[x][series] == t.cells[x][series]
    decreases |ws|
  {
    if |ws| > 0 {
      SplitWrites(ws);
      PutElsewhere(t, ws[0], x, series);
      ApplyUntouched(Put(t, ws[0]), ws[1..], x, series);
    }
  }

  /** A cell is present afterwards exactly when it was before or some write
      touches it. */
  lemma {:induction false} ApplyCells(t: Table, ws: seq<Write>, x: string, series: string)
    requires Valid(t)
    ensures Has(Apply(t, ws), x, series) <==> Has(t, x, series) || (x, series) in Pairs(ws)
    decreases |ws|
  {
    if |ws| > 0 {
      SplitWrites(ws);
      ApplyCells(Put(t, ws[0]), ws[1..], x, series);
      if (x, series) != (ws[0].x, ws[0].series) {
        PutElsewhere(t, ws[0], x, series);
      }
    } else if (x, series) in Pairs(ws) {
      assert false;
    }
  }

  /** Last write wins: the cell of a write that no later write overwrites
      holds that write's value. */
  lemma {:induction false} ApplyLastWins(t: Table, ws: seq<Write>, i: nat)
    requires Valid(t)
    requires i < |ws|
    requires forall j :: i < j < |ws| ==> (ws[j].x, ws[j].series) != (ws[i].x, ws[i].series)
    ensures Has(Apply(t, ws), ws[i].x, ws[i].series)
    ensures Apply(t, ws).cells[ws[i].x][ws[i].series] == ws[i].y
    decreases |ws|
  {
    if i == 0 {
      assert (ws[0].x, ws[0].series) !in Pairs(ws[1..]);
      ApplyUntouched(Put(t, ws[0]), ws[1..], ws[0].x, ws[0].series);
    } else {
      assert ws[1..][i - 1] == ws[i];
      ApplyLastWins(Put(t, ws[0]), ws[1..], i - 1);
    }
  }

  /** Concatenated dataset lists write in sequence. */
  lemma {:induction false} WritesAppend(a: seq<Dataset>, b: seq<Dataset>)
    ensures Writes(a + b) == Writes(a) + Writes(b)
    decreases |a|
  {
    if |a| == 0 {
      assert a + b == b;
    } else {
      assert (a + b)[1..] == a[1..] + b;
      WritesAppend(a[1..], b);
    }
  }

  /** A dataset without `data` contributes nothing: dropping it changes no
      part of the merged table. */
  lemma DatasetWithoutDataIgnored(sets: seq<Dataset>, k: nat)
    requires k < |sets| && sets[k].points.None?
    ensures Merge(sets) == Merge(sets[..k] + sets[k + 1..])
  {
    WritesSkip(sets, k);
  }

  lemma WritesSkip(sets: seq<Dataset>, k: nat)
    requires k < |sets| && sets[k].points.None?
    ensures Writes(sets) == Writes(sets[..k] + sets[k + 1..])
  {
    var before, after := sets[..k], sets[k + 1..];
    assert sets == before + ([sets[k]] + after);
    WritesAppend(before, [sets[k]] + after);
    assert Writes([sets[k]] + after) == Writes(after) by {
      assert ([sets[k]] + after)[1..] == after;
    }
    WritesAppend(before, after);
  }

  /** Whether some point of the dataset has time text `x`. */
  predicate HasX(d: Dataset, x: string) {
    d.points.Some? && exists p :: p in d.points.value && p.x == x
  }

  /** The written `x` texts are exactly the `x` of some point of some dataset. */
  lemma {:induction false} WrittenXs(sets: seq<Dataset>, x: string)
    ensures x in Xs(Writes(sets)) <==> exists k :: 0 <= k < |sets| && HasX(sets[k], x)
    decreases |sets|
  {
    if |sets| > 0 {
      WrittenXs(sets[1..], x);
      var own := DatasetWrites(sets[0]);
      assert Xs(Writes(sets)) == Xs(own) + Xs(Writes(sets[1..]));
      assert x in Xs(own) <==> HasX(sets[0], x) by {
        if x in Xs(own) {
          var w :| w in own && w.x == x;
          var i :| 0 <= i < |own| && own[i] == w;
          assert sets[0].points.value[i] in sets[0].points.value;
        }
        if HasX(sets[0], x) {
          var p :| p in sets[0].points.value && p.x == x;
          var i :| 0 <= i < |sets[0].points.value| && sets[0].points.value[i] == p;
          assert own[i] in own;
        }
      }
      if exists k :: 0 <= k < |sets[1..]| && HasX(sets[1..][k], x) {
        var k :| 0 <= k < |sets[1..]| && HasX(sets[1..][k], x);
        assert sets[k + 1] == sets[1..][k];
      }
      if exists k :: 1 <= k < |sets| && HasX(sets[k], x) {
        var k :| 1 <= k < |sets| && HasX(sets[k], x);
        assert sets[1..][k - 1] == sets[k];
      }
    }
  }

  /** The rows of a table have exactly its keys as times, one row each. */
  lemma RowsTimes(t: Table)
    requires Valid(t)
    ensures Times(Rows(t)) == t.cells.Keys
    ensures |Rows(t)| == |t.cells.Keys|
  {
    var rows := Rows(t);
    forall x | x in Times(rows)
      ensures x in t.cells
    {
      var r :| r in rows && r.time == x;
    }
    forall x | x in t.cells
      ensures x in Times(rows)
    {
      var i :| 0 <= i < |rows| && rows[i].time == x;
      assert rows[i] in rows;
    }
    Seqs.DistinctCount(t.order);
    assert (set x | x in t.order) == t.cells.Keys;
  }

  /** The merged rows have one time per written `x`. */
  lemma MergedTimes(sets: seq<Dataset>)
    ensures Times(Rows(Merge(sets))) == Xs(Writes(sets))
    ensures |Rows(Merge(sets))| == |Xs(Writes(sets))|
  {
    ApplyKeys(Empty, Writes(sets));
    RowsTimes(Merge(sets));
  }

  /** The view of a response that carries the datasets `sets`. */
  function ViewOf(sets: seq<Dataset>, parse: string -> int): View {
    Render(Some(Payload(Some(sets))), parse)
  }

  /** One row per distinct `x`: the plotted rows have pairwise different
      times, their times are exactly the `x` texts of all points of all
      datasets, and so their count is the number of distinct `x` texts. */
  lemma RowPerDistinctX(sets: seq<Dataset>, parse: string -> int)
    requires |sets| > 0
    ensures var v := ViewOf(sets, parse);
      && v.Plot?
      && DistinctTimes(v.rows)
      && Times(v.rows) == Xs(Writes(sets))
      && |v.rows| == |Xs(Writes(sets))|
  {
    MergedTimes(sets);
    PermutedTimes(Rows(Merge(sets)), ViewOf(sets, parse).rows);
  }

  /** Each plotted row is the merged table's row for its time. */
  lemma PlottedRow(sets: seq<Dataset>, parse: string -> int)
    requires |sets| > 0
    ensures var rows := ViewOf(sets, parse).rows; var t := Merge(sets);
      forall i :: 0 <= i < |rows| ==> rows[i].time in t.cells && rows[i].values == t.cells[rows[i].time]
  {
    var t := Merge(sets);
    var base := Rows(t);
    var rows := ViewOf(sets, parse).rows;
    assert multiset(rows) == multiset(base);
    forall i | 0 <= i < |rows|
      ensures rows[i].time in t.cells && rows[i].values == t.cells[rows[i].time]
    {
      assert rows[i] in multiset(rows);
      var j :| 0 <= j < |base| && base[j] == rows[i];
    }
  }

  /** A plotted row holds a value only for a series some point of that time
      wrote. */
  lemma PlottedSeriesWritten(sets: seq<Dataset>, parse: string -> int)
    requires |sets| > 0
    ensures var rows := ViewOf(sets, parse).rows;
      forall i, series :: 0 <= i < |rows| && series in rows[i].values ==> (rows[i].time, series) in Pairs(Writes(sets))
  {
    var rows := ViewOf(sets, parse).rows;
    PlottedRow(sets, parse);
    forall i, series | 0 <= i < |rows| && series in rows[i].values
      ensures (rows[i].time, series) in Pairs(Writes(sets))
    {
      ApplyCells(Empty, Writes(sets), rows[i].time, series);
    }
  }

  /** No later write goes to the same (x, series) cell as write `j`. */
  predicate IsLastWrite(ws: seq<Write>, j: nat)
    requires j < |ws|
  {
    forall k :: j < k < |ws| ==> (ws[k].x, ws[k].series) != (ws[j].x, ws[j].series)
  }

  /** Last write wins in the plot: for the last point written to an
      (x, series) cell in dataset-then-point order, the plot has a row for
      `x` and it shows that point's value. */
  lemma PlottedLastWins(sets: seq<Dataset>, parse: string -> int, j: nat)
    requires |sets| > 0
    requires j < |Writes(sets)| && IsLastWrite(Writes(sets), j)
    ensures var v := ViewOf(sets, parse); var w := Writes(sets)[j];
      exists i :: 0 <= i < |v.rows| && v.rows[i].time == w.x
        && w.series in v.rows[i].values && v.rows[i].values[w.series] == w.y
  {
    var v := ViewOf(sets, parse);
    var ws := Writes(sets);
    var w := ws[j];
    RowPerDistinctX(sets, parse);
    assert w.x in Xs(ws);
    var row :| row in v.rows && row.time == w.x;
    var i :| 0 <= i < |v.rows| && v.rows[i] == row;
    PlottedRow(sets, parse);
    ApplyLastWins(Empty, ws, j);
  }

  // ----- Properties of the lines -----

  /** Every line takes its dataset's own non-empty colour, or else a palette
      colour `hsl(<hue>, 85%, 60%)` with one of the eight hues. Two lines
      whose datasets bring no colour share a colour exactly when their
      positions are a multiple of eight apart. */
  lemma LineStrokes(sets: seq<Dataset>, j: nat, k: nat)
    requires j < |sets| && k < |sets|
    ensures var own := sets[k].borderColor;
      own.Some? && own.value != "" ==> Lines(sets)[k].stroke == own.value
    ensures var own := sets[k].borderColor;
      own.None? || own.value == "" ==>
        exists h :: h in Palette.Hues && Lines(sets)[k].stroke == "hsl(" + Text.NatToString(h) + ", 85%, 60%)"
    ensures Colourless(sets[j]) && Colourless(sets[k]) ==>
      (Lines(sets)[j].stroke == Lines(sets)[k].stroke <==> j % 8 == k % 8)
  {
    Palette.LineColorDistinct(j, k);
    var h := Palette.Hue(k);
    assert h in Palette.Hues;
  }

  /** A dataset that brings no usable colour of its own. */
  predicate Colourless(d: Dataset) {
    d.borderColor.None? || d.borderColor.value == ""
  }

  /** The series the writes name all belong to some dataset. */
  lemma {:induction false} WrittenSeries(sets: seq<Dataset>, x: string, series: string)
    requires (x, series) in Pairs(Writes(sets))
    ensures exists k :: 0 <= k < |sets| && sets[k].series == series
    decreases |sets|
  {
    var own := DatasetWrites(sets[0]);
    var rest := Writes(sets[1..]);
    assert Pairs(Writes(sets)) == Pairs(own) + Pairs(rest);
    if (x, series) in Pairs(own) {
      var w :| w in own && (w.x, w.series) == (x, series);
    } else {
      WrittenSeries(sets[1..], x, series);
      var k :| 0 <= k < |sets[1..]| && sets[1..][k].series == series;
      assert sets[k + 1].series == series;
    }
  }

  /** Every plotted value is drawn: each series a plotted row holds a value
      for has a line reading it. */
  lemma PlottedSeriesHaveLines(sets: seq<Dataset>, parse: string -> int)
    requires |sets| > 0
    ensures var v := ViewOf(sets, parse);
      forall i, series :: 0 <= i < |v.rows| && series in v.rows[i].values ==>
        exists k :: 0 <= k < |v.lines| && v.lines[k].dataKey == series
  {
    var v := ViewOf(sets, parse);
    PlottedSeriesWritten(sets, parse);
    forall i, series | 0 <= i < |v.rows| && series in v.rows[i].values
      ensures exists k :: 0 <= k < |v.lines| && v.lines[k].dataKey == series
    {
      WrittenSeries(sets, v.rows[i].time, series);
      var k :| 0 <= k < |sets| && sets[k].series == series;
      assert v.lines[k].dataKey == series;
    }
  }
}
