/**
 The scan of the `/api/check-urls` handler (server.js:36-89): it walks the sheet's range row
 by row and, within a row, column by column; classifies each present, truthy cell value after
 trimming it; probes every URL; records the broken ones in visiting order; and ends with a
 summary message.

 The sheet is the first worksheet as the spreadsheet library presents it: a partial map
 from (row, column) to cell value, with the inclusive range `decode_range` reads from its
 `!ref`. A cell's address stays the (row, column) pair that `encode_cell` renders. The probe
 (`checkUrl`) is a parameter, so the scan is deterministic; `Prober.Probe` is the probe over
 a given network.
 */
module Scanner {
  import opened JsText
  import opened Classifier
  import opened Prober

  datatype Coord = Coord(r: int, c: int)

  /** `decode_range`'s result: first cell `s` and last cell `e`, both inclusive. */
  datatype Range = Range(s: Coord, e: Coord)

  /** A cell's `v`: a string; or a number, boolean or date, given by what `String(v)` gives
      for it and whether JavaScript counts it as false (`0`, `NaN`, `false`). */
  datatype CellValue = Text(text: string) | Scalar(shown: string, falsy: bool) {
    /** `!cell.v` is false. */
    predicate Truthy() {
      match this
      case Text(t) => t != ""
      case Scalar(_, f) => !f
    }

    /** `String(cell.v)`. */
    function Shown(): string {
      match this
      case Text(t) => t
      case Scalar(s, _) => s
    }
  }

  type Sheet = map<Coord, CellValue>

  /** A cell whose trimmed value is a URL. */
  datatype Candidate = Candidate(cell: Coord, url: string)

  /** One entry of `brokenLinks`: `{cell, url, reason}`. */
  datatype BrokenLink = BrokenLink(cell: Coord, url: string, reason: string)

  /** The fields of the JSON answer (its `status` is always `success`). */
  datatype ScanReport = ScanReport(message: string, urlsChecked: nat, urlsFound: nat, brokenLinks: seq<BrokenLink>)

  // ---------------------------------------------------------------------------
  // One cell
  // ---------------------------------------------------------------------------

  /** server.js:47-52: an absent or falsy value is skipped; otherwise the value is rendered,
      trimmed and classified. */
  function CellUrl(v: CellValue): (u: Option<string>)
    ensures u.Some? ==> v.Truthy() && IsUrl(u.value) && u.value == Trim(v.Shown())
  {
    if !v.Truthy() then None
    else
      var cellValue := Trim(v.Shown());
      if IsUrl(cellValue) then Some(cellValue) else None
  }

  predicate IsUrlCell(sheet: Sheet, x: Coord) {
    x in sheet && CellUrl(sheet[x]).Some?
  }

  /** A cell yields a URL exactly when its value is truthy and, once rendered and trimmed,
      begins with `http://` or `https://` in any letter case; the URL is that trimmed text. */
  lemma CellUrlIff(v: CellValue)
    ensures var t := Trim(v.Shown());
            CellUrl(v).Some?
            <==> v.Truthy() && (StartsWithIgnoringCase(t, "http://") || StartsWithIgnoringCase(t, "https://"))
    ensures CellUrl(v).Some? ==> CellUrl(v).value == Trim(v.Shown())
  {
    IsUrlIff(Trim(v.Shown()));
  }

  /** A URL padded with whitespace is still found, and found without its padding. */
  lemma PaddedUrlFound(w1: string, url: string, w2: string)
    requires AllWhitespace(w1) && AllWhitespace(w2)
    requires IsUrl(url) && !IsWhitespace(url[|url| - 1])
    ensures CellUrl(Text(w1 + url + w2)) == Some(url)
  {
    IsUrlIff(url);
    assert LowerAscii(url[0]) == 'h';
    TrimPadded(w1, url, w2);
  }

  /** A value made only of whitespace is not a URL; skipped values are never URLs. */
  lemma BlankOrFalsyNotFound(v: CellValue)
    requires !v.Truthy() || AllWhitespace(v.Shown())
    ensures CellUrl(v) == None
  {
    if v.Truthy() {
      TrimEmptyIff(v.Shown());
      assert !IsUrl([]);
    }
  }

  // ---------------------------------------------------------------------------
  // The order of the walk
  // ---------------------------------------------------------------------------

  /** The cells `(row, lo)` ... `(row, hi - 1)`, by column. */
  function RowCells(row: int, lo: int, hi: int): seq<Coord>
    decreases hi - lo
  {
    if hi <= lo then [] else RowCells(row, lo, hi - 1) + [Coord(row, hi - 1)]
  }

  /** The cells the outer loop has walked once `row` reaches `hi`. */
  function RowsBelow(g: Range, hi: int): seq<Coord>
    decreases hi - g.s.r
  {
    if hi <= g.s.r then [] else RowsBelow(g, hi - 1) + RowCells(hi - 1, g.s.c, g.e.c + 1)
  }

  /** Every cell the scan visits, in visiting order. */
  function Visited(g: Range): seq<Coord> {
    RowsBelow(g, g.e.r + 1)
  }

  predicate InRange(g: Range, x: Coord) {
    g.s.r <= x.r <= g.e.r && g.s.c <= x.c <= g.e.c
  }

  /** Row-major order: row ascending, then column ascending. */
  predicate Before(x: Coord, y: Coord) {
    x.r < y.r || (x.r == y.r && x.c < y.c)
  }

  predicate RowMajor(xs: seq<Coord>) {
    forall i, j :: 0 <= i < j < |xs| ==> Before(xs[i], xs[j])
  }

  lemma {:induction false} RowCellsMembers(row: int, lo: int, hi: int)
    ensures forall x :: x in RowCells(row, lo, hi) <==> x.r == row && lo <= x.c < hi
    ensures RowMajor(RowCells(row, lo, hi))
    decreases hi - lo
  {
    if lo < hi {
      RowCellsMembers(row, lo, hi - 1);
    }
  }

  lemma {:induction false} RowsBelowMembers(g: Range, hi: int)
    ensures forall x :: x in RowsBelow(g, hi) <==> g.s.r <= x.r < hi && g.s.c <= x.c <= g.e.c
    ensures RowMajor(RowsBelow(g, hi))
    decreases hi - g.s.r
  {
    if g.s.r < hi {
      RowsBelowMembers(g, hi - 1);
      RowCellsMembers(hi - 1, g.s.c, g.e.c + 1);
      var a, b := RowsBelow(g, hi - 1), RowCells(hi - 1, g.s.c, g.e.c + 1);
      forall i, j | 0 <= i < j < |a + b|
        ensures Before((a + b)[i], (a + b)[j])
      {
        if j < |a| {
          assert (a + b)[i] == a[i] && (a + b)[j] == a[j];
        } else if i >= |a| {
          assert (a + b)[i] == b[i - |a|] && (a + b)[j] == b[j - |a|];
        } else {
          assert (a + b)[i] == a[i] && a[i] in a;
          assert (a + b)[j] == b[j - |a|] && b[j - |a|] in b;
        }
      }
    }
  }

  /** The scan visits every cell of the range and no other. */
  lemma VisitedIsRange(g: Range)
    ensures forall x :: x in Visited(g) <==> InRange(g, x)
  {
    RowsBelowMembers(g, g.e.r + 1);
  }

  /** The scan visits cells in row-major order, each once. */
  lemma VisitedRowMajor(g: Range)
    ensures RowMajor(Visited(g))
  {
    RowsBelowMembers(g, g.e.r + 1);
  }

  // ---------------------------------------------------------------------------
  // What the walk collects
  // ---------------------------------------------------------------------------

  /** The URL cells among `cells`, in the order given. */
  function Candidates(sheet: Sheet, cells: seq<Coord>): seq<Candidate> {
    if cells == [] then []
    else
      var x := cells[|cells| - 1];
      Candidates(sheet, cells[..|cells| - 1])
      + (if IsUrlCell(sheet, x) then [Candidate(x, CellUrl(sheet[x]).value)] else [])
  }

  /** The candidates whose verdict is truthy, as broken-link records, in the order given. */
  function Flagged(cands: seq<Candidate>, probe: string -> Verdict): seq<BrokenLink> {
    if cands == [] then []
    else
      var k := cands[|cands| - 1];
      Flagged(cands[..|cands| - 1], probe)
      + (if probe(k.url).Truthy() then [BrokenLink(k.cell, k.url, probe(k.url).reason)] else [])
  }

  lemma CandidatesSnoc(sheet: Sheet, cells: seq<Coord>, x: Coord)
    ensures Candidates(sheet, cells + [x])
            == Candidates(sheet, cells) + (if IsUrlCell(sheet, x) then [Candidate(x, CellUrl(sheet[x]).value)] else [])
  {
    assert (cells + [x])[..|cells|] == cells;
  }

  lemma FlaggedSnoc(cands: seq<Candidate>, k: Candidate, probe: string -> Verdict)
    ensures Flagged(cands + [k], probe)
            == Flagged(cands, probe) + (if probe(k.url).Truthy() then [BrokenLink(k.cell, k.url, probe(k.url).reason)] else [])
  {
    assert (cands + [k])[..|cands|] == cands;
  }

  /** A cell appended to the walk that holds no URL adds no candidate. */
  lemma CandidatesSkip(sheet: Sheet, cells: seq<Coord>, x: Coord)
    requires !IsUrlCell(sheet, x)
    ensures Candidates(sheet, cells + [x]) == Candidates(sheet, cells)
  {
    CandidatesSnoc(sheet, cells, x);
  }

  /** A cell appended to the walk that holds the URL `u` adds one candidate. */
  lemma CandidatesTake(sheet: Sheet, cells: seq<Coord>, x: Coord, u: string)
    requires x in sheet && CellUrl(sheet[x]) == Some(u)
    ensures Candidates(sheet, cells + [x]) == Candidates(sheet, cells) + [Candidate(x, u)]
  {
    CandidatesSnoc(sheet, cells, x);
  }

  /** Each candidate comes from a URL cell of `cells`, with that cell's trimmed value. */
  lemma {:induction false} CandidatesSound(sheet: Sheet, cells: seq<Coord>)
    ensures forall i :: 0 <= i < |Candidates(sheet, cells)| ==>
              var k := Candidates(sheet, cells)[i];
              k.cell in cells && IsUrlCell(sheet, k.cell) && k.url == CellUrl(sheet[k.cell]).value
  {
    if cells != [] {
      var init, x := cells[..|cells| - 1], cells[|cells| - 1];
      CandidatesSound(sheet, init);
      assert cells == init + [x];
      CandidatesSnoc(sheet, init, x);
    }
  }

  /** Every URL cell of `cells` gives a candidate. */
  lemma {:induction false} CandidatesComplete(sheet: Sheet, cells: seq<Coord>, y: Coord)
    requires y in cells && IsUrlCell(sheet, y)
    ensures Candidate(y, CellUrl(sheet[y]).value) in Candidates(sheet, cells)
  {
    var init, x := cells[..|cells| - 1], cells[|cells| - 1];
    assert cells == init + [x];
    CandidatesSnoc(sheet, init, x);
    if y != x {
      CandidatesComplete(sheet, init, y);
    }
  }

  /** Candidates keep the order of the cells they come from. */
  lemma {:induction false} CandidatesInOrder(sheet: Sheet, cells: seq<Coord>)
    requires RowMajor(cells)
    ensures forall i, j :: 0 <= i < j < |Candidates(sheet, cells)| ==>
              Before(Candidates(sheet, cells)[i].cell, Candidates(sheet, cells)[j].cell)
  {
    if cells != [] {
      var init, x := cells[..|cells| - 1], cells[|cells| - 1];
      assert cells == init + [x];
      CandidatesInOrder(sheet, init);
      CandidatesSound(sheet, init);
      CandidatesSnoc(sheet, init, x);
      var a := Candidates(sheet, init);
      forall k | 0 <= k < |a|
        ensures Before(a[k].cell, x)
      {
        var m :| 0 <= m < |init| && init[m] == a[k].cell;
        assert cells[m] == init[m];
      }
    }
  }

  /** The URL cells of a repetition-free sequence of cells are as many as its candidates. */
  lemma {:induction false} CandidatesCount(sheet: Sheet, cells: seq<Coord>)
    requires RowMajor(cells)
    ensures |Candidates(sheet, cells)| == |set y | y in cells && IsUrlCell(sheet, y)|
  {
    if cells != [] {
      var init, x := cells[..|cells| - 1], cells[|cells| - 1];
      assert cells == init + [x];
      assert RowMajor(init);
      CandidatesCount(sheet, init);
      CandidatesSnoc(sheet, init, x);
      assert x !in init by {
        forall m | 0 <= m < |init|
          ensures init[m] != x
        {
          assert Before(cells[m], cells[|cells| - 1]);
        }
      }
      UrlCellSetSnoc(sheet, init, x);
    }
  }

  lemma UrlCellSetSnoc(sheet: Sheet, init: seq<Coord>, x: Coord)
    ensures (set y | y in init + [x] && IsUrlCell(sheet, y))
            == (set y | y in init && IsUrlCell(sheet, y)) + (if IsUrlCell(sheet, x) then {x} else {})
  {
    var after := set y | y in init + [x] && IsUrlCell(sheet, y);
    var before := set y | y in init && IsUrlCell(sheet, y);
    forall y | y in after
      ensures y in before || y == x
    {
      assert y in init || y == x;
    }
  }

  /** Each record comes from a candidate whose verdict is a non-empty reason; there is at
      most one record per candidate. */
  lemma {:induction false} FlaggedSound(cands: seq<Candidate>, probe: string -> Verdict)
    ensures |Flagged(cands, probe)| <= |cands|
    ensures forall i :: 0 <= i < |Flagged(cands, probe)| ==>
              var b := Flagged(cands, probe)[i];
              Candidate(b.cell, b.url) in cands && probe(b.url) == Broken(b.reason) && b.reason != ""
  {
    if cands != [] {
      var init, k := cands[..|cands| - 1], cands[|cands| - 1];
      assert cands == init + [k];
      FlaggedSound(init, probe);
      FlaggedSnoc(init, k, probe);
    }
  }

  /** Every candidate whose verdict is truthy gives its record. */
  lemma {:induction false} FlaggedComplete(cands: seq<Candidate>, probe: string -> Verdict, q: Candidate)
    requires q in cands && probe(q.url).Truthy()
    ensures BrokenLink(q.cell, q.url, probe(q.url).reason) in Flagged(cands, probe)
  {
    var init, k := cands[..|cands| - 1], cands[|cands| - 1];
    assert cands == init + [k];
    FlaggedSnoc(init, k, probe);
    if q != k {
      FlaggedComplete(init, probe, q);
    }
  }

  /** Records keep the order of their candidates. */
  lemma {:induction false} FlaggedInOrder(cands: seq<Candidate>, probe: string -> Verdict)
    requires forall i, j :: 0 <= i < j < |cands| ==> Before(cands[i].cell, cands[j].cell)
    ensures forall i, j :: 0 <= i < j < |Flagged(cands, probe)| ==>
              Before(Flagged(cands, probe)[i].cell, Flagged(cands, probe)[j].cell)
  {
    if cands != [] {
      var init, k := cands[..|cands| - 1], cands[|cands| - 1];
      assert cands == init + [k];
      FlaggedInOrder(init, probe);
      FlaggedSound(init, probe);
      FlaggedSnoc(init, k, probe);
      var a := Flagged(init, probe);
      forall i | 0 <= i < |a|
        ensures Before(a[i].cell, k.cell)
      {
        var m :| 0 <= m < |init| && init[m] == Candidate(a[i].cell, a[i].url);
        assert cands[m] == init[m];
      }
    }
  }

  // ---------------------------------------------------------------------------
  // The summary message (server.js:73-89)
  // ---------------------------------------------------------------------------

  /** The two message templates. Which one is used shows in the first letter: `All ...`
      exactly when no link is broken, `Found ...` otherwise. */
  function Summary(urlsFound: nat, broken: nat): (m: string)
    ensures m != [] && (m[0] == 'A' <==> broken == 0)
    ensures broken != 0 ==> m[0] == 'F'
  {
    if broken == 0 then "All " + (Decimal(urlsFound) + " URLs are working correctly!")
    else "Found " + (Decimal(broken) + (" broken link(s) out of " + (Decimal(urlsFound) + " URLs")))
  }

  lemma CancelPrefix(p: string, a: string, b: string)
    requires p + a == p + b
    ensures a == b
  {
    assert a == (p + a)[|p|..];
    assert b == (p + b)[|p|..];
  }

  lemma AllWorkingInjective(found1: nat, found2: nat)
    requires Summary(found1, 0) == Summary(found2, 0)
    ensures found1 == found2
  {
    var tail := " URLs are working correctly!";
    var v1, v2 := Decimal(found1) + tail, Decimal(found2) + tail;
    assert Summary(found1, 0) == "All " + v1;
    assert Summary(found2, 0) == "All " + v2;
    CancelPrefix("All ", v1, v2);
    DigitRunSplit(Decimal(found1), tail, Decimal(found2), tail);
    DecimalInjective(found1, found2);
  }

  lemma SomeBrokenInjective(found1: nat, broken1: nat, found2: nat, broken2: nat)
    requires broken1 != 0 && broken2 != 0
    requires Summary(found1, broken1) == Summary(found2, broken2)
    ensures found1 == found2 && broken1 == broken2
  {
    var mid := " broken link(s) out of ";
    var t1, t2 := Decimal(found1) + " URLs", Decimal(found2) + " URLs";
    var v1 := Decimal(broken1) + (mid + t1);
    var v2 := Decimal(broken2) + (mid + t2);
    assert Summary(found1, broken1) == "Found " + v1;
    assert Summary(found2, broken2) == "Found " + v2;
    CancelPrefix("Found ", v1, v2);
    DigitRunSplit(Decimal(broken1), mid + t1, Decimal(broken2), mid + t2);
    DecimalInjective(broken1, broken2);
    CancelPrefix(mid, t1, t2);
    DigitRunSplit(Decimal(found1), " URLs", Decimal(found2), " URLs");
    DecimalInjective(found1, found2);
  }

  /** The message tells both counts: different counts give different messages, and a
      message without broken links cannot be mistaken for one with. */
  lemma SummaryInjective(found1: nat, broken1: nat, found2: nat, broken2: nat)
    requires Summary(found1, broken1) == Summary(found2, broken2)
    ensures found1 == found2 && broken1 == broken2
  {
    if broken1 == 0 {
      AllWorkingInjective(found1, found2);
    } else {
      SomeBrokenInjective(found1, broken1, found2, broken2);
    }
  }

  // ---------------------------------------------------------------------------
  // The scan
  // ---------------------------------------------------------------------------

  /** server.js:36-89 with the probe as a parameter: both counters end at the number of URL
      cells visited, the records are the flagged candidates in visiting order, and the
      message summarises them. */
  method Scan(sheet: Sheet, range: Range, probe: string -> Verdict) returns (report: ScanReport)
    ensures report.urlsFound == report.urlsChecked == |Candidates(sheet, Visited(range))|
    ensures report.brokenLinks == Flagged(Candidates(sheet, Visited(range)), probe)
    ensures report.message == Summary(report.urlsFound, |report.brokenLinks|)
  {
    var brokenLinks: seq<BrokenLink> := [];
    var urlsChecked: nat := 0;
    var urlsFound: nat := 0;
    var row := range.s.r;
    while row <= range.e.r
      invariant range.s.r <= row && (row <= range.e.r + 1 || row == range.s.r)
      invariant urlsFound == urlsChecked == |Candidates(sheet, RowsBelow(range, row))|
      invariant brokenLinks == Flagged(Candidates(sheet, RowsBelow(range, row)), probe)
      decreases range.e.r - row
    {
      var col := range.s.c;
      WalkedRowStart(range, row);
      while col <= range.e.c
        invariant range.s.c <= col && (col <= range.e.c + 1 || col == range.s.c)
        invariant urlsFound == urlsChecked == |Candidates(sheet, Walked(range, row, col))|
        invariant brokenLinks == Flagged(Candidates(sheet, Walked(range, row, col)), probe)
        decreases range.e.c - col
      {
        var cellRef := Coord(row, col);
        ghost var walked := Walked(range, row, col);
        ghost var cands := Candidates(sheet, walked);
        WalkedStep(range, row, col);
        if cellRef in sheet && sheet[cellRef].Truthy() {
          var cellValue := Trim(sheet[cellRef].Shown());
          if IsUrl(cellValue) {
            urlsFound := urlsFound + 1;
            var isBroken := probe(cellValue);
            if isBroken.Truthy() {
              brokenLinks := brokenLinks + [BrokenLink(cellRef, cellValue, isBroken.reason)];
            }
            urlsChecked := urlsChecked + 1;
            CandidatesTake(sheet, walked, cellRef, cellValue);
            FlaggedSnoc(cands, Candidate(cellRef, cellValue), probe);
          } else {
            CandidatesSkip(sheet, walked, cellRef);
          }
        } else {
          CandidatesSkip(sheet, walked, cellRef);
        }
        col := col + 1;
      }
      WalkedRowEnd(range, row);
      row := row + 1;
    }
    report := ScanReport(Summary(urlsFound, |brokenLinks|), urlsChecked, urlsFound, brokenLinks);
  }

  /** The cells walked when the scan reaches `(row, col)`. */
  function Walked(g: Range, row: int, col: int): seq<Coord> {
    RowsBelow(g, row) + RowCells(row, g.s.c, col)
  }

  lemma WalkedRowStart(g: Range, row: int)
    ensures Walked(g, row, g.s.c) == RowsBelow(g, row)
  {
    assert RowCells(row, g.s.c, g.s.c) == [];
  }

  lemma WalkedStep(g: Range, row: int, col: int)
    requires g.s.c <= col
    ensures Walked(g, row, col + 1) == Walked(g, row, col) + [Coord(row, col)]
  {
    assert RowCells(row, g.s.c, col + 1) == RowCells(row, g.s.c, col) + [Coord(row, col)];
  }

  lemma WalkedRowEnd(g: Range, row: int)
    requires g.s.r <= row
    ensures Walked(g, row, g.e.c + 1) == RowsBelow(g, row + 1)
  {
  }

  // ---------------------------------------------------------------------------
  // What the report promises
  // ---------------------------------------------------------------------------

  /** The URL cells of the range: present, truthy, and a URL once trimmed. */
  function UrlCells(sheet: Sheet, range: Range): set<Coord> {
    set x | x in sheet.Keys && InRange(range, x) && IsUrlCell(sheet, x)
  }

  /** `urlsFound` (and so `urlsChecked`) is the number of URL cells in the range. */
  lemma UrlsFoundCountsUrlCells(sheet: Sheet, range: Range)
    ensures |Candidates(sheet, Visited(range))| == |UrlCells(sheet, range)|
  {
    VisitedRowMajor(range);
    VisitedIsRange(range);
    CandidatesCount(sheet, Visited(range));
    assert (set x | x in Visited(range) && IsUrlCell(sheet, x)) == UrlCells(sheet, range);
  }

  /** A record names a URL cell of the range, carries that cell's trimmed value as its URL
      and the probe's non-empty reason for it. */
  predicate RecordFromCell(sheet: Sheet, range: Range, probe: string -> Verdict, b: BrokenLink) {
    InRange(range, b.cell) && b.cell in sheet && sheet[b.cell].Truthy()
    && b.url == Trim(sheet[b.cell].Shown()) && IsUrl(b.url)
    && probe(b.url) == Broken(b.reason) && b.reason != ""
  }

  /** Every record names a URL cell of the range, carries that cell's trimmed value as its
      URL and the probe's reason for it; there are no more records than URLs found. */
  lemma BrokenLinksSound(sheet: Sheet, range: Range, probe: string -> Verdict)
    ensures |Flagged(Candidates(sheet, Visited(range)), probe)| <= |Candidates(sheet, Visited(range))|
    ensures forall i :: 0 <= i < |Flagged(Candidates(sheet, Visited(range)), probe)| ==>
              RecordFromCell(sheet, range, probe, Flagged(Candidates(sheet, Visited(range)), probe)[i])
  {
    var cells := Visited(range);
    var cands := Candidates(sheet, cells);
    var links := Flagged(cands, probe);
    VisitedIsRange(range);
    CandidatesSound(sheet, cells);
    FlaggedSound(cands, probe);
    forall i | 0 <= i < |links|
      ensures RecordFromCell(sheet, range, probe, links[i])
    {
      RecordFromCandidate(sheet, range, probe, cells, cands, links[i]);
    }
  }

  lemma RecordFromCandidate(sheet: Sheet, range: Range, probe: string -> Verdict,
                            cells: seq<Coord>, cands: seq<Candidate>, b: BrokenLink)
    requires forall x :: x in cells ==> InRange(range, x)
    requires forall i :: 0 <= i < |cands| ==>
               cands[i].cell in cells && IsUrlCell(sheet, cands[i].cell) && cands[i].url == CellUrl(sheet[cands[i].cell]).value
    requires Candidate(b.cell, b.url) in cands && probe(b.url) == Broken(b.reason) && b.reason != ""
    ensures RecordFromCell(sheet, range, probe, b)
  {
    var j :| 0 <= j < |cands| && cands[j] == Candidate(b.cell, b.url);
  }

  /** Every URL cell of the range whose verdict is truthy has its record. */
  lemma BrokenLinksComplete(sheet: Sheet, range: Range, probe: string -> Verdict, x: Coord)
    requires InRange(range, x) && IsUrlCell(sheet, x) && probe(CellUrl(sheet[x]).value).Truthy()
    ensures var url := CellUrl(sheet[x]).value;
            BrokenLink(x, url, probe(url).reason) in Flagged(Candidates(sheet, Visited(range)), probe)
  {
    VisitedIsRange(range);
    CandidatesComplete(sheet, Visited(range), x);
    FlaggedComplete(Candidates(sheet, Visited(range)), probe, Candidate(x, CellUrl(sheet[x]).value));
  }

  /** The records appear in row-major order of their cells. */
  lemma BrokenLinksRowMajor(sheet: Sheet, range: Range, probe: string -> Verdict)
    ensures forall i, j :: 0 <= i < j < |Flagged(Candidates(sheet, Visited(range)), probe)| ==>
              Before(Flagged(Candidates(sheet, Visited(range)), probe)[i].cell,
                     Flagged(Candidates(sheet, Visited(range)), probe)[j].cell)
  {
    VisitedRowMajor(range);
    CandidatesInOrder(sheet, Visited(range));
    FlaggedInOrder(Candidates(sheet, Visited(range)), probe);
  }

  /** With `checkUrl` over a network, the records are exactly the broken URLs: no broken
      verdict is lost to `if (isBroken)`. */
  lemma NetworkBrokenRecorded(sheet: Sheet, range: Range, net: string -> (Exchange, Exchange), x: Coord)
    requires InRange(range, x) && IsUrlCell(sheet, x)
    requires var url := CellUrl(sheet[x]).value; Probe(net(url).0, net(url).1).Broken?
    ensures var url := CellUrl(sheet[x]).value;
            var probe := (u: string) => Probe(net(u).0, net(u).1);
            BrokenLink(x, url, probe(url).reason) in Flagged(Candidates(sheet, Visited(range)), probe)
  {
    var url := CellUrl(sheet[x]).value;
    var probe := (u: string) => Probe(net(u).0, net(u).1);
    ProbeTruthyIffBroken(net(url).0, net(url).1);
    BrokenLinksComplete(sheet, range, probe, x);
  }

  /** A range without URL cells yields no records and the all-working message for 0 URLs. */
  lemma NoUrlsAllWorking(sheet: Sheet, range: Range, probe: string -> Verdict)
    requires forall x :: InRange(range, x) && x in sheet ==> CellUrl(sheet[x]).None?
    ensures Candidates(sheet, Visited(range)) == [] && Flagged(Candidates(sheet, Visited(range)), probe) == []
    ensures Summary(|Candidates(sheet, Visited(range))|, 0) == "All 0 URLs are working correctly!"
  {
    UrlsFoundCountsUrlCells(sheet, range);
    assert UrlCells(sheet, range) == {};
    assert Decimal(0) == "0";
    assert Summary(0, 0) == "All " + ("0" + " URLs are working correctly!");
    AllZeroText();
    assert |Candidates(sheet, Visited(range))| == 0;
  }

  lemma AllZeroText()
    ensures "All " + ("0" + " URLs are working correctly!") == "All 0 URLs are working correctly!"
  {
    ZeroUrlsText();
    assert "All " + "0 URLs are working correctly!" == "All 0 URLs are working correctly!";
  }

  lemma ZeroUrlsText()
    ensures "0" + " URLs are working correctly!" == "0 URLs are working correctly!"
  {
  }

  // ---------------------------------------------------------------------------
  // A worked example
  // ---------------------------------------------------------------------------

  /** The example's two hosts: one that answers, one unknown to DNS. */
  const GoodHost: string := "good.example/"
  const BadHost: string := "nonexistent.invalid/"
  const GoodUrl: string := "https://" + GoodHost
  const BadUrl: string := "https://" + BadHost

  /** A1 holds a working URL, B2 no URL, C3 a URL whose domain does not resolve. */
  const ExampleSheet: Sheet := map[Coord(0, 0) := Text(GoodUrl),
                                   Coord(1, 1) := Text("not a url"),
                                   Coord(2, 2) := Text(BadUrl)]

  const ExampleRange: Range := Range(Coord(0, 0), Coord(2, 2))

  /** The network of the example: the good host answers 200, the other one is unknown to DNS. */
  function ExampleNetwork(u: string): (Exchange, Exchange) {
    if u == GoodUrl then (Answered(200), Answered(200))
    else
      var dns := Failed(Fault(Some("ENOTFOUND"), "getaddrinfo ENOTFOUND nonexistent.invalid"));
      (dns, dns)
  }

  lemma ExampleVisited()
    ensures Visited(ExampleRange) == [Coord(0, 0), Coord(0, 1), Coord(0, 2),
                                      Coord(1, 0), Coord(1, 1), Coord(1, 2),
                                      Coord(2, 0), Coord(2, 1), Coord(2, 2)]
  {
    assert RowCells(0, 0, 3) == [Coord(0, 0), Coord(0, 1), Coord(0, 2)];
    assert RowCells(1, 0, 3) == [Coord(1, 0), Coord(1, 1), Coord(1, 2)];
    assert RowCells(2, 0, 3) == [Coord(2, 0), Coord(2, 1), Coord(2, 2)];
    assert RowsBelow(ExampleRange, 1) == RowCells(0, 0, 3);
  }

  /** A value without surrounding whitespace is its own trimmed form. */
  lemma TrimUnpadded(u: string)
    requires u != [] && !IsWhitespace(u[0]) && !IsWhitespace(u[|u| - 1])
    ensures Trim(u) == u
  {
    assert TrimStart(u) == u;
    assert TrimEnd(u) == u;
  }

  /** A value made of the secure scheme and a host part that does not end with whitespace
      is found as it stands. */
  lemma SchemeValueFound(host: string)
    requires host != [] && !IsWhitespace(host[|host| - 1])
    ensures CellUrl(Text("https://" + host)) == Some("https://" + host)
  {
    var u := "https://" + host;
    IsUrlAcceptsSchemes(host);
    assert u[0] == 'h' && u[|u| - 1] == host[|host| - 1];
    TrimUnpadded(u);
  }

  lemma GoodValue()
    ensures CellUrl(Text(GoodUrl)) == Some(GoodUrl)
  {
    SchemeValueFound(GoodHost);
  }

  lemma BadValue()
    ensures CellUrl(Text(BadUrl)) == Some(BadUrl)
  {
    SchemeValueFound(BadHost);
  }

  lemma NotUrlValue()
    ensures CellUrl(Text("not a url")) == None
  {
    assert Trim("not a url") == "not a url" by {
      assert "not a url"[0] == 'n' && "not a url"[8] == 'l';
      assert TrimStart("not a url") == "not a url";
      assert TrimEnd("not a url") == "not a url";
    }
    assert !IsUrl("not a url") by {
      assert LowerAscii("not a url"[0]) != LowerAscii("http"[0]);
    }
  }

  lemma AppendThree(rows: seq<Coord>, a: Coord, b: Coord, c: Coord)
    ensures rows + [a] + [b] + [c] == rows + [a, b, c]
  {
  }

  lemma EmptyThenTwo(none: seq<Candidate>, x: Candidate, y: Candidate)
    requires none == []
    ensures none + [x] + [y] == [x, y]
  {
  }

  lemma ExampleGoodCell(sheet: Sheet, a: Coord)
    requires sheet == ExampleSheet && a == Coord(0, 0)
    ensures a in sheet && CellUrl(sheet[a]) == Some(GoodUrl)
  {
    assert sheet[a] == Text(GoodUrl);
    GoodValue();
  }

  lemma ExampleBadCell(sheet: Sheet, c: Coord)
    requires sheet == ExampleSheet && c == Coord(2, 2)
    ensures c in sheet && CellUrl(sheet[c]) == Some(BadUrl)
  {
    assert sheet[c] == Text(BadUrl);
    BadValue();
  }

  lemma ExampleTextCell(sheet: Sheet, b: Coord)
    requires sheet == ExampleSheet && b == Coord(1, 1)
    ensures !IsUrlCell(sheet, b)
  {
    assert sheet[b] == Text("not a url");
    NotUrlValue();
  }

  /** The first row of the example: a URL, then two empty cells. */
  lemma ExampleFirstRow(sheet: Sheet, rows: seq<Coord>, a: Coord, b: Coord, c: Coord, u: string)
    requires a in sheet && CellUrl(sheet[a]) == Some(u) && b !in sheet && c !in sheet
    ensures Candidates(sheet, rows + [a, b, c]) == Candidates(sheet, rows) + [Candidate(a, u)]
  {
    CandidatesTake(sheet, rows, a, u);
    CandidatesSkip(sheet, rows + [a], b);
    CandidatesSkip(sheet, rows + [a] + [b], c);
    AppendThree(rows, a, b, c);
  }

  /** The second row of the example: no URL at all. */
  lemma ExampleSecondRow(sheet: Sheet, rows: seq<Coord>, a: Coord, b: Coord, c: Coord)
    requires !IsUrlCell(sheet, a) && !IsUrlCell(sheet, b) && !IsUrlCell(sheet, c)
    ensures Candidates(sheet, rows + [a, b, c]) == Candidates(sheet, rows)
  {
    CandidatesSkip(sheet, rows, a);
    CandidatesSkip(sheet, rows + [a], b);
    CandidatesSkip(sheet, rows + [a] + [b], c);
    AppendThree(rows, a, b, c);
  }

  /** The third row of the example: two empty cells, then a URL. */
  lemma ExampleThirdRow(sheet: Sheet, rows: seq<Coord>, a: Coord, b: Coord, c: Coord, u: string)
    requires a !in sheet && b !in sheet && c in sheet && CellUrl(sheet[c]) == Some(u)
    ensures Candidates(sheet, rows + [a, b, c]) == Candidates(sheet, rows) + [Candidate(c, u)]
  {
    CandidatesSkip(sheet, rows, a);
    CandidatesSkip(sheet, rows + [a], b);
    CandidatesTake(sheet, rows + [a] + [b], c, u);
    AppendThree(rows, a, b, c);
  }

  lemma ExampleCandidates()
    ensures Candidates(ExampleSheet, Visited(ExampleRange))
            == [Candidate(Coord(0, 0), GoodUrl), Candidate(Coord(2, 2), BadUrl)]
  {
    var sheet := ExampleSheet;
    ExampleVisited();
    var row0 := [Coord(0, 0), Coord(0, 1), Coord(0, 2)];
    var rows := row0 + [Coord(1, 0), Coord(1, 1), Coord(1, 2)];
    assert Visited(ExampleRange) == rows + [Coord(2, 0), Coord(2, 1), Coord(2, 2)];
    assert Coord(0, 1) !in sheet && Coord(0, 2) !in sheet && Coord(1, 0) !in sheet;
    assert Coord(1, 2) !in sheet && Coord(2, 0) !in sheet && Coord(2, 1) !in sheet;
    ExampleGoodCell(sheet, Coord(0, 0));
    ExampleTextCell(sheet, Coord(1, 1));
    ExampleBadCell(sheet, Coord(2, 2));
    var good := Candidate(Coord(0, 0), GoodUrl);
    var bad := Candidate(Coord(2, 2), BadUrl);
    ExampleFirstRow(sheet, [], Coord(0, 0), Coord(0, 1), Coord(0, 2), good.url);
    assert [] + row0 == row0;
    ExampleSecondRow(sheet, row0, Coord(1, 0), Coord(1, 1), Coord(1, 2));
    ExampleThirdRow(sheet, rows, Coord(2, 0), Coord(2, 1), Coord(2, 2), bad.url);
    calc {
      Candidates(sheet, Visited(ExampleRange));
      Candidates(sheet, rows) + [bad];
      Candidates(sheet, row0) + [bad];
      Candidates(sheet, []) + [good] + [bad];
      { EmptyThenTwo(Candidates(sheet, []), good, bad); }
      [good, bad];
    }
  }

  /** `checkUrl` over the example's network. */
  function ExampleProbe(u: string): Verdict {
    Probe(ExampleNetwork(u).0, ExampleNetwork(u).1)
  }

  lemma ExampleProbes()
    ensures ExampleProbe(GoodUrl) == Working
    ensures ExampleProbe(BadUrl) == Broken("Domain not found")
  {
    assert |BadUrl| == 28 && |GoodUrl| == 21;
    assert ExampleNetwork(GoodUrl) == (Answered(200), Answered(200));
  }

  /** Of a working and a broken candidate, in that order, only the broken one is recorded. */
  lemma FlaggedWorkingThenBroken(probe: string -> Verdict, good: Candidate, bad: Candidate, reason: string)
    requires probe(good.url) == Working && probe(bad.url) == Broken(reason) && reason != ""
    ensures Flagged([good, bad], probe) == [BrokenLink(bad.cell, bad.url, reason)]
  {
    FlaggedSnoc([], good, probe);
    assert [] + [good] == [good];
    FlaggedSnoc([good], bad, probe);
    assert [good] + [bad] == [good, bad];
  }

  /** The message of the example, `Found 1 broken link(s) out of 2 URLs`, piece by piece. */
  lemma ExampleSummary()
    ensures Summary(2, 1) == "Found " + ("1" + (" broken link(s) out of " + ("2" + " URLs")))
  {
    assert Decimal(1) == "1";
    assert Decimal(2) == "2";
  }

  /** Two URLs are found, the one whose domain does not resolve is reported with
      `Domain not found`, and the message says one of two is broken. */
  lemma ExampleReport()
    ensures var cands := Candidates(ExampleSheet, Visited(ExampleRange));
            |cands| == 2
            && Flagged(cands, ExampleProbe) == [BrokenLink(Coord(2, 2), BadUrl, "Domain not found")]
            && Summary(|cands|, |Flagged(cands, ExampleProbe)|)
               == "Found " + ("1" + (" broken link(s) out of " + ("2" + " URLs")))
  {
    ExampleCandidates();
    ExampleProbes();
    FlaggedWorkingThenBroken(ExampleProbe, Candidate(Coord(0, 0), GoodUrl),
                             Candidate(Coord(2, 2), BadUrl), "Domain not found");
    ExampleSummary();
  }
}
