/** The `"end"` handler of clean.js (clean.js:227-263): writes the header line
    and then one line per record, checking every converter's result and
    aborting at the first `undefined` or NaN. */
module Emit {
  import opened Wrappers
  import opened Text
  import opened Converters
  import opened Schema
  import opened Registry

  // ---------------------------------------------------------------------------
  // one cell (clean.js:250-253)
  // ---------------------------------------------------------------------------

  /** 1e21: from this magnitude on `Number.prototype.toString` switches to
      exponent notation. */
  const ExponentThreshold: real := 1000000000000000000000.0

  /** `x.toString()`: an integral number below 1e21 in magnitude prints as its
      decimal digits; any other number is left to the floating-point
      renderer. */
  function ShowNumber(x: real, num: Numerics): string
  {
    if x == x.Floor as real && -ExponentThreshold < x < ExponentThreshold then IntToString(x.Floor)
    else num.showReal(x)
  }

  /** An integer below 1e21 in magnitude prints as its decimal digits, and
      reading that text back with `parseInt` gives the integer again. */
  lemma ShowInteger(n: int, num: Numerics)
    requires -ExponentThreshold < n as real < ExponentThreshold
    ensures ShowNumber(n as real, num) == IntToString(n)
    ensures ParseInt(ShowNumber(n as real, num)) == Some(n)
  {
    ParseIntToString(n, "");
    assert IntToString(n) + "" == IntToString(n);
  }

  /** The checks the writer applies to a converter's result, then its text. */
  function Check(name: string, v: Value, rec: Record, num: Numerics): (r: Result<string, Failure>)
    ensures r.Failure? <==> v.Undefined? || v.NaN?
    ensures v.Undefined? ==> r == Failure(UndefinedResult(name, rec))
    ensures v.NaN? ==> r == Failure(NaNResult(name, rec))
  {
    match v
    case Undefined => Failure(UndefinedResult(name, rec))
    case NaN => Failure(NaNResult(name, rec))
    case Num(x) => Success(ShowNumber(x, num))
    case Bit(b) => Success(if b then "1" else "0")
  }

  /** One cell: run the converter (which may itself throw), then check. */
  function Cell(e: Entry, rec: Record, num: Numerics): Result<string, Failure>
  {
    var v :- Eval(e.conv, rec, num);
    Check(e.name, v, rec, num)
  }

  /** What each kind of converter writes, or why the writer stops: a flag
      or an indicator always writes "1" or "0"; an agreement literal writes
      its score in decimal, and any other agreement cell stops with the
      `undefined` error; a number cell writes the parsed number, "NA" writes
      "0", and a cell that does not parse stops with the NaN error; a year
      count writes the count in decimal, or throws. */
  lemma CellOutcomes(name: string, f: string, t: string, rec: Record, num: Numerics)
    ensures Cell(Entry(name, Flag(f)), rec, num) == Success(if f in rec && rec[f] == "Yes" then "1" else "0")
    ensures f in rec ==>
      Cell(Entry(name, Indicator(f, t)), rec, num) == Success(if t in Split(rec[f], MultiSeparator) then "1" else "0")
    ensures !(f in rec && rec[f] in AgreeScale) ==> Cell(Entry(name, Agree(f)), rec, num) == Failure(UndefinedResult(name, rec))
    ensures (f !in rec || (rec[f] != "NA" && num.parseFloat(rec[f]).None?)) ==>
      Cell(Entry(name, Float(f)), rec, num) == Failure(NaNResult(name, rec))
    ensures f in rec && rec[f] in AgreeScale ==>
      Cell(Entry(name, Agree(f)), rec, num) == Success(IntToString(AgreeScale[rec[f]]))
    ensures f in rec && rec[f] == "NA" ==> Cell(Entry(name, Float(f)), rec, num) == Success("0")
    ensures f in rec && rec[f] != "NA" && num.parseFloat(rec[f]).Some? ==>
      Cell(Entry(name, Float(f)), rec, num) == Success(ShowNumber(num.parseFloat(rec[f]).value, num))
    ensures f !in rec ==> Cell(Entry(name, Years(f)), rec, num) == Failure(MissingField(f))
    ensures f in rec && YearsOf(rec[f]).Failure? ==>
      Cell(Entry(name, Years(f)), rec, num) == Failure(UnexpectedNumber(rec[f]))
    ensures f in rec && YearsOf(rec[f]).Success? && -ExponentThreshold < YearsOf(rec[f]).value as real < ExponentThreshold ==>
      Cell(Entry(name, Years(f)), rec, num) == Success(IntToString(YearsOf(rec[f]).value))
  {
    if f in rec && rec[f] in AgreeScale {
      AgreeScaleOrdered();
      ShowInteger(AgreeScale[rec[f]], num);
    }
    if f in rec && YearsOf(rec[f]).Success? && -ExponentThreshold < YearsOf(rec[f]).value as real < ExponentThreshold {
      ShowInteger(YearsOf(rec[f]).value, num);
    }
  }

  /** The floating-point renderer writes neither commas nor line breaks. */
  ghost predicate PlainRenderer(num: Numerics) {
    forall x: real :: ',' !in num.showReal(x) && '\n' !in num.showReal(x)
  }

  /** No written cell holds a comma or a line break, provided the
      floating-point renderer never writes one. */
  lemma CellIsPlain(e: Entry, rec: Record, num: Numerics)
    requires PlainRenderer(num)
    requires Cell(e, rec, num).Success?
    ensures ',' !in Cell(e, rec, num).value && '\n' !in Cell(e, rec, num).value
  {
    var v := Eval(e.conv, rec, num).value;
    if v.Num? && v.x == v.x.Floor as real && -ExponentThreshold < v.x < ExponentThreshold {
      IntToStringChars(v.x.Floor);
    }
  }

  // ---------------------------------------------------------------------------
  // rows and the table
  // ---------------------------------------------------------------------------

  /** The cells of one record, one per registry entry in registry order, or
      the failure of the first entry that fails. */
  function RowCells(reg: seq<Entry>, rec: Record, num: Numerics): (r: Result<seq<string>, Failure>)
    ensures r.Success? <==> forall j :: 0 <= j < |reg| ==> Cell(reg[j], rec, num).Success?
    ensures r.Success? ==> |r.value| == |reg|
    ensures r.Success? ==> forall j :: 0 <= j < |reg| ==> r.value[j] == Cell(reg[j], rec, num).value
  {
    if |reg| == 0 then Success([])
    else
      var n := |reg| - 1;
      var init := reg[..n];
      assert forall j :: 0 <= j < n ==> init[j] == reg[j];
      match RowCells(init, rec, num)
      case Failure(e) => Failure(e)
      case Success(cells) =>
        match Cell(reg[n], rec, num)
        case Failure(e) => Failure(e)
        case Success(c) => Success(cells + [c])
  }

  /** A row that fails reports the error of its first failing cell. */
  lemma {:induction false} RowCellsFailure(reg: seq<Entry>, rec: Record, num: Numerics)
    requires RowCells(reg, rec, num).Failure?
    ensures exists j :: FirstFailingCell(reg, rec, num, j) && RowCells(reg, rec, num).error == Cell(reg[j], rec, num).error
    decreases |reg|
  {
    var n := |reg| - 1;
    var init := reg[..n];
    assert forall j :: 0 <= j < n ==> init[j] == reg[j];
    if RowCells(init, rec, num).Failure? {
      RowCellsFailure(init, rec, num);
      var j :| FirstFailingCell(init, rec, num, j) && RowCells(init, rec, num).error == Cell(init[j], rec, num).error;
      assert FirstFailingCell(reg, rec, num, j);
    } else {
      assert FirstFailingCell(reg, rec, num, n);
    }
  }

  /** Cell `j` is the first one of the row that fails. */
  predicate FirstFailingCell(reg: seq<Entry>, rec: Record, num: Numerics, j: int) {
    && 0 <= j < |reg|
    && Cell(reg[j], rec, num).Failure?
    && forall k :: 0 <= k < j ==> Cell(reg[k], rec, num).Success?
  }

  /** The values of a run of results, or the first failure among them. */
  function Collect<T>(rs: seq<Result<T, Failure>>): (r: Result<seq<T>, Failure>)
    ensures r.Success? <==> forall i :: 0 <= i < |rs| ==> rs[i].Success?
    ensures r.Success? ==> |r.value| == |rs|
    ensures r.Success? ==> forall i :: 0 <= i < |rs| ==> r.value[i] == rs[i].value
  {
    if |rs| == 0 then Success([])
    else
      var n := |rs| - 1;
      assert forall i :: 0 <= i < n ==> rs[..n][i] == rs[i];
      match Collect(rs[..n])
      case Failure(e) => Failure(e)
      case Success(vs) =>
        match rs[n]
        case Failure(e) => Failure(e)
        case Success(v) => Success(vs + [v])
  }

  /** Each record's row, in input order. */
  function Rows(reg: seq<Entry>, inputs: seq<Record>, num: Numerics): (rows: seq<Result<seq<string>, Failure>>)
    ensures |rows| == |inputs|
    ensures forall i :: 0 <= i < |inputs| ==> rows[i] == RowCells(reg, inputs[i], num)
  {
    seq(|inputs|, i requires 0 <= i < |inputs| => RowCells(reg, inputs[i], num))
  }

  /** The cells of every record, in input order, or the first failure in
      reading order. */
  function Table(reg: seq<Entry>, inputs: seq<Record>, num: Numerics): (r: Result<seq<seq<string>>, Failure>)
    ensures r.Success? <==> forall i :: 0 <= i < |inputs| ==> RowCells(reg, inputs[i], num).Success?
    ensures r.Success? ==> |r.value| == |inputs|
    ensures r.Success? ==> forall i :: 0 <= i < |inputs| ==> r.value[i] == RowCells(reg, inputs[i], num).value
  {
    Collect(Rows(reg, inputs, num))
  }

  lemma CollectSnoc<T>(rs: seq<Result<T, Failure>>, x: Result<T, Failure>)
    requires Collect(rs).Success? && x.Success?
    ensures Collect(rs + [x]) == Success(Collect(rs).value + [x.value])
  {
    assert (rs + [x])[..|rs|] == rs;
  }

  lemma RowsSnoc(reg: seq<Entry>, inputs: seq<Record>, i: nat, num: Numerics)
    requires i < |inputs|
    ensures Rows(reg, inputs[..i + 1], num) == Rows(reg, inputs[..i], num) + [RowCells(reg, inputs[i], num)]
  {
    var a := Rows(reg, inputs[..i + 1], num);
    var b := Rows(reg, inputs[..i], num) + [RowCells(reg, inputs[i], num)];
    assert |a| == |b|;
    forall k | 0 <= k < |a|
      ensures a[k] == b[k]
    {
      if k < i {
        assert inputs[..i + 1][k] == inputs[..i][k];
      }
    }
  }

  /** One more converting record extends the table by its row. */
  lemma TableSnoc(reg: seq<Entry>, inputs: seq<Record>, i: nat, num: Numerics)
    requires i < |inputs|
    requires Table(reg, inputs[..i], num).Success?
    requires RowCells(reg, inputs[i], num).Success?
    ensures Table(reg, inputs[..i + 1], num).Success?
    ensures Table(reg, inputs[..i + 1], num).value == Table(reg, inputs[..i], num).value + [RowCells(reg, inputs[i], num).value]
  {
    RowsSnoc(reg, inputs, i, num);
    CollectSnoc(Rows(reg, inputs[..i], num), RowCells(reg, inputs[i], num));
  }

  /** One written line: the cells joined by commas, then a newline. */
  function Line(cells: seq<string>): string
  {
    Join(cells, ",") + "\n"
  }

  /** The written lines of a table, one after another. */
  function Body(rows: seq<seq<string>>): string
  {
    if |rows| == 0 then "" else Body(rows[..|rows| - 1]) + Line(rows[|rows| - 1])
  }

  lemma BodySnoc(rows: seq<seq<string>>, row: seq<string>)
    ensures Body(rows + [row]) == Body(rows) + Line(row)
  {
    assert (rows + [row])[..|rows|] == rows;
  }

  /** A body holds one line break per row, given cells without line
      breaks. */
  lemma {:induction false} BodyLineCount(rows: seq<seq<string>>)
    requires forall i, j :: 0 <= i < |rows| && 0 <= j < |rows[i]| ==> '\n' !in rows[i][j]
    ensures Count(Body(rows), '\n') == |rows|
    decreases |rows|
  {
    if |rows| > 0 {
      var n := |rows| - 1;
      var init := rows[..n];
      BodyLineCount(init);
      JoinAbsent(rows[n], ",", '\n');
      CountAbsent(Join(rows[n], ","), '\n');
      CountAppend(Join(rows[n], ","), "\n", '\n');
      CountAppend(Body(init), Line(rows[n]), '\n');
    }
  }

  /** A converted table writes one line per record, in input order, each line
      holding the cells of its record. */
  lemma TableLines(reg: seq<Entry>, inputs: seq<Record>, num: Numerics)
    requires PlainRenderer(num)
    requires Table(reg, inputs, num).Success?
    ensures Count(Body(Table(reg, inputs, num).value), '\n') == |inputs|
    ensures forall i :: 0 <= i < |inputs| ==> Table(reg, inputs, num).value[i] == RowCells(reg, inputs[i], num).value
  {
    var rows := Table(reg, inputs, num).value;
    forall i, j | 0 <= i < |rows| && 0 <= j < |rows[i]|
      ensures '\n' !in rows[i][j]
    {
      CellIsPlain(reg[j], inputs[i], num);
    }
    BodyLineCount(rows);
  }

  /** What the writer has put down for a row when a cell fails: the cells
      before it, each after a comma but the first, and the comma written before
      the failing cell was computed. */
  function Partial(cells: seq<string>): string
  {
    Join(cells, ",") + (if |cells| > 0 then "," else "")
  }

  /** A written row has one cell per converter: it holds one comma fewer than
      there are converters, and splitting it on commas gives back its cells. */
  lemma RowShape(reg: seq<Entry>, rec: Record, num: Numerics)
    requires PlainRenderer(num)
    requires RowCells(reg, rec, num).Success?
    requires |reg| >= 1
    ensures var cells := RowCells(reg, rec, num).value;
      && Count(Join(cells, ","), ',') == |reg| - 1
      && Split(Join(cells, ","), ",") == cells
  {
    var cells := RowCells(reg, rec, num).value;
    forall j | 0 <= j < |cells|
      ensures ',' !in cells[j]
    {
      CellIsPlain(reg[j], rec, num);
    }
    JoinCount(cells, ',');
    SplitJoin(cells, ",");
  }

  // ---------------------------------------------------------------------------
  // the header (clean.js:233-243)
  // ---------------------------------------------------------------------------

  /** The header's column names: registry names, commas turned into periods. */
  function HeaderNames(reg: seq<Entry>): (hs: seq<string>)
    ensures |hs| == |reg|
    ensures forall i :: 0 <= i < |reg| ==> hs[i] == ReplaceCommas(reg[i].name)
  {
    seq(|reg|, i requires 0 <= i < |reg| => ReplaceCommas(reg[i].name))
  }

  function HeaderLine(reg: seq<Entry>): string
  {
    Join(HeaderNames(reg), ",") + "\n"
  }

  /** The header ends in a newline, holds exactly one comma fewer than there
      are converters, and splitting it on commas gives back the renamed
      converter names in registry order. */
  lemma HeaderShape(reg: seq<Entry>)
    requires |reg| >= 1
    ensures var h := HeaderLine(reg);
      && h[|h| - 1] == '\n'
      && Count(h[..|h| - 1], ',') == |reg| - 1
      && Split(h[..|h| - 1], ",") == HeaderNames(reg)
  {
    var h := HeaderLine(reg);
    var names := HeaderNames(reg);
    assert h[..|h| - 1] == Join(names, ",");
    assert forall i :: 0 <= i < |names| ==> ',' !in names[i];
    JoinCount(names, ',');
    SplitJoin(names, ",");
  }

  // ---------------------------------------------------------------------------
  // the writer
  // ---------------------------------------------------------------------------

  /** The row `k` and cell `j` where writing stops: every earlier row
      converts, and `j` is the first failing cell of row `k`. */
  predicate StopsAt(reg: seq<Entry>, inputs: seq<Record>, num: Numerics, k: int, j: int) {
    && 0 <= k < |inputs|
    && Table(reg, inputs[..k], num).Success?
    && FirstFailingCell(reg, inputs[k], num, j)
  }

  /** The header loop: every renamed name, a comma before each but the
      first. */
  method WriteHeader(reg: Registry) returns (written: string)
    ensures written + "\n" == HeaderLine(reg)
  {
    written := "";
    var h := 0;
    while h < |reg|
      invariant h <= |reg|
      invariant written == Join(HeaderNames(reg)[..h], ",")
    {
      if h > 0 {
        written := written + ",";
        JoinSnoc(HeaderNames(reg)[..h], ReplaceCommas(reg[h].name), ",");
      }
      written := written + ReplaceCommas(reg[h].name);
      assert HeaderNames(reg)[..h + 1] == HeaderNames(reg)[..h] + [ReplaceCommas(reg[h].name)];
      h := h + 1;
    }
    assert HeaderNames(reg)[..h] == HeaderNames(reg);
  }

  /** The inner row loop: a comma before each cell but the first, then the
      cell, stopping at the first cell that fails. */
  method WriteRow(reg: Registry, rec: Record, num: Numerics)
    returns (written: string, failure: Option<Failure>, ghost stop: nat)
    ensures failure.None? <==> RowCells(reg, rec, num).Success?
    ensures failure.None? ==> written == Join(RowCells(reg, rec, num).value, ",")
    ensures failure.Some? ==> FirstFailingCell(reg, rec, num, stop)
    ensures failure.Some? ==> failure.value == Cell(reg[stop], rec, num).error
    ensures failure.Some? ==> written == Partial(RowCells(reg[..stop], rec, num).value)
  {
    written := "";
    stop := 0;
    var j := 0;
    assert reg[..0] == [];
    while j < |reg|
      invariant j <= |reg|
      invariant RowCells(reg[..j], rec, num).Success?
      invariant written == Join(RowCells(reg[..j], rec, num).value, ",")
    {
      ghost var cells := RowCells(reg[..j], rec, num).value;
      if j > 0 {
        written := written + ",";
      }
      var transformed := Cell(reg[j], rec, num);
      if transformed.Failure? {
        failure := Some(transformed.error);
        stop := j;
        CellsStop(reg, rec, num, j);
        return;
      }
      CellsStep(reg, rec, num, j);
      if j > 0 {
        JoinSnoc(cells, transformed.value, ",");
      }
      written := written + transformed.value;
      j := j + 1;
    }
    WholeRow(reg, rec, num, j);
    failure := None;
  }

  /** The cell loop's end: the prefix converted so far is the whole
      registry. */
  lemma WholeRow(reg: seq<Entry>, rec: Record, num: Numerics, j: nat)
    requires j == |reg|
    ensures RowCells(reg[..j], rec, num) == RowCells(reg, rec, num)
  {
    assert reg[..j] == reg;
  }

  /** The cell loop's step: a converting cell extends the row. */
  lemma CellsStep(reg: seq<Entry>, rec: Record, num: Numerics, j: nat)
    requires j < |reg|
    requires RowCells(reg[..j], rec, num).Success?
    requires Cell(reg[j], rec, num).Success?
    ensures RowCells(reg[..j + 1], rec, num) == Success(RowCells(reg[..j], rec, num).value + [Cell(reg[j], rec, num).value])
  {
    assert reg[..j + 1][..j] == reg[..j];
  }

  /** The cell loop's exit: the first failing cell fails the row. */
  lemma CellsStop(reg: seq<Entry>, rec: Record, num: Numerics, j: nat)
    requires j < |reg|
    requires RowCells(reg[..j], rec, num).Success?
    requires Cell(reg[j], rec, num).Failure?
    ensures FirstFailingCell(reg, rec, num, j)
    ensures RowCells(reg, rec, num).Failure?
  {
    assert forall k :: 0 <= k < j ==> reg[..j][k] == reg[k];
  }

  /** A record whose row fails makes the whole table fail. */
  lemma TableFailsAt(reg: seq<Entry>, inputs: seq<Record>, i: nat, num: Numerics)
    requires i < |inputs|
    requires RowCells(reg, inputs[i], num).Failure?
    ensures Table(reg, inputs, num).Failure?
  {
  }

  /** The outer row loop: each record's line in input order, stopping inside
      the row of the first cell that fails. */
  method WriteRows(reg: Registry, inputs: seq<Record>, num: Numerics)
    returns (written: string, failure: Option<Failure>, ghost k: nat, ghost j: nat)
    ensures failure.None? <==> Table(reg, inputs, num).Success?
    ensures failure.None? ==> written == Body(Table(reg, inputs, num).value)
    ensures failure.Some? ==> Stopped(reg, inputs, num, k, j, written, failure.value)
  {
    written := "";
    k, j := 0, 0;
    var i := 0;
    assert inputs[..0] == [];
    while i < |inputs|
      invariant i <= |inputs|
      invariant Table(reg, inputs[..i], num).Success?
      invariant written == Body(Table(reg, inputs[..i], num).value)
    {
      var row, rowFailure;
      ghost var stop;
      row, rowFailure, stop := WriteRow(reg, inputs[i], num);
      if rowFailure.Some? {
        k, j := i, stop;
        RowsStop(reg, inputs, num, i, j, written, row, rowFailure.value);
        written := written + row;
        failure := rowFailure;
        return;
      }
      RowsStep(reg, inputs, num, i, written, row);
      written := written + row + "\n";
      i := i + 1;
    }
    WholeTable(reg, inputs, num, i);
    failure := None;
  }

  /** The record loop's end: the prefix read so far is the whole input. */
  lemma WholeTable(reg: seq<Entry>, inputs: seq<Record>, num: Numerics, i: nat)
    requires i == |inputs|
    ensures Table(reg, inputs[..i], num) == Table(reg, inputs, num)
  {
    assert inputs[..i] == inputs;
  }

  /** The record loop's step: a converting record appends its line. */
  lemma RowsStep(reg: seq<Entry>, inputs: seq<Record>, num: Numerics, i: nat, written: string, row: string)
    requires i < |inputs|
    requires Table(reg, inputs[..i], num).Success?
    requires written == Body(Table(reg, inputs[..i], num).value)
    requires RowCells(reg, inputs[i], num).Success?
    requires row == Join(RowCells(reg, inputs[i], num).value, ",")
    ensures Table(reg, inputs[..i + 1], num).Success?
    ensures written + row + "\n" == Body(Table(reg, inputs[..i + 1], num).value)
  {
    TableSnoc(reg, inputs, i, num);
    BodySnoc(Table(reg, inputs[..i], num).value, RowCells(reg, inputs[i], num).value);
  }

  /** Writing stopped at cell `j` of record `k` with error `e`, after
      writing `written`: every earlier record's line, then the cells of record
      `k` before `j`, each followed by a comma. */
  ghost predicate Stopped(reg: seq<Entry>, inputs: seq<Record>, num: Numerics, k: int, j: int, written: string, e: Failure) {
    && StopsAt(reg, inputs, num, k, j)
    && e == Cell(reg[j], inputs[k], num).error
    && written == Body(Table(reg, inputs[..k], num).value) + Partial(RowCells(reg[..j], inputs[k], num).value)
  }

  /** The record loop's exit on a failing record. */
  lemma RowsStop(reg: seq<Entry>, inputs: seq<Record>, num: Numerics, i: nat, j: int, before: string, row: string, e: Failure)
    requires i < |inputs|
    requires Table(reg, inputs[..i], num).Success?
    requires before == Body(Table(reg, inputs[..i], num).value)
    requires FirstFailingCell(reg, inputs[i], num, j)
    requires e == Cell(reg[j], inputs[i], num).error
    requires row == Partial(RowCells(reg[..j], inputs[i], num).value)
    ensures Table(reg, inputs, num).Failure?
    ensures Stopped(reg, inputs, num, i, j, before + row, e)
  {
    TableFailsAt(reg, inputs, i, num);
  }

  /** Appending text is associative. */
  lemma Concat3(a: string, b: string, c: string)
    ensures a + (b + c) == a + b + c
  {
  }

  /** The loops of the `"end"` handler: the header, then each record's cells in
      registry order. Returns everything written, and what was thrown if
      writing stopped early. */
  method Emit(reg: Registry, inputs: seq<Record>, num: Numerics) returns (written: string, failure: Option<Failure>)
    ensures failure.None? <==> Table(reg, inputs, num).Success?
    ensures failure.None? ==> written == HeaderLine(reg) + Body(Table(reg, inputs, num).value)
    ensures failure.Some? ==> exists k, j :: (StopsAt(reg, inputs, num, k, j)
      && failure.value == Cell(reg[j], inputs[k], num).error
      && written == HeaderLine(reg) + Body(Table(reg, inputs[..k], num).value)
                    + Partial(RowCells(reg[..j], inputs[k], num).value))
  {
    var header := WriteHeader(reg);
    var rows;
    ghost var k, j;
    rows, failure, k, j := WriteRows(reg, inputs, num);
    written := header + "\n" + rows;
    ghost var h := HeaderLine(reg);
    assert written == h + rows;
    if failure.Some? {
      assert Stopped(reg, inputs, num, k, j, rows, failure.value);
      Concat3(h, Body(Table(reg, inputs[..k], num).value), Partial(RowCells(reg[..j], inputs[k], num).value));
    }
  }

  /** The `"end"` handler: build the converters, then write. A failure while
      building throws before the output file is opened, so nothing is
      written; otherwise the output is that of `Emit`, including the point at
      which writing stops. */
  method Clean(s: Schema, inputs: seq<Record>, num: Numerics) returns (written: string, failure: Option<Failure>)
    ensures Build(s, inputs).Failure? ==> written == "" && failure == Some(Build(s, inputs).error)
    ensures Build(s, inputs).Success? ==> var reg := Build(s, inputs).value;
      && (failure.None? <==> Table(reg, inputs, num).Success?)
      && (failure.None? ==> written == HeaderLine(reg) + Body(Table(reg, inputs, num).value))
      && (failure.Some? ==> exists k, j :: (StopsAt(reg, inputs, num, k, j)
            && failure.value == Cell(reg[j], inputs[k], num).error
            && written == HeaderLine(reg) + Body(Table(reg, inputs[..k], num).value)
                          + Partial(RowCells(reg[..j], inputs[k], num).value)))
  {
    var built := Build(s, inputs);
    if built.Failure? {
      return "", Some(built.error);
    }
    written, failure := Emit(built.value, inputs, num);
  }
}
