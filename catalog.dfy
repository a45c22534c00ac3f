/**
 * The rate catalog loader (`load_data`): the header names are stripped, each
 * of the four money columns has its '$' and ',' removed and is read as a
 * number (a blank cell stays NaN, any other unreadable text aborts the load),
 * and the College and Program columns are stripped.
 */
module Catalog {
  import opened Wrappers
  import opened Text
  import opened Money

  /**
   * The table as the CSV reader hands it over: the header names and one
   * column of cells per name. `None` is an empty cell, which the reader has
   * already turned into NaN.
   */
  datatype RawTable = RawTable(header: seq<string>, columns: seq<seq<Option<string>>>)

  function Height(t: RawTable): nat {
    if |t.columns| == 0 then 0 else |t.columns[0]|
  }

  /** One column per header name, all of the same height. */
  predicate Rectangular(t: RawTable) {
    |t.columns| == |t.header| && forall j :: 0 <= j < |t.columns| ==> |t.columns[j]| == Height(t)
  }

  /** One loaded row; a `None` text is a missing cell, a `None` amount is NaN. */
  datatype Record = Record(
    college: Option<string>,
    program: Option<string>,
    perCredit: Option<real>,
    tuition18: Option<real>,
    fees: Option<real>,
    living: Option<real>)

  /** Why a load aborts: a required column is absent (`KeyError`), or a money cell is not a number (`ValueError`). */
  datatype LoadError = MissingColumn(name: string) | NotANumber(column: string, text: string)

  /** The money columns, in the order the loader converts them. */
  const MONEY_COLUMNS: seq<string> := ["Per Credit", "Tuition for 18 Credits", "Fees", "Living Expenses"]

  /** Every column the loader touches, in the order it touches them. */
  const REQUIRED_COLUMNS: seq<string> := MONEY_COLUMNS + ["College", "Program"]

  /** The header after `df.columns.str.strip()`. */
  function StripNames(header: seq<string>): (r: seq<string>)
    ensures |r| == |header|
    ensures forall j :: 0 <= j < |r| ==> IsTrimmed(r[j])
    ensures forall j :: 0 <= j < |r| && IsTrimmed(header[j]) ==> r[j] == header[j]
  {
    var r := seq(|header|, j requires 0 <= j < |header| => Trim(header[j]));
    assert forall j :: 0 <= j < |r| && IsTrimmed(header[j]) ==> r[j] == header[j] by {
      forall j | 0 <= j < |r| && IsTrimmed(header[j]) {
        TrimTrimmed(header[j]);
      }
    }
    r
  }

  /** Cell `i` is the first one of the column that is not a number. */
  predicate FirstBadCell(cells: seq<Option<string>>, i: int) {
    0 <= i < |cells| && ParseCell(cells[i]).Failure?
    && forall j :: 0 <= j < i ==> ParseCell(cells[j]).Success?
  }

  /**
   * `replace('[\$,]', '').astype(float)` on one column: every cell read, or
   * the cleaned text of the first cell that is not a number.
   */
  function ParseColumn(cells: seq<Option<string>>): (r: Result<seq<Option<real>>, string>)
    ensures r.Success? <==> forall i :: 0 <= i < |cells| ==> ParseCell(cells[i]).Success?
    ensures r.Success? ==> |r.value| == |cells|
                           && forall i :: 0 <= i < |cells| ==> ParseCell(cells[i]) == Success(r.value[i])
    ensures r.Failure? ==> exists i :: FirstBadCell(cells, i) && ParseCell(cells[i]).error == r.error
  {
    if cells == [] then Success([])
    else match ParseCell(cells[0])
      case Failure(e) =>
        assert FirstBadCell(cells, 0);
        Failure(e)
      case Success(v) =>
        match ParseColumn(cells[1..])
        case Failure(e) =>
          FirstBadShift(cells, e);
          Failure(e)
        case Success(vs) =>
          Success([v] + vs)
  }

  /** A first bad cell after a readable head cell is the first bad cell of the whole column. */
  lemma FirstBadShift(cells: seq<Option<string>>, e: string)
    requires 0 < |cells| && ParseCell(cells[0]).Success?
    requires exists i :: FirstBadCell(cells[1..], i) && ParseCell(cells[1..][i]).error == e
    ensures exists i :: FirstBadCell(cells, i) && ParseCell(cells[i]).error == e
  {
    var tail := cells[1..];
    var i :| FirstBadCell(tail, i) && ParseCell(tail[i]).error == e;
    assert cells[i + 1] == tail[i];
    assert forall j :: 0 < j <= i ==> cells[j] == tail[j - 1];
    assert FirstBadCell(cells, i + 1);
  }

  /** Column `name` is present and every one of its cells reads as a number or is blank. */
  predicate ColumnReads(names: seq<string>, columns: seq<seq<Option<string>>>, name: string)
    requires |names| == |columns|
  {
    name in names && ParseColumn(columns[IndexOf(names, name).value]).Success?
  }

  /**
   * The `for col in numeric_cols` loop run over `wanted`: the converted
   * columns in order, or the error of the first column that is missing or
   * holds a non-number.
   */
  function ConvertMoney(names: seq<string>, columns: seq<seq<Option<string>>>, wanted: seq<string>)
    : (r: Result<seq<seq<Option<real>>>, LoadError>)
    requires |names| == |columns|
    ensures r.Success? ==> |r.value| == |wanted|
    ensures r.Success? <==> forall j :: 0 <= j < |wanted| ==> ColumnReads(names, columns, wanted[j])
    ensures r.Success? ==> forall j :: 0 <= j < |wanted| ==>
              Success(r.value[j]) == ParseColumn(columns[IndexOf(names, wanted[j]).value])
    decreases |wanted|
  {
    if wanted == [] then Success([])
    else
      var last := wanted[|wanted| - 1];
      var init := wanted[..|wanted| - 1];
      assert forall j :: 0 <= j < |init| ==> init[j] == wanted[j];
      match ConvertMoney(names, columns, init)
      case Failure(e) => Failure(e)
      case Success(done) =>
        match IndexOf(names, last)
        case None => Failure(MissingColumn(last))
        case Some(k) =>
          match ParseColumn(columns[k])
          case Failure(text) => Failure(NotANumber(last, text))
          case Success(values) => Success(done + [values])
  }

  /** Columns of equal height convert to columns of that height. */
  lemma {:induction false} ConvertedHeight(names: seq<string>, columns: seq<seq<Option<string>>>,
                                          wanted: seq<string>, h: nat)
    requires |names| == |columns| && forall k :: 0 <= k < |columns| ==> |columns[k]| == h
    requires ConvertMoney(names, columns, wanted).Success?
    ensures forall j :: 0 <= j < |wanted| ==> |ConvertMoney(names, columns, wanted).value[j]| == h
    decreases |wanted|
  {
    if wanted != [] {
      ConvertedHeight(names, columns, wanted[..|wanted| - 1], h);
    }
  }

  /** One more turn of the loop over `wanted`: the outcome for the first `n + 1` names. */
  lemma ConvertStep(names: seq<string>, columns: seq<seq<Option<string>>>,
                    wanted: seq<string>, n: nat, money: seq<seq<Option<real>>>)
    requires |names| == |columns| && n < |wanted|
    requires ConvertMoney(names, columns, wanted[..n]) == Success(money)
    ensures IndexOf(names, wanted[n]).None? ==>
              ConvertMoney(names, columns, wanted[..n + 1]) == Failure(MissingColumn(wanted[n]))
    ensures IndexOf(names, wanted[n]).Some? ==>
              var k := IndexOf(names, wanted[n]).value;
              ConvertMoney(names, columns, wanted[..n + 1])
              == match ParseColumn(columns[k])
                 case Failure(text) => Failure(NotANumber(wanted[n], text))
                 case Success(values) => Success(money + [values])
  {
    assert wanted[..n + 1][..n] == wanted[..n];
  }

  /** Once a prefix of the loop has failed, the whole loop fails the same way. */
  lemma {:induction false} ConvertStops(names: seq<string>, columns: seq<seq<Option<string>>>,
                                       wanted: seq<string>, n: nat)
    requires |names| == |columns| && n <= |wanted|
    requires ConvertMoney(names, columns, wanted[..n]).Failure?
    ensures ConvertMoney(names, columns, wanted) == ConvertMoney(names, columns, wanted[..n])
    decreases |wanted| - n
  {
    if n < |wanted| {
      var init := wanted[..|wanted| - 1];
      assert init[..n] == wanted[..n];
      ConvertStops(names, columns, init, n);
    } else {
      assert wanted[..n] == wanted;
    }
  }

  /** `.str.strip()` on a text column: blank cells stay blank. */
  function StripCells(cells: seq<Option<string>>): (r: seq<Option<string>>)
    ensures |r| == |cells|
    ensures forall i :: 0 <= i < |cells| ==> (r[i].Some? <==> cells[i].Some?)
    ensures forall i :: 0 <= i < |cells| && cells[i].Some? ==> r[i].value == Trim(cells[i].value)
    ensures TrimmedCells(r)
  {
    seq(|cells|, i requires 0 <= i < |cells| =>
      match cells[i]
      case None => None
      case Some(s) => Some(Trim(s)))
  }

  /** The rows of the loaded frame. */
  function Rows(colleges: seq<Option<string>>, programs: seq<Option<string>>, money: seq<seq<Option<real>>>)
    : seq<Record>
    requires |programs| == |colleges| && |money| == 4
    requires forall j :: 0 <= j < 4 ==> |money[j]| == |colleges|
  {
    seq(|colleges|, i requires 0 <= i < |colleges| =>
      Record(colleges[i], programs[i], money[0][i], money[1][i], money[2][i], money[3][i]))
  }

  /** Every text present in the column is already stripped. */
  predicate TrimmedCells(cells: seq<Option<string>>) {
    forall i :: 0 <= i < |cells| && cells[i].Some? ==> IsTrimmed(cells[i].value)
  }

  /** Every College and Program text is already stripped. */
  predicate Normalized(cat: seq<Record>) {
    forall i :: 0 <= i < |cat| ==>
      (cat[i].college.Some? ==> IsTrimmed(cat[i].college.value))
      && (cat[i].program.Some? ==> IsTrimmed(cat[i].program.value))
  }

  /** Rows built from stripped text columns are normalized. */
  lemma RowsNormalized(colleges: seq<Option<string>>, programs: seq<Option<string>>,
                       money: seq<seq<Option<real>>>)
    requires |programs| == |colleges| && |money| == 4
    requires forall j :: 0 <= j < 4 ==> |money[j]| == |colleges|
    requires TrimmedCells(colleges) && TrimmedCells(programs)
    ensures |Rows(colleges, programs, money)| == |colleges| && Normalized(Rows(colleges, programs, money))
  {
  }

  /** `load_data` from the table the reader produced to the catalog rows, or the error that aborts it. */
  function Load(t: RawTable): (r: Result<seq<Record>, LoadError>)
    requires Rectangular(t)
    ensures r.Success? ==> |r.value| == Height(t) && Normalized(r.value)
  {
    var names := StripNames(t.header);
    match ConvertMoney(names, t.columns, MONEY_COLUMNS)
    case Failure(e) => Failure(e)
    case Success(money) =>
      match IndexOf(names, "College")
      case None => Failure(MissingColumn("College"))
      case Some(c) =>
        match IndexOf(names, "Program")
        case None => Failure(MissingColumn("Program"))
        case Some(p) =>
          ConvertedHeight(names, t.columns, MONEY_COLUMNS, Height(t));
          var colleges := StripCells(t.columns[c]);
          var programs := StripCells(t.columns[p]);
          RowsNormalized(colleges, programs, money);
          Success(Rows(colleges, programs, money))
  }

  /**
   * The `for col in numeric_cols` loop: each listed column is looked up and
   * converted in turn, and the first one that is missing or holds a
   * non-number aborts the load.
   */
  method ConvertColumns(names: seq<string>, columns: seq<seq<Option<string>>>, wanted: seq<string>)
    returns (r: Result<seq<seq<Option<real>>>, LoadError>)
    requires |names| == |columns|
    ensures r == ConvertMoney(names, columns, wanted)
  {
    var money: seq<seq<Option<real>>> := [];
    for i := 0 to |wanted|
      invariant ConvertMoney(names, columns, wanted[..i]) == Success(money)
    {
      var col := wanted[i];
      ConvertStep(names, columns, wanted, i, money);
      var k := IndexOf(names, col);
      if k.None? {
        ConvertStops(names, columns, wanted, i + 1);
        return Failure(MissingColumn(col));
      }
      var values := ParseColumn(columns[k.value]);
      if values.Failure? {
        ConvertStops(names, columns, wanted, i + 1);
        return Failure(NotANumber(col, values.error));
      }
      money := money + [values.value];
    }
    assert wanted[..|wanted|] == wanted;
    r := Success(money);
  }

  /**
   * The loading step as the source runs it: the header is stripped, the
   * money columns are converted, then College and Program are stripped.
   */
  method LoadData(t: RawTable) returns (r: Result<seq<Record>, LoadError>)
    requires Rectangular(t)
    ensures r == Load(t)
  {
    var names := StripNames(t.header);
    var converted := ConvertColumns(names, t.columns, MONEY_COLUMNS);
    if converted.Failure? {
      return Failure(converted.error);
    }
    var money := converted.value;
    ConvertedHeight(names, t.columns, MONEY_COLUMNS, Height(t));
    var c := IndexOf(names, "College");
    if c.None? {
      return Failure(MissingColumn("College"));
    }
    var p := IndexOf(names, "Program");
    if p.None? {
      return Failure(MissingColumn("Program"));
    }
    var colleges := StripCells(t.columns[c.value]);
    var programs := StripCells(t.columns[p.value]);
    r := Success(Rows(colleges, programs, money));
  }

  /** The stripped header names every column the loader touches, and each money column reads. */
  predicate Loadable(t: RawTable)
    requires Rectangular(t)
  {
    var names := StripNames(t.header);
    (forall j :: 0 <= j < |MONEY_COLUMNS| ==> ColumnReads(names, t.columns, MONEY_COLUMNS[j]))
    && "College" in names && "Program" in names
  }

  /** The load succeeds exactly when the table is loadable. */
  lemma LoadSucceedsIff(t: RawTable)
    requires Rectangular(t)
    ensures Load(t).Success? <==> Loadable(t)
  {
  }

  /** Column `wanted[j]` is the first of `wanted` that is missing or holds a non-number. */
  predicate FirstUnreadable(names: seq<string>, columns: seq<seq<Option<string>>>, wanted: seq<string>, j: int)
    requires |names| == |columns|
  {
    0 <= j < |wanted| && !ColumnReads(names, columns, wanted[j])
    && forall j' :: 0 <= j' < j ==> ColumnReads(names, columns, wanted[j'])
  }

  /** The error a column that does not read raises: `KeyError` when absent, `ValueError` otherwise. */
  function ColumnError(names: seq<string>, columns: seq<seq<Option<string>>>, name: string): LoadError
    requires |names| == |columns| && !ColumnReads(names, columns, name)
  {
    if name !in names then MissingColumn(name)
    else NotANumber(name, ParseColumn(columns[IndexOf(names, name).value]).error)
  }

  /** A failed conversion reports the first column, in loop order, that does not read. */
  lemma {:induction false} ConvertFailure(names: seq<string>, columns: seq<seq<Option<string>>>, wanted: seq<string>)
    requires |names| == |columns|
    requires ConvertMoney(names, columns, wanted).Failure?
    ensures exists j :: FirstUnreadable(names, columns, wanted, j)
                        && ConvertMoney(names, columns, wanted).error == ColumnError(names, columns, wanted[j])
    decreases |wanted|
  {
    var init := wanted[..|wanted| - 1];
    assert forall j :: 0 <= j < |init| ==> init[j] == wanted[j];
    if ConvertMoney(names, columns, init).Failure? {
      ConvertFailure(names, columns, init);
      var j :| FirstUnreadable(names, columns, init, j)
               && ConvertMoney(names, columns, init).error == ColumnError(names, columns, init[j]);
      assert FirstUnreadable(names, columns, wanted, j);
    } else {
      assert FirstUnreadable(names, columns, wanted, |wanted| - 1);
    }
  }

  /**
   * What a failed load reports: the first money column that is missing or
   * holds a non-number, or else the first of College and Program that is
   * missing.
   */
  lemma LoadFailure(t: RawTable)
    requires Rectangular(t) && Load(t).Failure?
    ensures var names := StripNames(t.header);
            (exists j :: FirstUnreadable(names, t.columns, MONEY_COLUMNS, j)
                         && Load(t).error == ColumnError(names, t.columns, MONEY_COLUMNS[j]))
            || ((forall j :: 0 <= j < |MONEY_COLUMNS| ==> ColumnReads(names, t.columns, MONEY_COLUMNS[j]))
                && Load(t).error == MissingColumn(if "College" !in names then "College" else "Program"))
  {
    var names := StripNames(t.header);
    if ConvertMoney(names, t.columns, MONEY_COLUMNS).Failure? {
      ConvertFailure(names, t.columns, MONEY_COLUMNS);
    }
  }

  /** Cell `i` of column `name` as the reader produced it. */
  function Cell(t: RawTable, name: string, i: int): Option<string>
    requires Rectangular(t) && name in StripNames(t.header) && 0 <= i < Height(t)
  {
    t.columns[IndexOf(StripNames(t.header), name).value][i]
  }

  /** The amount a record holds for money column `j`, in the order of MONEY_COLUMNS. */
  function MoneyField(rec: Record, j: int): Option<real>
    requires 0 <= j < |MONEY_COLUMNS|
  {
    if j == 0 then rec.perCredit
    else if j == 1 then rec.tuition18
    else if j == 2 then rec.fees
    else rec.living
  }

  /** Every cell of a converted column reads as the converted value. */
  lemma ConvertedCell(names: seq<string>, columns: seq<seq<Option<string>>>, wanted: seq<string>, j: int, i: int)
    requires |names| == |columns| && ConvertMoney(names, columns, wanted).Success? && 0 <= j < |wanted|
    requires 0 <= i < |columns[IndexOf(names, wanted[j]).value]|
    ensures ParseCell(columns[IndexOf(names, wanted[j]).value][i])
            == Success(ConvertMoney(names, columns, wanted).value[j][i])
  {
    assert ColumnReads(names, columns, wanted[j]);
  }

  /** A loaded table has all six columns. */
  lemma LoadedHeader(t: RawTable)
    requires Rectangular(t) && Load(t).Success?
    ensures forall name :: name in REQUIRED_COLUMNS ==> name in StripNames(t.header)
  {
    var names := StripNames(t.header);
    assert forall j :: 0 <= j < |MONEY_COLUMNS| ==> ColumnReads(names, t.columns, MONEY_COLUMNS[j]);
    assert forall j :: 0 <= j < |REQUIRED_COLUMNS| ==> REQUIRED_COLUMNS[j] in names;
  }

  /** Row `i` of a loaded catalog has the stripped College and Program cells; a blank cell stays blank. */
  lemma LoadedText(t: RawTable, i: int)
    requires Rectangular(t) && Load(t).Success? && 0 <= i < Height(t)
    requires "College" in StripNames(t.header) && "Program" in StripNames(t.header)
    ensures var rec := Load(t).value[i];
            (rec.college.Some? <==> Cell(t, "College", i).Some?)
            && (rec.college.Some? ==> rec.college.value == Trim(Cell(t, "College", i).value))
            && (rec.program.Some? <==> Cell(t, "Program", i).Some?)
            && (rec.program.Some? ==> rec.program.value == Trim(Cell(t, "Program", i).value))
  {
    var names := StripNames(t.header);
    ConvertedHeight(names, t.columns, MONEY_COLUMNS, Height(t));
    var c := IndexOf(names, "College").value;
    var p := IndexOf(names, "Program").value;
    var rec := Load(t).value[i];
    assert rec.college == StripCells(t.columns[c])[i];
    assert rec.program == StripCells(t.columns[p])[i];
  }

  /** Each amount of row `i` is the reading of its cell, so it is NaN exactly when the cell was blank. */
  lemma LoadedMoney(t: RawTable, i: int, j: int)
    requires Rectangular(t) && Load(t).Success? && 0 <= i < Height(t) && 0 <= j < |MONEY_COLUMNS|
    requires MONEY_COLUMNS[j] in StripNames(t.header)
    ensures ParseCell(Cell(t, MONEY_COLUMNS[j], i)) == Success(MoneyField(Load(t).value[i], j))
    ensures MoneyField(Load(t).value[i], j).None? <==> Cell(t, MONEY_COLUMNS[j], i).None?
  {
    var names := StripNames(t.header);
    var money := ConvertMoney(names, t.columns, MONEY_COLUMNS).value;
    ConvertedHeight(names, t.columns, MONEY_COLUMNS, Height(t));
    assert MoneyField(Load(t).value[i], j) == money[j][i] by {
      var c := IndexOf(names, "College").value;
      var p := IndexOf(names, "Program").value;
      RowsMoney(StripCells(t.columns[c]), StripCells(t.columns[p]), money, i, j);
    }
    ConvertedCell(names, t.columns, MONEY_COLUMNS, j, i);
  }

  /** Row `i` holds entry `i` of each converted money column. */
  lemma RowsMoney(colleges: seq<Option<string>>, programs: seq<Option<string>>,
                  money: seq<seq<Option<real>>>, i: int, j: int)
    requires |programs| == |colleges| && |money| == 4
    requires forall j :: 0 <= j < 4 ==> |money[j]| == |colleges|
    requires 0 <= i < |colleges| && 0 <= j < 4
    ensures MoneyField(Rows(colleges, programs, money)[i], j) == money[j][i]
  {
  }

  /**
   * A money cell whose cleaned text holds a character that is neither
   * whitespace nor part of a numeral (a letter, say) aborts the whole load.
   */
  lemma TextAbortsLoad(t: RawTable, name: string, i: int, k: int)
    requires Rectangular(t) && name in MONEY_COLUMNS && name in StripNames(t.header) && 0 <= i < Height(t)
    requires Cell(t, name, i).Some?
    requires 0 <= k < |Clean(Cell(t, name, i).value)|
    requires !IsSpace(Clean(Cell(t, name, i).value)[k]) && !IsNumeral(Clean(Cell(t, name, i).value)[k])
    ensures Load(t).Failure?
  {
    var names := StripNames(t.header);
    UnreadableText(Clean(Cell(t, name, i).value), k);
    assert !ColumnReads(names, t.columns, name);
    LoadSucceedsIff(t);
  }

  /** Stripping the loaded College and Program texts again changes nothing. */
  lemma LoadedTextStable(t: RawTable, i: int)
    requires Rectangular(t) && Load(t).Success? && 0 <= i < Height(t)
    ensures var rec := Load(t).value[i];
            (rec.college.Some? ==> Trim(rec.college.value) == rec.college.value)
            && (rec.program.Some? ==> Trim(rec.program.value) == rec.program.value)
  {
    var rec := Load(t).value[i];
    if rec.college.Some? {
      TrimTrimmed(rec.college.value);
    }
    if rec.program.Some? {
      TrimTrimmed(rec.program.value);
    }
  }
}
