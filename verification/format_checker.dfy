/** Class FormatChecker of scripts/formatcheck.py: the checks a sheet goes
    through against a loaded configuration. Several of them write '[!]'
    into the sheet in place; each says exactly which cells it may change. */
module FormatChecker {
  import opened Base
  import opened Strings
  import opened FormatCheck

  /** The decoded JSON configuration of one kind of workbook. The unit
      dictionary is None when the reference sheet had no item column. */
  datatype Config = Config(
    header: seq<string>,
    unitDict: Option<map<string, seq<string>>>,
    fieldDict: map<string, set<Cell>>,
    replaceDict: map<string, string>,
    naCheck: seq<string>)

  // ---------------------------------------------------------------------
  // Withheld counts

  /** "W" and "Withheld" stand for suppressed data. */
  predicate IsWithheld(c: Cell) {
    c == Text("W") || c == Text("Withheld")
  }

  function CountWithheld(col: seq<Cell>): nat
    decreases |col|
  {
    if col == [] then 0
    else CountWithheld(col[..|col| - 1]) + (if IsWithheld(col[|col| - 1]) then 1 else 0)
  }

  /** The count is the number of rows holding a withheld marker. */
  lemma {:induction false} CountWithheldIsSize(col: seq<Cell>)
    ensures CountWithheld(col) == |set i | 0 <= i < |col| && IsWithheld(col[i])|
    decreases |col|
  {
    if col != [] {
      var n := |col| - 1;
      var init := col[..n];
      CountWithheldIsSize(init);
      var before := set i | 0 <= i < |init| && IsWithheld(init[i]);
      var after := set i | 0 <= i < |col| && IsWithheld(col[i]);
      if IsWithheld(col[n]) {
        assert after == before + {n};
      } else {
        assert after == before;
      }
    }
  }

  // ---------------------------------------------------------------------
  // Header

  datatype FieldStatus = InPlace | Reordered | NotPresent

  /** The three answers of the header check: one status per configured
      field, the sheet's columns that the configuration does not know, and
      those of them with a leading or trailing space. */
  datatype HeaderReport = HeaderReport(statuses: seq<FieldStatus>, newCols: set<string>, whitespace: set<string>)

  /** Every configured field gets exactly one status: in place when the
      sheet has it at the same index, not present when the sheet lacks it,
      reordered otherwise. */
  ghost predicate Classifies(header: seq<string>, columns: seq<string>, statuses: seq<FieldStatus>) {
    && |statuses| == |header|
    && forall i :: 0 <= i < |header| ==>
         && (statuses[i] == InPlace <==> i < |columns| && columns[i] == header[i])
         && (statuses[i] == NotPresent <==> header[i] !in columns)
  }

  ghost predicate ReportsNewColumns(header: seq<string>, columns: seq<string>, rep: HeaderReport) {
    && rep.newCols == (set c | c in columns && c !in header)
    && rep.whitespace == (set c | c in rep.newCols && HasOuterSpace(c))
  }

  /** Where the script's header loop raises: a present field whose index
      is past the sheet's last column (`columns[i]`), or a present field
      seen before, already removed from the unchecked set. */
  ghost predicate Faulty(header: seq<string>, columns: seq<string>, i: nat)
    requires i < |header|
  {
    header[i] in columns && (i >= |columns| || header[i] in header[..i])
  }

  ghost predicate FirstFault(header: seq<string>, columns: seq<string>, i: nat) {
    i < |header| && Faulty(header, columns, i) && forall j: nat :: j < i ==> !Faulty(header, columns, j)
  }

  /** Where the corrected header loop raises: only on a repeated field. */
  ghost predicate DuplicateFault(header: seq<string>, columns: seq<string>, i: nat)
    requires i < |header|
  {
    header[i] in columns && header[i] in header[..i]
  }

  /** A configured header that is a narrower sheet's header with a column
      dropped makes the script's header check raise instead of reporting. */
  lemma NarrowSheetFaults()
    ensures FirstFault(["Commodity", "Volume", "State"], ["Commodity", "State"], 2)
  {
    var header := ["Commodity", "Volume", "State"];
    assert header[..2] == ["Commodity", "Volume"];
    assert header[..1] == ["Commodity"];
    assert header[..0] == [];
  }

  /** With the index test guarded, a header without repeated fields is
      classified in full against any sheet, however narrow. */
  lemma GuardedClassifiesAll(header: seq<string>, columns: seq<string>)
    requires NoDup(header)
    ensures forall i: nat :: i < |header| ==> !DuplicateFault(header, columns, i)
  {
  }

  // ---------------------------------------------------------------------
  // Units

  /** `if replace and replace.__contains__(cell)`: the cell is listed for
      replacement and is left alone by the unit check. */
  predicate Replaceable(replace: map<string, string>, c: Cell) {
    |replace| > 0 && c.Text? && c.s in replace
  }

  /** One row of the item column: a cell listed for replacement is kept;
      any other is marked when `verdict` rejects it, and a number to be
      marked makes the marking raise. */
  function RowOutcome(replace: map<string, string>, verdict: Cell -> Result<bool>, c: Cell): Result<bool> {
    if Replaceable(replace, c) then Ok(false)
    else match verdict(c)
      case Err(e) => Err(e)
      case Ok(flag) => if flag && c.Num? then Err(TypeError) else Ok(flag)
  }

  /** What the unit check does with one item cell. */
  function UnitStep(cfg: Config, c: Cell): Result<bool> {
    RowOutcome(cfg.replaceDict, c' => CheckUnit(c', cfg.unitDict), c)
  }

  /** The unit check rejects this cell. */
  predicate UnitFlag(cfg: Config, c: Cell) {
    UnitStep(cfg, c) == Ok(true)
  }

  /** The unit check raises on this cell. */
  predicate UnitFails(cfg: Config, c: Cell) {
    UnitStep(cfg, c).Err?
  }

  /** The 1-based rows of `col` that hold the text `k`. */
  function RowsHolding(col: seq<Cell>, k: string): seq<nat>
    decreases |col|
  {
    if col == [] then []
    else RowsHolding(col[..|col| - 1], k) + (if col[|col| - 1] == Text(k) then [|col|] else [])
  }

  lemma {:induction false} RowsHoldingMembers(col: seq<Cell>, k: string)
    ensures forall n :: n in RowsHolding(col, k) <==> 1 <= n <= |col| && col[n - 1] == Text(k)
    decreases |col|
  {
    if col != [] {
      var init := col[..|col| - 1];
      RowsHoldingMembers(init, k);
      assert forall j :: 0 <= j < |init| ==> init[j] == col[j];
    }
  }

  /** `replaced_dict`: for each key of the replacement dictionary, the
      1-based rows of the item column that hold it. */
  function Replacements(col: seq<Cell>, replace: map<string, string>): map<string, seq<nat>> {
    map k | k in replace :: RowsHolding(col, k)
  }

  lemma ReplacementsSnoc(col: seq<Cell>, replace: map<string, string>, row: nat)
    requires row < |col|
    ensures Replacements(col[..row + 1], replace)
         == if Replaceable(replace, col[row])
            then Replacements(col[..row], replace)[col[row].s := Replacements(col[..row], replace)[col[row].s] + [row + 1]]
            else Replacements(col[..row], replace)
  {
    var m0 := Replacements(col[..row], replace);
    var m1 := Replacements(col[..row + 1], replace);
    assert col[..row + 1][..row] == col[..row];
    forall k | k in replace
      ensures m1[k] == m0[k] + (if col[row] == Text(k) then [row + 1] else [])
    {
    }
    assert m1.Keys == m0.Keys == replace.Keys;
    if Replaceable(replace, col[row]) {
      var key := col[row].s;
      var m2 := m0[key := m0[key] + [row + 1]];
      forall k | k in replace ensures m1[k] == m2[k] {
        if k != key {
          assert m0[k] + [] == m0[k];
        }
      }
      assert m1 == m2;
    } else {
      forall k | k in replace ensures m1[k] == m0[k] {
        assert m0[k] + [] == m0[k];
      }
      assert m1 == m0;
    }
  }

  datatype UnitOutcome = NoUnitsAvailable | Checked(replaced: map<string, seq<nat>>)

  // ---------------------------------------------------------------------
  // Categorical fields, years, missing values

  /** `cell not in default.get(field) and cell != ''` */
  predicate MiscFlag(vocab: map<string, set<Cell>>, field: string, c: Cell) {
    field in vocab && c !in vocab[field] && c != Empty
  }

  /** The cell as a check leaves it: marked when flagged, else unchanged. */
  function MarkIf(c: Cell, flag: bool): Cell {
    if flag && c.Text? then Mark(c) else c
  }

  /** The column of `field` once the categorical check has marked it. */
  function MiscMarked(col: seq<Cell>, vocab: map<string, set<Cell>>, field: string): seq<Cell> {
    seq(|col|, i requires 0 <= i < |col| => MarkIf(col[i], MiscFlag(vocab, field, col[i])))
  }

  /** The sheet's columns once the fields in `done` have been checked. */
  function MarkedFields(data: map<string, seq<Cell>>, vocab: map<string, set<Cell>>, done: set<string>)
    : map<string, seq<Cell>>
  {
    map c | c in data :: if c in done then MiscMarked(data[c], vocab, c) else data[c]
  }

  /** Every cell the categorical check flags in the column of `field` is
      text, so marking it cannot raise. */
  predicate FlaggedAreText(col: seq<Cell>, vocab: map<string, set<Cell>>, field: string) {
    forall i :: 0 <= i < |col| ==> MiscFlag(vocab, field, col[i]) ==> col[i].Text?
  }

  /** `after` has the columns of `before`, and each of its cells is the
      cell of `before`, or that cell marked when the categorical check
      flags it. */
  ghost predicate MarksOnly(before: map<string, seq<Cell>>, after: map<string, seq<Cell>>, vocab: map<string, set<Cell>>) {
    && before.Keys == after.Keys
    && forall c :: c in before ==>
         && |after[c]| == |before[c]|
         && forall i :: 0 <= i < |before[c]| ==> SameOrMarked(before[c][i], after[c][i], MiscFlag(vocab, c, before[c][i]))
  }

  /** A partly checked sheet is made only of marks. */
  lemma MarkedFieldsKeeps(data: map<string, seq<Cell>>, vocab: map<string, set<Cell>>, done: set<string>)
    ensures MarksOnly(data, MarkedFields(data, vocab, done), vocab)
  {
  }

  /** A field whose marking stopped half-way leaves a sheet made only of marks. */
  lemma MarksOnlyStep(data: map<string, seq<Cell>>, prev: map<string, seq<Cell>>, next: map<string, seq<Cell>>,
                      vocab: map<string, set<Cell>>, field: string)
    requires MarksOnly(data, prev, vocab) && field in data && prev[field] == data[field]
    requires field in next && next == prev[field := next[field]] && |next[field]| == |data[field]|
    requires forall i :: 0 <= i < |data[field]| ==> SameOrMarked(data[field][i], next[field][i], MiscFlag(vocab, field, data[field][i]))
    ensures MarksOnly(data, next, vocab)
  {
  }

  /** Checking one more field replaces that field's column by its marked
      form, or changes nothing when the sheet lacks the field. */
  lemma MarkedFieldsStep(data: map<string, seq<Cell>>, vocab: map<string, set<Cell>>, done: set<string>, field: string)
    ensures field in data ==>
              MarkedFields(data, vocab, done + {field})
              == MarkedFields(data, vocab, done)[field := MiscMarked(data[field], vocab, field)]
    ensures field !in data ==> MarkedFields(data, vocab, done + {field}) == MarkedFields(data, vocab, done)
  {
    var before := MarkedFields(data, vocab, done);
    var after := MarkedFields(data, vocab, done + {field});
    if field in data {
      var upd := before[field := MiscMarked(data[field], vocab, field)];
      assert after.Keys == upd.Keys;
      forall c | c in after ensures after[c] == upd[c] {
      }
      assert after == upd;
    } else {
      assert after.Keys == before.Keys;
      forall c | c in after ensures after[c] == before[c] {
      }
      assert after == before;
    }
  }

  /** Checking one more field of a partly checked sheet. */
  lemma FieldDone(data: map<string, seq<Cell>>, prev: map<string, seq<Cell>>, next: map<string, seq<Cell>>,
                  vocab: map<string, set<Cell>>, done: set<string>, field: string)
    requires prev == MarkedFields(data, vocab, done) && field !in done
    requires field in data ==> field in next && next == prev[field := next[field]]
                               && next[field] == MiscMarked(prev[field], vocab, field)
    requires field !in data ==> next == prev
    ensures next == MarkedFields(data, vocab, done + {field})
  {
    MarkedFieldsStep(data, vocab, done, field);
  }

  /** Membership in `range(current_year, 1969, -1)`: an integer from 1970
      to the current year, both included. */
  predicate InYearRange(c: Cell, currentYear: int) {
    c.Num? && 1970 <= c.n <= currentYear
  }

  /** `rows` lists, in increasing order, exactly the rows of `col` that
      hold no valid year. */
  ghost predicate ListsInvalidYears(col: seq<Cell>, currentYear: int, rows: seq<nat>) {
    && (forall n: nat :: n in rows <==> n < |col| && !InYearRange(col[n], currentYear))
    && (forall a, b :: 0 <= a < b < |rows| ==> rows[a] < rows[b])
  }

  /** The accepted range, for any current year from 1970 on: both ends are
      accepted, the years just outside them are not, and text never is. */
  lemma YearBounds(currentYear: int, s: string)
    requires currentYear >= 1970
    ensures InYearRange(Num(currentYear), currentYear) && InYearRange(Num(1970), currentYear)
    ensures !InYearRange(Num(currentYear + 1), currentYear) && !InYearRange(Num(1969), currentYear)
    ensures !InYearRange(Text(s), currentYear)
  {
  }

  class FormatChecker {
    const config: Config

    /** The configuration is passed in already decoded. */
    constructor (config: Config)
      ensures this.config == config
    {
      this.config := config;
    }

    /** `get_w_count`: the withheld markers in the Volume and State
        columns, each 0 when the column is absent. */
    method GetWCount(df: Frame) returns (volumeCount: nat, stateCount: nat)
      requires df.Valid()
      ensures volumeCount == if "Volume" in df.columns then CountWithheld(df.data["Volume"]) else 0
      ensures stateCount == if "State" in df.columns then CountWithheld(df.data["State"]) else 0
    {
      volumeCount := 0;
      stateCount := 0;
      if "Volume" in df.columns {
        volumeCount := CountIn(df.data["Volume"]);
      }
      if "State" in df.columns {
        stateCount := CountIn(df.data["State"]);
      }
    }

    /** The counting loop of `get_w_count`, over one column. */
    static method CountIn(col: seq<Cell>) returns (count: nat)
      ensures count == CountWithheld(col)
    {
      count := 0;
      var i := 0;
      while i < |col|
        invariant 0 <= i <= |col|
        invariant count == CountWithheld(col[..i])
      {
        assert col[..i + 1][..i] == col[..i];
        if IsWithheld(col[i]) {
          count := count + 1;
        }
        i := i + 1;
      }
      assert col[..i] == col;
    }

    /** `check_header`, as written: a present field is compared with
        `columns[i]` even when `i` is past the sheet's last column. */
    method CheckHeader(df: Frame) returns (r: Result<HeaderReport>)
      ensures r.Ok? <==> forall i: nat :: i < |config.header| ==> !Faulty(config.header, df.columns, i)
      ensures r.Ok? ==> Classifies(config.header, df.columns, r.value.statuses)
      ensures r.Ok? ==> ReportsNewColumns(config.header, df.columns, r.value)
      ensures r.Err? ==> exists i: nat :: FirstFault(config.header, df.columns, i)
                          && r.error == if i >= |df.columns| then IndexError else KeyError(config.header[i])
    {
      var header := config.header;
      var columns := df.columns;
      var unchecked := set c | c in columns;
      var statuses: seq<FieldStatus> := [];
      var i := 0;
      while i < |header|
        invariant 0 <= i <= |header| && |statuses| == i
        invariant forall j: nat :: j < i ==> !Faulty(header, columns, j)
        invariant forall j :: 0 <= j < i ==>
                    && (statuses[j] == InPlace <==> j < |columns| && columns[j] == header[j])
                    && (statuses[j] == NotPresent <==> header[j] !in columns)
        invariant unchecked == set c | c in columns && c !in header[..i]
      {
        var field := header[i];
        assert header[..i + 1] == header[..i] + [field];
        if field in columns {
          if i >= |columns| {
            assert FirstFault(header, columns, i);
            return Err(IndexError);
          }
          statuses := statuses + [if columns[i] == field then InPlace else Reordered];
          if field !in unchecked {
            assert FirstFault(header, columns, i);
            return Err(KeyError(field));
          }
          unchecked := unchecked - {field};
        } else {
          statuses := statuses + [NotPresent];
        }
        i := i + 1;
      }
      assert header[..i] == header;
      var spaced := set c | c in unchecked && HasOuterSpace(c);
      r := Ok(HeaderReport(statuses, unchecked, spaced));
    }

    /** `check_header` with the index test guarded by the sheet's width:
        a present field past the last column is reported as reordered. */
    method CheckHeaderGuarded(df: Frame) returns (r: Result<HeaderReport>)
      ensures r.Ok? <==> forall i: nat :: i < |config.header| ==> !DuplicateFault(config.header, df.columns, i)
      ensures r.Ok? ==> Classifies(config.header, df.columns, r.value.statuses)
      ensures r.Ok? ==> ReportsNewColumns(config.header, df.columns, r.value)
      ensures r.Err? ==> exists i: nat :: i < |config.header| && DuplicateFault(config.header, df.columns, i)
                          && r.error == KeyError(config.header[i])
    {
      var header := config.header;
      var columns := df.columns;
      var unchecked := set c | c in columns;
      var statuses: seq<FieldStatus> := [];
      var i := 0;
      while i < |header|
        invariant 0 <= i <= |header| && |statuses| == i
        invariant forall j: nat :: j < i ==> !DuplicateFault(header, columns, j)
        invariant forall j :: 0 <= j < i ==>
                    && (statuses[j] == InPlace <==> j < |columns| && columns[j] == header[j])
                    && (statuses[j] == NotPresent <==> header[j] !in columns)
        invariant unchecked == set c | c in columns && c !in header[..i]
      {
        var field := header[i];
        assert header[..i + 1] == header[..i] + [field];
        if field in columns {
          statuses := statuses + [if i < |columns| && columns[i] == field then InPlace else Reordered];
          if field !in unchecked {
            assert DuplicateFault(header, columns, i);
            return Err(KeyError(field));
          }
          unchecked := unchecked - {field};
        } else {
          statuses := statuses + [NotPresent];
        }
        i := i + 1;
      }
      assert header[..i] == header;
      var spaced := set c | c in unchecked && HasOuterSpace(c);
      r := Ok(HeaderReport(statuses, unchecked, spaced));
    }

    /** `check_unit_dict`: marks the item cells that `_check_unit` rejects,
        skips (and records) the cells listed for replacement, and leaves
        every other cell of the sheet as it was. */
    method CheckUnitDict(df: Frame) returns (r: Result<UnitOutcome>)
      requires df.Valid()
      modifies df
      ensures df.Valid() && df.columns == old(df.columns) && df.height == old(df.height)
      ensures GetComPro(old(df.columns)) == "n/a" ==> r == Ok(NoUnitsAvailable) && df.data == old(df.data)
      ensures var col := GetComPro(old(df.columns));
              col != "n/a" ==>
                && col in old(df.data) && col in df.data
                && df.data == old(df.data)[col := df.data[col]]
                && (forall i :: 0 <= i < old(df.height) ==>
                      SameOrMarked(old(df.data)[col][i], df.data[col][i], UnitFlag(config, old(df.data)[col][i])))
                && (r.Ok? <==> forall i :: 0 <= i < old(df.height) ==> !UnitFails(config, old(df.data)[col][i]))
                && (r.Ok? ==> r.value == Checked(Replacements(old(df.data)[col], config.replaceDict)))
                && (r.Ok? ==> forall i :: 0 <= i < old(df.height) ==>
                      df.data[col][i] == MarkIf(old(df.data)[col][i], UnitFlag(config, old(df.data)[col][i])))
                && (r.Err? ==>
                      exists i :: && 0 <= i < old(df.height)
                                  && (forall j :: 0 <= j < i ==> !UnitFails(config, old(df.data)[col][j]))
                                  && UnitStep(config, old(df.data)[col][i]) == Err(r.error)
                                  && (forall j :: 0 <= j < i ==>
                                        df.data[col][j] == MarkIf(old(df.data)[col][j], UnitFlag(config, old(df.data)[col][j])))
                                  && (forall j :: i <= j < old(df.height) ==> df.data[col][j] == old(df.data)[col][j]))
    {
      var col := GetComPro(df.columns);
      if col == "n/a" {
        return Ok(NoUnitsAvailable);
      }
      var units := config.unitDict;
      var replaced := MarkRejected(df, col, config.replaceDict, c => CheckUnit(c, units));
      if replaced.Err? {
        return Err(replaced.error);
      }
      r := Ok(Checked(replaced.value));
    }

    /** The row loop of `check_unit_dict` over the item column `col`, with
        the unit check as `verdict`: a cell listed in `replace` is recorded
        and kept, any other is marked when `verdict` rejects it; the loop
        stops at the first cell on which `verdict` raises. */
    static method MarkRejected(df: Frame, col: string, replace: map<string, string>, verdict: Cell -> Result<bool>)
      returns (r: Result<map<string, seq<nat>>>)
      requires df.Valid() && col in df.data
      modifies df
      ensures df.Valid() && df.columns == old(df.columns) && df.height == old(df.height)
      ensures col in df.data && df.data == old(df.data)[col := df.data[col]]
      ensures forall i :: 0 <= i < old(df.height) ==>
                SameOrMarked(old(df.data)[col][i], df.data[col][i], RowOutcome(replace, verdict, old(df.data)[col][i]) == Ok(true))
      ensures r.Ok? <==> forall i :: 0 <= i < old(df.height) ==> RowOutcome(replace, verdict, old(df.data)[col][i]).Ok?
      ensures r.Ok? ==> r.value == Replacements(old(df.data)[col], replace)
      ensures r.Ok? ==> forall i :: 0 <= i < old(df.height) ==>
                df.data[col][i] == MarkIf(old(df.data)[col][i], RowOutcome(replace, verdict, old(df.data)[col][i]) == Ok(true))
      ensures r.Err? ==>
                exists i :: && 0 <= i < old(df.height)
                            && (forall j :: 0 <= j < i ==> RowOutcome(replace, verdict, old(df.data)[col][j]).Ok?)
                            && RowOutcome(replace, verdict, old(df.data)[col][i]) == Err(r.error)
                            && (forall j :: 0 <= j < i ==>
                                  df.data[col][j] == MarkIf(old(df.data)[col][j], RowOutcome(replace, verdict, old(df.data)[col][j]) == Ok(true)))
                            && (forall j :: i <= j < old(df.height) ==> df.data[col][j] == old(df.data)[col][j])
    {
      ghost var before := df.data[col];
      var replaced: map<string, seq<nat>> := map k | k in replace :: [];
      assert before[..0] == [];
      var row := 0;
      while row < df.height
        invariant 0 <= row <= df.height
        invariant df.Valid() && df.columns == old(df.columns) && df.height == old(df.height)
        invariant col in df.data && |before| == df.height && before == old(df.data)[col]
        invariant df.data == old(df.data)[col := df.data[col]]
        invariant forall i :: 0 <= i < row ==> RowOutcome(replace, verdict, before[i]).Ok?
        invariant forall i :: 0 <= i < row ==>
                    df.data[col][i] == MarkIf(before[i], RowOutcome(replace, verdict, before[i]) == Ok(true))
        invariant forall i :: row <= i < df.height ==> df.data[col][i] == before[i]
        invariant replaced == Replacements(before[..row], replace)
      {
        ReplacementsSnoc(before, replace, row);
        var cell := df.data[col][row];
        if |replace| > 0 && cell.Text? && cell.s in replace {
          replaced := replaced[cell.s := replaced[cell.s] + [row + 1]];
        }
        var outcome := MarkRow(df, col, row, replace, verdict);
        if outcome.Err? {
          return Err(outcome.error);
        }
        row := row + 1;
      }
      assert before[..row] == before;
      r := Ok(replaced);
    }

    /** One row of `check_unit_dict`: the cell is marked when it is not
        listed in `replace` and `verdict` rejects it; nothing else changes. */
    static method MarkRow(df: Frame, col: string, row: nat, replace: map<string, string>, verdict: Cell -> Result<bool>)
      returns (outcome: Result<bool>)
      requires df.Valid() && col in df.data && row < df.height
      modifies df
      ensures df.Valid() && df.columns == old(df.columns) && df.height == old(df.height)
      ensures outcome == RowOutcome(replace, verdict, old(df.data)[col][row])
      ensures outcome.Err? ==> df.data == old(df.data)
      ensures outcome.Ok? ==> col in df.data && df.data == old(df.data)[col := df.data[col]]
      ensures outcome.Ok? ==>
                df.data[col] == old(df.data)[col][row := MarkIf(old(df.data)[col][row], outcome.value)]
    {
      var cell := df.data[col][row];
      if |replace| > 0 && cell.Text? && cell.s in replace {
        outcome := Ok(false);
      } else {
        var flag := verdict(cell);
        if flag.Err? {
          return Err(flag.error);
        }
        if flag.value {
          if cell.Num? {
            return Err(TypeError);
          }
          df.Set(col, row, Mark(cell));
        }
        outcome := flag;
      }
      if outcome == Ok(false) {
        assert df.data[col][row := cell] == df.data[col];
        assert df.data[col := df.data[col]] == df.data;
      }
    }

    /** `check_year`: the rows whose value is not a year from 1970 to the
        current year. */
    static method CheckYear(col: seq<Cell>, currentYear: int) returns (invalid: seq<nat>)
      ensures ListsInvalidYears(col, currentYear, invalid)
    {
      invalid := [];
      var row := 0;
      while row < |col|
        invariant 0 <= row <= |col|
        invariant forall n: nat :: n in invalid <==> n < row && !InYearRange(col[n], currentYear)
        invariant forall a, b :: 0 <= a < b < |invalid| ==> invalid[a] < invalid[b]
        invariant forall a :: 0 <= a < |invalid| ==> invalid[a] < row
      {
        if !InYearRange(col[row], currentYear) {
          invalid := invalid + [row];
        }
        row := row + 1;
      }
    }

    /** `check_misc_cols`: first the year check on "Calendar Year", else on
        "Fiscal Year"; then the categorical check of the configured fields. */
    method CheckMiscCols(df: Frame, currentYear: int) returns (years: seq<nat>, r: Result<()>)
      requires df.Valid()
      modifies df
      ensures df.Valid() && df.columns == old(df.columns) && df.height == old(df.height)
      ensures "Calendar Year" in old(df.columns) ==>
                ListsInvalidYears(old(df.data)["Calendar Year"], currentYear, years)
      ensures "Calendar Year" !in old(df.columns) && "Fiscal Year" in old(df.columns) ==>
                ListsInvalidYears(old(df.data)["Fiscal Year"], currentYear, years)
      ensures "Calendar Year" !in old(df.columns) && "Fiscal Year" !in old(df.columns) ==> years == []
      ensures MarksOnly(old(df.data), df.data, config.fieldDict)
      ensures r.Ok? <==> forall c :: c in old(df.data) ==> FlaggedAreText(old(df.data)[c], config.fieldDict, c)
      ensures r.Ok? ==> df.data == MarkedFields(old(df.data), config.fieldDict, config.fieldDict.Keys)
      ensures r.Err? ==> r.error == TypeError
    {
      if "Calendar Year" in df.columns {
        years := CheckYear(df.data["Calendar Year"], currentYear);
      } else if "Fiscal Year" in df.columns {
        years := CheckYear(df.data["Fiscal Year"], currentYear);
      } else {
        years := [];
      }
      r := CheckFields(df);
    }

    /** The categorical half of `check_misc_cols`: for every configured field
        the sheet has, marks each non-empty cell outside the field's recorded
        values; a number there makes the marking raise. */
    method CheckFields(df: Frame) returns (r: Result<()>)
      requires df.Valid()
      modifies df
      ensures df.Valid() && df.columns == old(df.columns) && df.height == old(df.height)
      ensures MarksOnly(old(df.data), df.data, config.fieldDict)
      ensures r.Ok? <==> forall c :: c in old(df.data) ==> FlaggedAreText(old(df.data)[c], config.fieldDict, c)
      ensures r.Ok? ==> df.data == MarkedFields(old(df.data), config.fieldDict, config.fieldDict.Keys)
      ensures r.Err? ==> r.error == TypeError
    {
      var vocab := config.fieldDict;
      var todo := vocab.Keys;
      while todo != {}
        invariant todo <= vocab.Keys
        invariant df.Valid() && df.columns == old(df.columns) && df.height == old(df.height)
        invariant df.data == MarkedFields(old(df.data), vocab, vocab.Keys - todo)
        invariant forall c :: c in old(df.data) && c !in todo ==> FlaggedAreText(old(df.data)[c], vocab, c)
        decreases todo
      {
        var field :| field in todo;
        ghost var done := vocab.Keys - todo;
        ghost var prev := df.data;
        if field in df.columns {
          var res := MarkUnexpected(df, field);
          if res.Err? {
            MarkedFieldsKeeps(old(df.data), vocab, done);
            MarksOnlyStep(old(df.data), prev, df.data, vocab, field);
            return Err(TypeError);
          }
        }
        FieldDone(old(df.data), prev, df.data, vocab, done, field);
        todo := todo - {field};
        assert vocab.Keys - todo == done + {field};
      }
      assert vocab.Keys - todo == vocab.Keys;
      MarkedFieldsKeeps(old(df.data), vocab, vocab.Keys);
      r := Ok(());
    }

    /** The row loop of `check_misc_cols` for one field: marks each
        non-empty cell outside the field's recorded values, and raises on
        the first such cell that holds a number. */
    method MarkUnexpected(df: Frame, field: string) returns (r: Result<()>)
      requires df.Valid() && field in df.data && field in config.fieldDict
      modifies df
      ensures df.Valid() && df.columns == old(df.columns) && df.height == old(df.height)
      ensures field in df.data && df.data == old(df.data)[field := df.data[field]]
      ensures forall i :: 0 <= i < old(df.height) ==>
                SameOrMarked(old(df.data)[field][i], df.data[field][i],
                             MiscFlag(config.fieldDict, field, old(df.data)[field][i]))
      ensures r.Ok? <==> FlaggedAreText(old(df.data)[field], config.fieldDict, field)
      ensures r.Ok? ==> df.data[field] == MiscMarked(old(df.data)[field], config.fieldDict, field)
      ensures r.Err? ==> r.error == TypeError
      // a raise leaves the rows before the offending number marked and the rest untouched
      ensures r.Err? ==>
                exists i :: && 0 <= i < old(df.height)
                            && MiscFlag(config.fieldDict, field, old(df.data)[field][i])
                            && old(df.data)[field][i].Num?
                            && (forall j :: 0 <= j < i ==>
                                  MiscFlag(config.fieldDict, field, old(df.data)[field][j]) ==> old(df.data)[field][j].Text?)
                            && (forall j :: 0 <= j < i ==>
                                  df.data[field][j] == MarkIf(old(df.data)[field][j], MiscFlag(config.fieldDict, field, old(df.data)[field][j])))
                            && (forall j :: i <= j < old(df.height) ==> df.data[field][j] == old(df.data)[field][j])
    {
      var allowed := config.fieldDict[field];
      ghost var before := df.data[field];
      var row := 0;
      while row < df.height
        invariant 0 <= row <= df.height
        invariant df.Valid() && df.columns == old(df.columns) && df.height == old(df.height)
        invariant field in df.data && df.data == old(df.data)[field := df.data[field]]
        invariant forall i :: 0 <= i < row ==>
                    df.data[field][i] == MarkIf(before[i], MiscFlag(config.fieldDict, field, before[i]))
        invariant forall i :: 0 <= i < row ==>
                    (MiscFlag(config.fieldDict, field, before[i]) ==> before[i].Text?)
        invariant forall i :: row <= i < df.height ==> df.data[field][i] == before[i]
      {
        var cell := df.data[field][row];
        if cell !in allowed && cell != Empty {
          if cell.Num? {
            assert MiscFlag(config.fieldDict, field, before[row]);
            return Err(TypeError);
          }
          df.Set(field, row, Mark(cell));
        }
        row := row + 1;
      }
      r := Ok(());
    }

    /** `check_nan`: every empty cell of a column listed in `na_check`
        becomes '[!]'; nothing else changes. */
    method CheckNan(df: Frame)
      requires df.Valid()
      modifies df
      ensures df.Valid() && df.columns == old(df.columns) && df.height == old(df.height)
      ensures forall c, i :: c in old(df.data) && 0 <= i < old(df.height) ==>
                c in df.data &&
                df.data[c][i] == if c in config.naCheck && old(df.data)[c][i] == Empty then Text(Marker)
                                 else old(df.data)[c][i]
    {
      var cols := config.naCheck;
      var k := 0;
      while k < |cols|
        invariant 0 <= k <= |cols|
        invariant df.Valid() && df.columns == old(df.columns) && df.height == old(df.height)
        invariant forall c :: c in old(df.data) <==> c in df.data
        invariant forall c, i :: c in old(df.data) && 0 <= i < old(df.height) ==>
                    df.data[c][i] == if c in cols[..k] && old(df.data)[c][i] == Empty then Text(Marker)
                                     else old(df.data)[c][i]
      {
        var col := cols[k];
        assert cols[..k + 1] == cols[..k] + [col];
        if col in df.columns {
          var row := 0;
          while row < df.height
            invariant 0 <= row <= df.height
            invariant df.Valid() && df.columns == old(df.columns) && df.height == old(df.height)
            invariant forall c :: c in old(df.data) <==> c in df.data
            invariant forall c, i :: c in old(df.data) && 0 <= i < old(df.height) ==>
                        df.data[c][i] == if (c in cols[..k] || (c == col && i < row)) && old(df.data)[c][i] == Empty
                                         then Text(Marker) else old(df.data)[c][i]
          {
            if df.data[col][row] == Empty {
              df.Set(col, row, Text(Marker));
            }
            row := row + 1;
          }
        }
        k := k + 1;
      }
      assert cols[..k] == cols;
    }
  }
}
