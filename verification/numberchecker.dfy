/** scripts/numberchecker.py: per-group bounds on the number column of a
    sheet, and the rows whose value falls outside its group's bounds. */
module NumberCheck {
  import opened Base
  import opened Strings
  import ConfigKey

  /** A cell of the sheet: text, a number, or pandas' NaN for a blank. */
  datatype Value = Str(s: string) | Num(x: real) | Missing

  /** A sheet as `check_threshold` reads it: column labels in order and,
      per column, its cells by row label. */
  datatype Table = Table(columns: seq<string>, data: map<string, map<int, Value>>) {
    ghost predicate WellFormed() {
      forall c :: c in columns <==> c in data
    }
  }

  /** One group of `df.groupby(...)`: its key as `str(item)` renders it,
      and the labels of its rows in order. */
  datatype Group = Group(key: string, rows: seq<int>)

  /** `get_prefix`: the configuration key of a workbook, without the '_'
      that the format checker appends. */
  method GetPrefix(name: string) returns (prefix: string)
    ensures prefix == ConfigKey.Concat(ConfigKey.Matched(Lower(name), ConfigKey.Keywords))
  {
    var lower := Lower(name);
    var prefixes := ConfigKey.Keywords;
    prefix := "";
    var i := 0;
    while i < |prefixes|
      invariant 0 <= i <= |prefixes|
      invariant prefix == ConfigKey.Concat(ConfigKey.Matched(lower, prefixes[..i]))
    {
      ConfigKey.MatchedSnoc(lower, prefixes, i);
      if Contains(lower, prefixes[i]) {
        ConfigKey.ConcatSnoc(ConfigKey.Matched(lower, prefixes[..i]), prefixes[i]);
        prefix := prefix + prefixes[i];
      } else {
        assert ConfigKey.Matched(lower, prefixes[..i]) + [] == ConfigKey.Matched(lower, prefixes[..i]);
      }
      i := i + 1;
    }
    assert prefixes[..i] == prefixes;
  }

  /** `get_num_col`: "Revenues" when the sheet has it, else the last
      column; `columns[-1]` raises on a sheet without columns. */
  function GetNumCol(columns: seq<string>): (r: Result<string>)
    ensures "Revenues" in columns ==> r == Ok("Revenues")
    ensures "Revenues" !in columns && columns != [] ==> r == Ok(columns[|columns| - 1])
    ensures r.Err? <==> columns == []
    ensures r.Ok? ==> r.value in columns
  {
    if "Revenues" in columns then Ok("Revenues")
    else if columns == [] then Err(IndexError)
    else Ok(columns[|columns| - 1])
  }

  // ---------------------------------------------------------------------
  // Bounds

  /** What pandas computes for the number column of one group: the mean,
      the sample standard deviation (None where it is NaN, as for a group
      of one row), the minimum and the maximum. */
  datatype Stats = Stats(mean: real, std: Option<real>, min: real, max: real) {
    ghost predicate Sensible() {
      min <= mean <= max && (std.Some? ==> std.value >= 0.0)
    }
  }

  /** The pair `sd_dict[item]` holds: the lowest and highest values that
      are not flagged. */
  datatype Bounds = Bounds(lower: real, upper: real)

  /** `get_sd` for one group with multiplier `k`: mean -/+ k standard
      deviations, or (min, max) when the deviation is NaN. */
  function GroupBounds(s: Stats, k: real): (b: Bounds)
    ensures s.std.None? ==> b.lower == s.min && b.upper == s.max
    ensures s.std.Some? ==> b.upper - s.mean == s.mean - b.lower == k * s.std.value
  {
    if s.std.None? then Bounds(s.min, s.max)
    else Bounds(s.mean - s.std.value * k, s.mean + s.std.value * k)
  }

  /** For a non-negative multiplier the bounds are ordered, and the group's
      mean lies between them. */
  lemma BoundsOrdered(s: Stats, k: real)
    requires s.Sensible() && k >= 0.0
    ensures GroupBounds(s, k).lower <= s.mean <= GroupBounds(s, k).upper
  {
    if s.std.Some? {
      assert k * s.std.value >= 0.0;
    }
  }

  /** A group of one row (no deviation) accepts exactly its own value. */
  lemma SingleRowBounds(x: real, k: real)
    ensures GroupBounds(Stats(x, None, x, x), k) == Bounds(x, x)
    ensures Verdict(Num(x), GroupBounds(Stats(x, None, x, x), k)) == Ok(None)
    ensures forall y :: y != x ==> Verdict(Num(y), GroupBounds(Stats(x, None, x, x), k)).value.Some?
  {
  }

  /** The summary of one group that `get_sd` reads. */
  datatype GroupStats = GroupStats(key: string, stats: Stats)

  /** The dictionary `get_sd` builds, group by group; the empty key is
      skipped, and a key seen again takes the later group's bounds. */
  function SdDict(groups: seq<GroupStats>, k: real): map<string, Bounds>
    decreases |groups|
  {
    if groups == [] then map[]
    else
      var m := SdDict(groups[..|groups| - 1], k);
      var g := groups[|groups| - 1];
      if g.key == "" then m else m[g.key := GroupBounds(g.stats, k)]
  }

  lemma SdDictSnoc(groups: seq<GroupStats>, k: real, i: nat)
    requires i < |groups|
    ensures SdDict(groups[..i + 1], k)
         == if groups[i].key == "" then SdDict(groups[..i], k)
            else SdDict(groups[..i], k)[groups[i].key := GroupBounds(groups[i].stats, k)]
  {
    assert groups[..i + 1][..i] == groups[..i];
  }

  /** Every non-empty group key gets an entry, and nothing else does. */
  lemma {:induction false} SdDictKeys(groups: seq<GroupStats>, k: real)
    ensures forall key :: key in SdDict(groups, k) <==>
              key != "" && exists i :: 0 <= i < |groups| && groups[i].key == key
    decreases |groups|
  {
    if groups != [] {
      var init := groups[..|groups| - 1];
      SdDictKeys(init, k);
      assert forall i :: 0 <= i < |init| ==> init[i] == groups[i];
    }
  }

  /** The entry of a key is the bounds of the last group with that key. */
  lemma {:induction false} SdDictLast(groups: seq<GroupStats>, k: real, i: nat)
    requires i < |groups| && groups[i].key != ""
    requires forall j :: i < j < |groups| ==> groups[j].key != groups[i].key
    ensures groups[i].key in SdDict(groups, k)
    ensures SdDict(groups, k)[groups[i].key] == GroupBounds(groups[i].stats, k)
    decreases |groups|
  {
    var n := |groups| - 1;
    if i < n {
      var init := groups[..n];
      assert forall j :: i < j < |init| ==> init[j] == groups[j];
      SdDictLast(init, k, i);
    }
  }

  /** `get_sd(grouped_df, k)`: the bounds of every group with a non-empty
      key. `get_num_col` runs on each group's frame before the key test,
      so a sheet without columns raises as soon as there is a group. */
  method GetSd(columns: seq<string>, groups: seq<GroupStats>, k: real) returns (r: Result<map<string, Bounds>>)
    ensures groups != [] && columns == [] ==> r == Err(IndexError)
    ensures groups == [] || columns != [] ==> r == Ok(SdDict(groups, k))
  {
    var sdDict := map[];
    var i := 0;
    while i < |groups|
      invariant 0 <= i <= |groups|
      invariant i > 0 ==> columns != []
      invariant sdDict == SdDict(groups[..i], k)
    {
      SdDictSnoc(groups, k, i);
      var item := groups[i].key;
      var col := GetNumCol(columns);
      if col.Err? {
        return Err(col.error);
      }
      if item != "" {
        sdDict := sdDict[item := GroupBounds(groups[i].stats, k)];
      }
      i := i + 1;
    }
    assert groups[..i] == groups;
    r := Ok(sdDict);
  }

  // ---------------------------------------------------------------------
  // Classification

  datatype Kind = Low | High

  /** One line of the deviations report; its row goes into `cells`. */
  datatype Flag = Flag(row: int, kind: Kind)

  predicate IsWithheld(v: Value) {
    v == Str("W") || v == Str("Withheld")
  }

  /** The decision for one value: withheld values are skipped, any other
      text makes the comparison with a number raise, NaN compares false
      both ways, and a number is low below the lower bound, high above
      the upper one. */
  function Verdict(v: Value, b: Bounds): (r: Result<Option<Kind>>)
    ensures IsWithheld(v) || v.Missing? ==> r == Ok(None)
    ensures r.Err? <==> v.Str? && !IsWithheld(v)
    ensures r.Err? ==> r.error == TypeError
    ensures r == Ok(Some(Low)) <==> v.Num? && v.x < b.lower
    ensures r == Ok(Some(High)) <==> v.Num? && b.lower <= v.x && b.upper < v.x
  {
    if IsWithheld(v) then Ok(None)
    else match v
      case Str(_) => Err(TypeError)
      case Missing => Ok(None)
      case Num(x) =>
        if x < b.lower then Ok(Some(Low))
        else if x > b.upper then Ok(Some(High))
        else Ok(None)
  }

  /** The rows of one group that fall outside `b`, in row order; reading a
      row label the column lacks raises like `df.loc`. */
  function GroupFlags(col: map<int, Value>, rows: seq<int>, b: Bounds): Result<seq<Flag>>
    decreases |rows|
  {
    if rows == [] then Ok([])
    else
      match GroupFlags(col, rows[..|rows| - 1], b)
      case Err(e) => Err(e)
      case Ok(fs) =>
        var row := rows[|rows| - 1];
        if row !in col then Err(KeyError(IntToString(row)))
        else
          match Verdict(col[row], b)
          case Err(e) => Err(e)
          case Ok(None) => Ok(fs)
          case Ok(Some(kind)) => Ok(fs + [Flag(row, kind)])
  }

  /** What `check_threshold` returns for the number column `col`: the flags
      of every group with a non-empty key, group after group; a non-empty
      key missing from the bounds raises. */
  function Threshold(col: map<int, Value>, groups: seq<Group>, sd: map<string, Bounds>): Result<seq<Flag>>
    decreases |groups|
  {
    if groups == [] then Ok([])
    else
      match Threshold(col, groups[..|groups| - 1], sd)
      case Err(e) => Err(e)
      case Ok(fs) =>
        var g := groups[|groups| - 1];
        if g.key == "" then Ok(fs)
        else if g.key !in sd then Err(KeyError(g.key))
        else
          match GroupFlags(col, g.rows, sd[g.key])
          case Err(e) => Err(e)
          case Ok(gs) => Ok(fs + gs)
  }

  lemma GroupFlagsSnoc(col: map<int, Value>, rows: seq<int>, b: Bounds, j: nat)
    requires j < |rows|
    ensures GroupFlags(col, rows[..j + 1], b)
         == match GroupFlags(col, rows[..j], b)
            case Err(e) => Err(e)
            case Ok(fs) =>
              if rows[j] !in col then Err(KeyError(IntToString(rows[j])))
              else
                match Verdict(col[rows[j]], b)
                case Err(e) => Err(e)
                case Ok(None) => Ok(fs)
                case Ok(Some(kind)) => Ok(fs + [Flag(rows[j], kind)])
  {
    assert rows[..j + 1][..j] == rows[..j];
  }

  lemma ThresholdSnoc(col: map<int, Value>, groups: seq<Group>, sd: map<string, Bounds>, i: nat)
    requires i < |groups|
    ensures Threshold(col, groups[..i + 1], sd)
         == match Threshold(col, groups[..i], sd)
            case Err(e) => Err(e)
            case Ok(fs) =>
              if groups[i].key == "" then Ok(fs)
              else if groups[i].key !in sd then Err(KeyError(groups[i].key))
              else
                match GroupFlags(col, groups[i].rows, sd[groups[i].key])
                case Err(e) => Err(e)
                case Ok(gs) => Ok(fs + gs)
  {
    assert groups[..i + 1][..i] == groups[..i];
  }

  /** A group is checked without raising exactly when every row is in the
      column and none holds text other than a withheld marker. */
  lemma {:induction false} GroupFlagsOk(col: map<int, Value>, rows: seq<int>, b: Bounds)
    ensures GroupFlags(col, rows, b).Ok? <==>
              forall j :: 0 <= j < |rows| ==> rows[j] in col && Verdict(col[rows[j]], b).Ok?
    decreases |rows|
  {
    if rows != [] {
      var init := rows[..|rows| - 1];
      GroupFlagsOk(col, init, b);
      assert forall j :: 0 <= j < |init| ==> init[j] == rows[j];
    }
  }

  /** The flags of a group are exactly its rows outside the bounds, each
      with the side it falls on. */
  lemma {:induction false} GroupFlagsExact(col: map<int, Value>, rows: seq<int>, b: Bounds, fs: seq<Flag>)
    requires GroupFlags(col, rows, b) == Ok(fs)
    ensures forall f :: f in fs <==> f.row in rows && f.row in col && Verdict(col[f.row], b) == Ok(Some(f.kind))
    decreases |rows|
  {
    if rows != [] {
      var init := rows[..|rows| - 1];
      var fs0 := GroupFlags(col, init, b).value;
      GroupFlagsExact(col, init, b, fs0);
      GroupFlagsOk(col, rows, b);
      assert rows == init + [rows[|rows| - 1]];
    }
  }

  /** The check raises exactly when a non-empty key has no bounds or one
      of its group's rows cannot be read or compared. */
  lemma {:induction false} ThresholdOk(col: map<int, Value>, groups: seq<Group>, sd: map<string, Bounds>)
    ensures Threshold(col, groups, sd).Ok? <==>
              forall i :: 0 <= i < |groups| && groups[i].key != "" ==>
                groups[i].key in sd && GroupFlags(col, groups[i].rows, sd[groups[i].key]).Ok?
    decreases |groups|
  {
    if groups != [] {
      var init := groups[..|groups| - 1];
      ThresholdOk(col, init, sd);
      assert forall i :: 0 <= i < |init| ==> init[i] == groups[i];
    }
  }

  /** Every flag names a row of a group with a non-empty key whose value
      lies on the flagged side of that group's bounds. */
  lemma {:induction false} ThresholdSound(col: map<int, Value>, groups: seq<Group>, sd: map<string, Bounds>, fs: seq<Flag>)
    requires Threshold(col, groups, sd) == Ok(fs)
    ensures forall f :: f in fs ==>
              exists i :: 0 <= i < |groups| && groups[i].key != "" && groups[i].key in sd
                          && f.row in groups[i].rows && f.row in col
                          && Verdict(col[f.row], sd[groups[i].key]) == Ok(Some(f.kind))
    decreases |groups|
  {
    if groups != [] {
      var n := |groups| - 1;
      var init := groups[..n];
      var fs0 := Threshold(col, init, sd).value;
      ThresholdSound(col, init, sd, fs0);
      var g := groups[n];
      forall f | f in fs
        ensures exists i :: 0 <= i < |groups| && groups[i].key != "" && groups[i].key in sd
                            && f.row in groups[i].rows && f.row in col
                            && Verdict(col[f.row], sd[groups[i].key]) == Ok(Some(f.kind))
      {
        if f in fs0 {
          var i :| 0 <= i < |init| && init[i].key != "" && init[i].key in sd
                   && f.row in init[i].rows && f.row in col
                   && Verdict(col[f.row], sd[init[i].key]) == Ok(Some(f.kind));
          assert groups[i] == init[i];
        } else {
          var gs := GroupFlags(col, g.rows, sd[g.key]).value;
          GroupFlagsExact(col, g.rows, sd[g.key], gs);
          assert f in gs;
        }
      }
    }
  }

  /** Every row of a group with a non-empty key whose value lies outside
      the group's bounds is flagged, with the side it falls on. */
  lemma {:induction false} ThresholdComplete(col: map<int, Value>, groups: seq<Group>, sd: map<string, Bounds>, fs: seq<Flag>)
    requires Threshold(col, groups, sd) == Ok(fs)
    ensures forall i, row, kind :: 0 <= i < |groups| && groups[i].key != "" && row in groups[i].rows
              && groups[i].key in sd && row in col && Verdict(col[row], sd[groups[i].key]) == Ok(Some(kind))
              ==> Flag(row, kind) in fs
    decreases |groups|
  {
    if groups != [] {
      var n := |groups| - 1;
      var init := groups[..n];
      var fs0 := Threshold(col, init, sd).value;
      ThresholdComplete(col, init, sd, fs0);
      var g := groups[n];
      if g.key != "" {
        var gs := GroupFlags(col, g.rows, sd[g.key]).value;
        GroupFlagsExact(col, g.rows, sd[g.key], gs);
      }
      forall i, row, kind | 0 <= i < |groups| && groups[i].key != "" && row in groups[i].rows
          && groups[i].key in sd && row in col && Verdict(col[row], sd[groups[i].key]) == Ok(Some(kind))
        ensures Flag(row, kind) in fs
      {
        if i < n {
          assert init[i] == groups[i];
        }
      }
    }
  }

  /** A withheld value is never flagged. */
  lemma WithheldNeverFlagged(col: map<int, Value>, groups: seq<Group>, sd: map<string, Bounds>, fs: seq<Flag>)
    requires Threshold(col, groups, sd) == Ok(fs)
    ensures forall f :: f in fs ==> f.row in col && !IsWithheld(col[f.row])
  {
    ThresholdSound(col, groups, sd, fs);
  }

  /** `check_threshold(df, ...)` with the groups and bounds it loads: the
      flagged rows of the number column, group by group. The sheet is a
      value, so it is the same after the call. */
  method CheckThreshold(df: Table, groups: seq<Group>, sd: map<string, Bounds>) returns (r: Result<seq<Flag>>)
    requires df.WellFormed()
    ensures GetNumCol(df.columns).Err? ==> r == Err(IndexError)
    ensures GetNumCol(df.columns).Ok? ==> r == Threshold(df.data[GetNumCol(df.columns).value], groups, sd)
  {
    var column := GetNumCol(df.columns);
    if column.Err? {
      return Err(column.error);
    }
    var col := df.data[column.value];
    var cells: seq<Flag> := [];
    assert groups[..0] == [];
    var i := 0;
    while i < |groups|
      invariant 0 <= i <= |groups|
      invariant Threshold(col, groups[..i], sd) == Ok(cells)
    {
      ThresholdSnoc(col, groups, sd, i);
      var item := groups[i].key;
      if item == "" {
        i := i + 1;
        continue;
      }
      if item !in sd {
        ThresholdSticks(col, groups, sd, i + 1);
        return Err(KeyError(item));
      }
      var bounds := sd[item];
      var rows := groups[i].rows;
      ghost var before := cells;
      var deviations: seq<Flag> := [];
      assert rows[..0] == [];
      var j := 0;
      while j < |rows|
        invariant 0 <= j <= |rows|
        invariant GroupFlags(col, rows[..j], bounds) == Ok(deviations)
        invariant cells == before + deviations
      {
        GroupFlagsSnoc(col, rows, bounds, j);
        var row := rows[j];
        if row !in col {
          GroupFlagsSticks(col, rows, bounds, j + 1);
          ThresholdSticks(col, groups, sd, i + 1);
          return Err(KeyError(IntToString(row)));
        }
        var verdict := Verdict(col[row], bounds);
        if verdict.Err? {
          GroupFlagsSticks(col, rows, bounds, j + 1);
          ThresholdSticks(col, groups, sd, i + 1);
          return Err(verdict.error);
        }
        if verdict.value.Some? {
          deviations := deviations + [Flag(row, verdict.value.value)];
          cells := cells + [Flag(row, verdict.value.value)];
        }
        j := j + 1;
      }
      assert rows[..j] == rows;
      i := i + 1;
    }
    assert groups[..i] == groups;
    r := Ok(cells);
  }

  lemma {:induction false} GroupFlagsSticks(col: map<int, Value>, rows: seq<int>, b: Bounds, n: nat)
    requires n <= |rows| && GroupFlags(col, rows[..n], b).Err?
    ensures GroupFlags(col, rows, b) == GroupFlags(col, rows[..n], b)
    decreases |rows| - n
  {
    if n < |rows| {
      GroupFlagsSnoc(col, rows, b, n);
      GroupFlagsSticks(col, rows, b, n + 1);
    } else {
      assert rows[..n] == rows;
    }
  }

  lemma {:induction false} ThresholdSticks(col: map<int, Value>, groups: seq<Group>, sd: map<string, Bounds>, n: nat)
    requires n <= |groups| && Threshold(col, groups[..n], sd).Err?
    ensures Threshold(col, groups, sd) == Threshold(col, groups[..n], sd)
    decreases |groups| - n
  {
    if n < |groups| {
      ThresholdSnoc(col, groups, sd, n);
      ThresholdSticks(col, groups, sd, n + 1);
    } else {
      assert groups[..n] == groups;
    }
  }

  /** The first group whose non-empty key has no bounds makes the whole
      check fail with a KeyError naming that key, whatever follows it. */
  lemma ThresholdFirstError(col: map<int, Value>, groups: seq<Group>, sd: map<string, Bounds>, j: nat)
    requires j < |groups| && groups[j].key != "" && groups[j].key !in sd
    requires Threshold(col, groups[..j], sd).Ok?
    ensures Threshold(col, groups, sd) == Err(KeyError(groups[j].key))
  {
    ThresholdSnoc(col, groups, sd, j);
    ThresholdSticks(col, groups, sd, j + 1);
  }

  /** The flags come in group order: those of the first `i` groups are a
      prefix of the flags of all groups. */
  lemma {:induction false} ThresholdPrefix(col: map<int, Value>, groups: seq<Group>, sd: map<string, Bounds>, i: nat)
    requires i <= |groups| && Threshold(col, groups, sd).Ok?
    ensures Threshold(col, groups[..i], sd).Ok?
    ensures Threshold(col, groups[..i], sd).value <= Threshold(col, groups, sd).value
    decreases |groups| - i
  {
    if i == |groups| {
      assert groups[..i] == groups;
    } else {
      ThresholdPrefix(col, groups, sd, i + 1);
      ThresholdSnoc(col, groups, sd, i);
    }
  }
}
