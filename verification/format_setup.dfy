/** Class Setup of scripts/formatcheck.py: builds the configuration of one
    kind of workbook from a reference sheet that is known to be right. */
module FormatSetup {
  import opened Base
  import opened Strings
  import opened FormatCheck
  import opened FormatChecker

  // ---------------------------------------------------------------------
  // The unit dictionary

  /** `line = split_unit(row); key, value = line[0], line[1]`: the item and
      the unit of one cell, or the exception either step raises. */
  function UnitPair(c: Cell): Result<(string, string)> {
    match SplitUnit(Show(c))
    case Err(e) => Err(e)
    case Ok(line) => if |line| < 2 then Err(IndexError) else Ok((line[0], line[1]))
  }

  /** The pairs of a column, row by row. */
  function PairsOf(cells: seq<Cell>): seq<Result<(string, string)>> {
    seq(|cells|, i requires 0 <= i < |cells| => UnitPair(cells[i]))
  }

  /** The dictionary `get_unit_dict` builds from the item column: each
      row's pair folded in with `add_item`, in row order; the first row
      that raises stops it. */
  function UnitsOf(cells: seq<Cell>): Result<map<string, seq<string>>> {
    Collect(PairsOf(cells))
  }

  function Collect(pairs: seq<Result<(string, string)>>): Result<map<string, seq<string>>>
    decreases |pairs|
  {
    if pairs == [] then Ok(map[])
    else
      match Collect(pairs[..|pairs| - 1])
      case Err(e) => Err(e)
      case Ok(m) =>
        match pairs[|pairs| - 1]
        case Err(e) => Err(e)
        case Ok(kv) => Ok(Added(m, kv.0, kv.1))
  }

  lemma CollectSnoc(pairs: seq<Result<(string, string)>>, i: nat)
    requires i < |pairs|
    ensures Collect(pairs[..i + 1])
         == match Collect(pairs[..i])
            case Err(e) => Err(e)
            case Ok(m) =>
              match pairs[i]
              case Err(e) => Err(e)
              case Ok(kv) => Ok(Added(m, kv.0, kv.1))
  {
    assert pairs[..i + 1][..i] == pairs[..i];
  }

  /** Once a row has raised, the later rows do not matter. */
  lemma {:induction false} CollectSticks(pairs: seq<Result<(string, string)>>, n: nat)
    requires n <= |pairs| && Collect(pairs[..n]).Err?
    ensures Collect(pairs) == Collect(pairs[..n])
    decreases |pairs| - n
  {
    if n < |pairs| {
      CollectSnoc(pairs, n);
      CollectSticks(pairs, n + 1);
    } else {
      assert pairs[..n] == pairs;
    }
  }

  /** The dictionary is built exactly when every row splits into a pair. */
  lemma {:induction false} CollectOk(pairs: seq<Result<(string, string)>>)
    ensures Collect(pairs).Ok? <==> forall i :: 0 <= i < |pairs| ==> pairs[i].Ok?
    decreases |pairs|
  {
    if pairs != [] {
      var init := pairs[..|pairs| - 1];
      CollectOk(init);
      assert forall i :: 0 <= i < |init| ==> init[i] == pairs[i];
    }
  }

  /** Otherwise the exception is the one the first bad row raises. */
  lemma CollectFirstError(pairs: seq<Result<(string, string)>>, j: nat)
    requires j < |pairs| && pairs[j].Err?
    requires forall i :: 0 <= i < j ==> pairs[i].Ok?
    ensures Collect(pairs) == Err(pairs[j].error)
  {
    var init := pairs[..j];
    assert forall i :: 0 <= i < |init| ==> init[i] == pairs[i];
    CollectOk(init);
    CollectSnoc(pairs, j);
    CollectSticks(pairs, j + 1);
  }

  /** Every row's item is a key, with the row's unit among its units. */
  lemma {:induction false} CollectComplete(pairs: seq<Result<(string, string)>>, m: map<string, seq<string>>)
    requires Collect(pairs) == Ok(m)
    ensures forall i :: 0 <= i < |pairs| ==>
              pairs[i].Ok? && pairs[i].value.0 in m && pairs[i].value.1 in m[pairs[i].value.0]
    decreases |pairs|
  {
    if pairs != [] {
      var n := |pairs| - 1;
      var init := pairs[..n];
      var m0 := Collect(init).value;
      CollectComplete(init, m0);
      forall i | 0 <= i < |pairs|
        ensures pairs[i].Ok? && pairs[i].value.0 in m && pairs[i].value.1 in m[pairs[i].value.0]
      {
        if i < n {
          assert init[i] == pairs[i];
        }
      }
    }
  }

  /** Every key and unit comes from some row. */
  lemma {:induction false} CollectSound(pairs: seq<Result<(string, string)>>, m: map<string, seq<string>>)
    requires Collect(pairs) == Ok(m)
    ensures forall k, v :: k in m && v in m[k] ==> Ok((k, v)) in pairs
    decreases |pairs|
  {
    if pairs != [] {
      var n := |pairs| - 1;
      var init := pairs[..n];
      var m0 := Collect(init).value;
      CollectSound(init, m0);
      forall k, v | k in m && v in m[k]
        ensures Ok((k, v)) in pairs
      {
        if pairs[n] != Ok((k, v)) {
          assert Ok((k, v)) in init;
          var i :| 0 <= i < |init| && init[i] == Ok((k, v));
          assert pairs[i] == init[i];
        }
      }
    }
  }

  /** No unit is listed twice for an item. */
  lemma {:induction false} CollectDistinct(pairs: seq<Result<(string, string)>>, m: map<string, seq<string>>)
    requires Collect(pairs) == Ok(m)
    ensures forall k :: k in m ==> NoDup(m[k])
    decreases |pairs|
  {
    if pairs != [] {
      var init := pairs[..|pairs| - 1];
      var m0 := Collect(init).value;
      CollectDistinct(init, m0);
      var kv := pairs[|pairs| - 1].value;
      AddedKeepsDistinct(m0, kv.0, kv.1);
    }
  }

  // ---------------------------------------------------------------------
  // The field dictionary

  /** `col_wlist`: columns that hold numbers or free text, and the item
      column, which the unit check covers. */
  const Whitelist: set<string> := {"Revenue", "Volume", "Month", "Production Volume", "Total", "Calendar Year"}

  function Skipped(columns: seq<string>): set<string> {
    Whitelist + {GetComPro(columns)}
  }

  /** `list({i for i in df[col]})`: the distinct values of a column. */
  function ValuesOf(col: seq<Cell>): set<Cell> {
    set x | x in col
  }

  /** The field dictionary has one entry per column outside the whitelist,
      holding exactly the values found in that column. */
  ghost predicate DescribesFields(columns: seq<string>, data: map<string, seq<Cell>>, fields: map<string, set<Cell>>) {
    && (forall c :: c in fields <==> c in columns && c !in Skipped(columns))
    && (forall c :: c in fields ==> c in data && fields[c] == ValuesOf(data[c]))
  }

  // ---------------------------------------------------------------------
  // The configuration

  /** `get_na_check`, spelled as in the script. */
  const NaCheck: seq<string> :=
    ["Calendar Year", "Corperate Name", "Ficsal Year", "Mineral Lease Type", "Month", "Onshore/Offshore", "Volume"]

  /** `get_replace_dict` */
  const ReplaceDict: map<string, string> := map["Mining-Unspecified" := "Humate"]

  /** `cfg` is the configuration `write_config` writes for a sheet with
      these columns and cells. */
  ghost predicate MadeFrom(cfg: Config, columns: seq<string>, data: map<string, seq<Cell>>) {
    var col := GetComPro(columns);
    && cfg.header == columns
    && (col == "n/a" ==> cfg.unitDict == None)
    && (col != "n/a" ==> col in data && UnitsOf(data[col]).Ok? && cfg.unitDict == Some(UnitsOf(data[col]).value))
    && DescribesFields(columns, data, cfg.fieldDict)
    && cfg.replaceDict == ReplaceDict
    && cfg.naCheck == NaCheck
  }

  /** A sheet without repeated columns passes the header check against its
      own header: every field is in place and no column is new. */
  lemma ReferenceHeaderPasses(columns: seq<string>)
    requires NoDup(columns)
    ensures forall i: nat :: i < |columns| ==> !Faulty(columns, columns, i)
    ensures Classifies(columns, columns, seq(|columns|, i => InPlace))
    ensures forall rep :: ReportsNewColumns(columns, columns, rep) ==> rep.newCols == {} && rep.whitespace == {}
  {
  }

  /** Every cell of the item column passes the unit check against the
      dictionary built from that column, listed for replacement or not. */
  lemma ReferenceUnitsPass(cfg: Config, cells: seq<Cell>)
    requires UnitsOf(cells).Ok? && cfg.unitDict == Some(UnitsOf(cells).value)
    ensures forall i :: 0 <= i < |cells| ==> UnitStep(cfg, cells[i]) == Ok(false)
  {
    var m := UnitsOf(cells).value;
    CollectComplete(PairsOf(cells), m);
    forall i | 0 <= i < |cells|
      ensures UnitStep(cfg, cells[i]) == Ok(false)
    {
      var c := cells[i];
      assert PairsOf(cells)[i] == UnitPair(c);
      if c != Empty {
        var line := SplitUnit(Show(c)).value;
        assert |line| >= 2 && line[0] in m && line[1] in m[line[0]];
        assert CheckUnit(c, cfg.unitDict) == Ok(false);
      }
    }
  }

  /** No cell of the sheet is flagged by the categorical check against the
      field dictionary built from that sheet. */
  lemma ReferenceFieldsPass(columns: seq<string>, data: map<string, seq<Cell>>, fields: map<string, set<Cell>>)
    requires DescribesFields(columns, data, fields)
    ensures forall c, i :: c in data && 0 <= i < |data[c]| ==> !MiscFlag(fields, c, data[c][i])
  {
    forall c, i | c in data && 0 <= i < |data[c]| && c in fields
      ensures data[c][i] in fields[c]
    {
      assert data[c][i] in data[c];
    }
  }

  /** The purpose of `Setup`: a configuration written from a reference
      sheet accepts that sheet in every check that compares with it. */
  lemma ReferenceSheetPasses(cfg: Config, columns: seq<string>, data: map<string, seq<Cell>>)
    requires MadeFrom(cfg, columns, data) && NoDup(columns)
    ensures forall i: nat :: i < |cfg.header| ==> !Faulty(cfg.header, columns, i)
    ensures Classifies(cfg.header, columns, seq(|columns|, i => InPlace))
    ensures var col := GetComPro(columns);
            col != "n/a" ==> forall i :: 0 <= i < |data[col]| ==> UnitStep(cfg, data[col][i]) == Ok(false)
    ensures forall c, i :: c in data && 0 <= i < |data[c]| ==> !MiscFlag(cfg.fieldDict, c, data[c][i])
  {
    ReferenceHeaderPasses(columns);
    var col := GetComPro(columns);
    if col != "n/a" {
      ReferenceUnitsPass(cfg, data[col]);
    }
    ReferenceFieldsPass(columns, data, cfg.fieldDict);
  }

  // ---------------------------------------------------------------------
  // The class

  class Setup {
    const df: Frame

    constructor (df: Frame)
      ensures this.df == df
    {
      this.df := df;
    }

    /** `get_header`: the reference sheet's columns, in order. */
    method GetHeader() returns (header: seq<string>)
      ensures header == df.columns
    {
      header := df.columns;
    }

    /** `get_unit_dict`: None without an item column, else the dictionary
        of the item column's pairs; a cell that does not split raises. */
    method GetUnitDict() returns (r: Result<Option<map<string, seq<string>>>>)
      requires df.Valid()
      ensures GetComPro(df.columns) == "n/a" ==> r == Ok(None)
      ensures var col := GetComPro(df.columns);
              col != "n/a" ==>
                && col in df.data
                && (r.Ok? <==> UnitsOf(df.data[col]).Ok?)
                && (r.Ok? ==> r.value == Some(UnitsOf(df.data[col]).value))
                && (r.Err? ==> r.error == UnitsOf(df.data[col]).error)
      ensures r.Err? ==> r.error == IndexError
    {
      var col := GetComPro(df.columns);
      if col == "n/a" {
        return Ok(None);
      }
      var cells := df.data[col];
      ghost var pairs := PairsOf(cells);
      var units := new Vocabulary();
      assert pairs[..0] == [];
      var i := 0;
      while i < |cells|
        invariant 0 <= i <= |cells|
        invariant Collect(pairs[..i]) == Ok(units.entries)
      {
        CollectSnoc(pairs, i);
        var line := SplitUnit(Show(cells[i]));
        if line.Err? || |line.value| < 2 {
          CollectSticks(pairs, i + 1);
          return Err(if line.Err? then line.error else IndexError);
        }
        AddItem(line.value[0], line.value[1], units);
        i := i + 1;
      }
      assert pairs[..i] == pairs;
      r := Ok(Some(units.entries));
    }

    /** `get_misc_cols`: for each column outside the whitelist and other
        than the item column, the set of values it holds. */
    method GetMiscCols() returns (fields: map<string, set<Cell>>)
      requires df.Valid()
      ensures DescribesFields(df.columns, df.data, fields)
    {
      var skip := Whitelist + {GetComPro(df.columns)};
      fields := map[];
      var k := 0;
      while k < |df.columns|
        invariant 0 <= k <= |df.columns|
        invariant forall c :: c in fields <==> c in df.columns[..k] && c !in skip
        invariant forall c :: c in fields ==> c in df.data && fields[c] == ValuesOf(df.data[c])
      {
        var col := df.columns[k];
        assert df.columns[..k + 1] == df.columns[..k] + [col];
        if col !in skip {
          fields := fields[col := set x | x in df.data[col]];
        }
        k := k + 1;
      }
      assert df.columns[..k] == df.columns;
    }

    /** `write_config`: the dictionary the script dumps as JSON; no
        configuration is returned when building the unit dictionary raises. */
    method WriteConfig() returns (r: Result<Config>)
      requires df.Valid()
      ensures var col := GetComPro(df.columns);
              r.Ok? <==> col == "n/a" || (col in df.data && UnitsOf(df.data[col]).Ok?)
      ensures r.Ok? ==> MadeFrom(r.value, df.columns, df.data)
      ensures r.Err? ==> r.error == IndexError
    {
      var header := GetHeader();
      var units := GetUnitDict();
      if units.Err? {
        return Err(units.error);
      }
      var fields := GetMiscCols();
      r := Ok(Config(header, units.value, fields, ReplaceDict, NaCheck));
    }
  }
}
