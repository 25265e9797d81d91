/** The free functions of scripts/formatcheck.py and the sheet they work on. */
module FormatCheck {
  import opened Base
  import opened Strings
  import ConfigKey

  /** A cell of a sheet read with its empty cells filled by ''. */
  datatype Cell = Text(s: string) | Num(n: int)

  const Empty: Cell := Text("")

  /** Python's str() of a cell. */
  function Show(c: Cell): string {
    match c
    case Text(s) => s
    case Num(n) => IntToString(n)
  }

  /** The marker the checks put in front of a cell they reject. */
  const Marker: string := "[!]"

  /** What `'[!]' + cell` leaves in a cell whose check failed. */
  function Mark(c: Cell): Cell
    requires c.Text?
  {
    Text(Marker + c.s)
  }

  /** `after` is `before`, or, when `flag` holds, `before` with the marker. */
  ghost predicate SameOrMarked(before: Cell, after: Cell, flag: bool) {
    after == before || (flag && before.Text? && after == Mark(before))
  }

  /** A pandas DataFrame: its column names in order and, per column, its
      cells by row; `loc[row, col] = v` updates one cell in place. */
  class Frame {
    var columns: seq<string>
    var data: map<string, seq<Cell>>
    var height: nat

    ghost predicate Valid()
      reads this
    {
      && (forall c :: c in columns <==> c in data)
      && (forall c :: c in data ==> |data[c]| == height)
    }

    constructor (columns: seq<string>, data: map<string, seq<Cell>>, height: nat)
      requires forall c :: c in columns <==> c in data
      requires forall c :: c in data ==> |data[c]| == height
      ensures Valid()
      ensures this.columns == columns && this.data == data && this.height == height
    {
      this.columns := columns;
      this.data := data;
      this.height := height;
    }

    /** `df.loc[row, col] = v` */
    method Set(col: string, row: nat, v: Cell)
      requires Valid() && col in data && row < height
      modifies this
      ensures Valid()
      ensures columns == old(columns) && height == old(height)
      ensures data == old(data)[col := old(data)[col][row := v]]
    {
      data := data[col := data[col][row := v]];
    }
  }

  /** Splits a cell such as "Coal (Short Tons)" or "Steam, MCF" into its
      item and its unit. Like the script it returns a list: two elements
      normally, one when a comma is not followed by a space; a '(' with no
      " (" before it makes the script's `split[1]` raise IndexError. */
  function SplitUnit(s: string): (r: Result<seq<string>>)
    // a '(' : split at the last " (" and drop the closing parentheses
    ensures '(' in s ==> (r.Ok? <==> Contains(s, " ("))
    ensures '(' in s && r.Ok? ==>
              && |r.value| == 2
              && var i := |r.value[0]|;
              && OccursAt(s, " (", i) && r.value[0] == s[..i]
              && (forall j: nat :: i < j ==> !OccursAt(s, " (", j))
              && StripsTo(s[i + 2..], r.value[1], ')')
    // no '(' but a ',' : split at the first ", " only
    ensures '(' !in s && ',' in s ==> r.Ok?
    ensures '(' !in s && ',' in s && Contains(s, ", ") ==>
              && |r.value| == 2
              && var i := |r.value[0]|;
              && OccursAt(s, ", ", i) && r.value[0] == s[..i] && r.value[1] == s[i + 2..]
              && (forall j: nat :: j < i ==> !OccursAt(s, ", ", j))
    ensures '(' !in s && ',' in s && !Contains(s, ", ") ==> r.value == [s]
    // neither: the whole cell is the item and the unit is empty
    ensures '(' !in s && ',' !in s ==> r == Ok([s, ""])
    // the only exception is the IndexError of `split[1]`
    ensures r.Err? ==> r.error == IndexError
  {
    if '(' in s then
      match FindLast(s, " (")
      case None => Err(IndexError)
      case Some(i) => Ok([s[..i], RStrip(s[i + 2..], ')')])
    else if ',' in s then
      match FindFirst(s, ", ")
      case None => Ok([s])
      case Some(i) => Ok([s[..i], s[i + 2..]])
    else
      Ok([s, ""])
  }

  /** The item column: "Commodity" when the sheet has one, else "Product",
      else the sentinel "n/a". */
  function GetComPro(columns: seq<string>): (r: string)
    ensures r == "Commodity" <==> "Commodity" in columns
    ensures r == "Product" <==> "Product" in columns && "Commodity" !in columns
    ensures r == "n/a" <==> "Product" !in columns && "Commodity" !in columns
    ensures r != "n/a" ==> r in columns
  {
    if "Product" !in columns && "Commodity" !in columns then "n/a"
    else if "Commodity" in columns then "Commodity"
    else "Product"
  }

  /** The dictionary `dct` after `add_item(key, value, dct)`. */
  function Added(m: map<string, seq<string>>, key: string, value: string): (r: map<string, seq<string>>)
    ensures key in r && value in r[key]
    ensures forall k :: k != key ==> (k in r <==> k in m)
    ensures forall k :: k != key && k in m ==> r[k] == m[k]
    // the list grows, by `value` alone, only when `value` was not in it
    ensures key in m && value in m[key] ==> r[key] == m[key]
    ensures key in m && value !in m[key] ==> r[key] == m[key] + [value]
    ensures key !in m ==> r[key] == [value]
  {
    if key in m then
      if value !in m[key] then m[key := m[key] + [value]] else m
    else m[key := [value]]
  }

  /** Folding pairs in never introduces a duplicate unit for an item. */
  lemma AddedKeepsDistinct(m: map<string, seq<string>>, key: string, value: string)
    requires forall k :: k in m ==> NoDup(m[k])
    ensures forall k :: k in Added(m, key, value) ==> NoDup(Added(m, key, value)[k])
  {
  }

  /** A dictionary of lists that the script updates in place. */
  class Vocabulary {
    var entries: map<string, seq<string>>

    constructor ()
      ensures entries == map[]
    {
      entries := map[];
    }
  }

  /** `add_item(key, value, dct)`: adds `value` to the list under `key`
      unless it is already there, creating the list when `key` is new. */
  method AddItem(key: string, value: string, dct: Vocabulary)
    modifies dct
    ensures dct.entries == Added(old(dct.entries), key, value)
  {
    if key in dct.entries {
      if value !in dct.entries[key] {
        dct.entries := dct.entries[key := dct.entries[key] + [value]];
      }
    } else {
      dct.entries := dct.entries[key := [value]];
    }
  }

  /** `get_prefix`: the configuration key of a workbook, ending in '_'. */
  method GetPrefix(name: string) returns (prefix: string)
    ensures prefix == ConfigKey.Concat(ConfigKey.Matched(Lower(name), ConfigKey.Keywords)) + "_"
  {
    var lower := Lower(name);
    var prefixes := ConfigKey.Keywords;
    var finalPrefix := "";
    var i := 0;
    while i < |prefixes|
      invariant 0 <= i <= |prefixes|
      invariant finalPrefix == ConfigKey.Concat(ConfigKey.Matched(lower, prefixes[..i]))
    {
      ConfigKey.MatchedSnoc(lower, prefixes, i);
      if Contains(lower, prefixes[i]) {
        ConfigKey.ConcatSnoc(ConfigKey.Matched(lower, prefixes[..i]), prefixes[i]);
        finalPrefix := finalPrefix + prefixes[i];
      } else {
        assert ConfigKey.Matched(lower, prefixes[..i]) + [] == ConfigKey.Matched(lower, prefixes[..i]);
      }
      i := i + 1;
    }
    assert prefixes[..i] == prefixes;
    prefix := finalPrefix + "_";
  }

  /** `_check_unit`: true (the script's 1) when the cell names a known item
      with a unit not listed for it, or an unknown non-empty item. The
      configured dictionary is None when the reference sheet had no item
      column. */
  function CheckUnit(c: Cell, units: Option<map<string, seq<string>>>): (r: Result<bool>)
    ensures c == Empty ==> r == Ok(false)
    ensures c != Empty && SplitUnit(Show(c)).Err? ==> r == Err(IndexError)
    ensures c != Empty && SplitUnit(Show(c)).Ok? && units.None? ==> r == Err(AttributeError)
    ensures c != Empty && SplitUnit(Show(c)).Ok? && units.Some? ==>
              var line, m := SplitUnit(Show(c)).value, units.value;
              && (r == Err(IndexError) <==> line[0] in m && |line| < 2)
              && (r == Ok(true) <==>
                    (line[0] in m && |line| == 2 && line[1] !in m[line[0]])
                    || (line[0] !in m && line[0] != ""))
              && (r.Ok? || r == Err(IndexError))
  {
    if c == Empty then Ok(false)
    else
      match SplitUnit(Show(c))
      case Err(e) => Err(e)
      case Ok(line) =>
        if units.None? then Err(AttributeError)
        else if line[0] in units.value then
          if |line| < 2 then Err(IndexError)
          else Ok(line[1] !in units.value[line[0]])
        else Ok(line[0] != "")
  }
}
