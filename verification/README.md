# Revenue data quality checks, modelled in Dafny

The repository has two scripts that check the Excel tables behind the
ONRR revenue data before they are published.

`scripts/formatcheck.py` has two parts:

- A **Setup** builds a JSON configuration from a reference sheet. The
  configuration holds:
  - the header;
  - a unit dictionary, mapping each commodity or product item to the units
    seen for it;
  - a field dictionary, giving each categorical column its allowed values;
  - a replacement dictionary;
  - the list of columns that must not be empty.
- A **FormatChecker** checks a new sheet against that configuration. It
  reports header fields that are missing or out of order, and columns the
  configuration does not know. It marks unexpected item/unit cells and
  unexpected categorical values by prefixing `[!]`. It lists
  out-of-range years, replaces empty required cells with `[!]`, and counts
  withheld (`W`/`Withheld`) entries.

`scripts/numberchecker.py` groups the rows of a sheet. For each group it
derives bounds of mean ± k·std, falling back to (min, max) when the
deviation is undefined. It then flags every value that lies below or above
its group's bounds.

Layout:

| file | module | contents |
|---|---|---|
| `base.dfy` | `Base` | the Python exceptions the scripts can raise, `Result`, `Option` |
| `strings.dfy` | `Strings` | `find`/`rfind`/`rstrip` on strings with their meaning as contracts, and `in` (through `find`) and `lower` (ASCII letters only) as plain definitions |
| `config_key.dfy` | `ConfigKey` | the keyword list shared by both `get_prefix` functions |
| `formatcheck.dfy` | `FormatCheck` | the sheet (`Frame`, a class whose cells are updated in place) and the free functions `split_unit`, `add_item`, `get_prefix`, `get_com_pro`, `_check_unit` |
| `format_checker.dfy` | `FormatChecker` | the `FormatChecker` class and the specification functions for its checks |
| `format_setup.dfy` | `FormatSetup` | the `Setup` class, the configuration it produces, and the proof that a reference sheet passes the checks built from it |
| `numberchecker.dfy` | `NumberCheck` | `get_prefix`, `get_num_col`, `get_sd`, `check_threshold` |

A cell of the format checker is `Text(s)` or `Num(n)`. A pandas cell that
the script would raise on is an `Err` of the matching exception: `[1]` on a
one-element split is `IndexError`, a missing dictionary key is
`KeyError`, `'[!]' + number` is `TypeError`, and a membership test on a
`None` unit dictionary (`default.__contains__`) is `AttributeError`.
Methods that mark cells state the whole new table, and state that only the
flagged cells change. After a raise they state which rows the loop had
already marked and that the offending row and every later row are untouched.

## Model

| member | source | states |
|---|---|---|
| Strings.FindFirst | scripts/formatcheck.py:306 | the position returned is an occurrence of the pattern and no earlier position is one; None means there is no occurrence |
| Strings.FindLast | scripts/formatcheck.py:301 | the position returned is an occurrence and no later position is one; None means there is no occurrence |
| Strings.RStrip | scripts/formatcheck.py:302 | the result is a prefix of the input, is followed only by the stripped character, and does not itself end in it |
| FormatCheck.SplitUnit | scripts/formatcheck.py:297-308 | with a `(`: splits at the last ` (`, and the unit is the rest with trailing `)` stripped; with a `(` but no ` (`, it raises IndexError. Otherwise, with a `,`: splits at the first `, ` only, or returns the one-element list when there is no `, `. Otherwise it returns `[s, ""]` |
| FormatCheck.GetComPro | scripts/formatcheck.py:312-318 | `Commodity` exactly when that column exists; `Product` exactly when it exists and `Commodity` does not; `n/a` exactly when neither exists; any other answer is a column of the sheet |
| FormatCheck.Added | scripts/formatcheck.py:263-277 | afterwards the key is present and holds the value; the list grows by the value only when the value was absent; a new key gets `[value]`; every other key is unchanged |
| FormatCheck.AddedKeepsDistinct | scripts/formatcheck.py:270-273 | adding an item never creates a duplicate in any list |
| FormatCheck.AddItem | scripts/formatcheck.py:263-277 | the vocabulary's new entries are those of `Added` applied to its old entries |
| FormatCheck.GetPrefix | scripts/formatcheck.py:280-293 | the keywords occurring in the lower-cased name, concatenated in list order, followed by `_` |
| ConfigKey.MatchedMembers | scripts/formatcheck.py:289-291 | a keyword is in the prefix list exactly when it is one of the fixed keywords and occurs in the name |
| ConfigKey.MatchedSplits | scripts/formatcheck.py:289-291 | scanning the keywords in two halves gives the concatenation of the two scans, so order is kept |
| FormatCheck.CheckUnit | scripts/formatcheck.py:120-135 | `''` is accepted. An unsplittable cell raises IndexError. A missing unit dictionary raises AttributeError. A cell is rejected exactly when its item is known and its unit is not listed for it, or when its item is unknown and non-empty. A known item with no unit raises IndexError |
| Strings.Contains | scripts/formatcheck.py:291 | plain definition: Python's `p in s` on strings, as `find` succeeding |
| ConfigKey.Keywords | scripts/formatcheck.py:287-288 | plain definition: the nine prefix keywords in the source's order, shared with scripts/numberchecker.py:19-20 |
| FormatCheck.Mark | scripts/formatcheck.py:112 | plain definition: `'[!]' + cell` on a text cell |
| FormatChecker.IsWithheld | scripts/formatcheck.py:53 | plain definition: `entry in ('W', 'Withheld')` |
| FormatChecker.Replaceable | scripts/formatcheck.py:107 | plain definition: `replace and replace.__contains__(cell)`: a non-empty replacement dictionary has the cell's text as a key |
| FormatChecker.RowOutcome | scripts/formatcheck.py:107-112 | plain definition: one row of `check_unit_dict`: not flagged when replaceable; otherwise the verdict, with a flagged number raising TypeError at the `'[!]' + cell` |
| FormatChecker.MiscFlag | scripts/formatcheck.py:150 | plain definition: a non-empty cell outside the field's recorded values |
| FormatSetup.UnitPair | scripts/formatcheck.py:213-214 | plain definition: the (item, unit) of a cell, or IndexError when the split has fewer than two parts |
| FormatSetup.ValuesOf | scripts/formatcheck.py:227 | plain definition: the set of a column's values |
| NumberCheck.IsWithheld | scripts/numberchecker.py:141 | plain definition: `value in ('W', 'Withheld')` |
| Strings.HasOuterSpace | scripts/formatcheck.py:85 | plain definition: the name starts or ends with a space |
| Strings.Lower | scripts/formatcheck.py:286 | plain definition: `str.lower` on ASCII letters |
| Strings.IntToString | scripts/formatcheck.py:298 | plain definition: `str()` of an integer, in decimal with a leading `-` when negative |
| FormatCheck.Show | scripts/formatcheck.py:298 | plain definition: `str()` of a cell, the text itself or the decimal rendering of a number |
| FormatCheck.Frame.Set | scripts/formatcheck.py:112 | `df.loc[row, col] = v`: exactly that cell of that column takes the new value, and the columns and height stay |
| FormatChecker.InYearRange | scripts/formatcheck.py:166-168 | plain definition: membership in `range(current_year, 1969, -1)`, an integer from 1970 to the current year |
| FormatChecker.CountWithheldIsSize | scripts/formatcheck.py:52-54 | the withheld count of a column is the number of rows holding `W` or `Withheld` |
| FormatChecker.FormatChecker.CountIn | scripts/formatcheck.py:52-54 | the loop's count equals the withheld count of the column |
| FormatChecker.FormatChecker.GetWCount | scripts/formatcheck.py:43-61 | the two withheld counts of `Volume` and `State`, each 0 when its column is absent |
| FormatChecker.FormatChecker.CheckHeader | scripts/formatcheck.py:64-86 | succeeds exactly when no present field sits past the sheet's width or repeats. On success, each configured field is classified once: in place iff at the same index, not present iff absent, reordered otherwise. The new columns are exactly the sheet's columns missing from the header, and the whitespace list is exactly those of them with a leading or trailing space. On failure, the error comes from the first faulty field |
| FormatChecker.NarrowSheetFaults | scripts/formatcheck.py:70-73 | header `[Commodity, Volume, State]` against columns `[Commodity, State]` makes `State` the first faulty field |
| FormatChecker.FormatChecker.CheckHeaderGuarded | scripts/formatcheck.py:64-86 | as `CheckHeader`, but failing only on a repeated field, so every sheet is classified when the header has no duplicates |
| FormatChecker.GuardedClassifiesAll | scripts/formatcheck.py:64-86 | a header without duplicates never makes the guarded check fail |
| FormatChecker.RowsHoldingMembers | scripts/formatcheck.py:106-108 | the recorded row numbers are exactly the 1-based rows holding the key |
| FormatChecker.ReplacementsSnoc | scripts/formatcheck.py:103-108 | processing one more row appends `row + 1` to the list of the key that row holds, and to no other list |
| FormatChecker.FormatChecker.CheckUnitDict | scripts/formatcheck.py:89-117 | returns `No Units Available` and changes nothing when there is no item column. Otherwise only the item column changes; a cell gets `[!]` exactly when `_check_unit` rejects it and it is not a replacement key. It succeeds iff no row raises, and then returns, for each replacement key, the 1-based rows holding it; otherwise it returns the exception of the first row that raises, with the rows before it marked by their verdict and that row and the later ones unchanged |
| FormatChecker.FormatChecker.MarkRejected | scripts/formatcheck.py:103-113 | the row loop: only the given column changes, every cell is kept or marked according to its verdict, the loop fails iff some row's verdict fails, and then with the exception of the first such row, the rows before it marked and the rest untouched; the replacement bookkeeping is the one of `Replacements` |
| FormatChecker.FormatChecker.MarkRow | scripts/formatcheck.py:104-113 | one row: the outcome is the row's verdict; on error nothing changes; otherwise only that cell changes, to its marked form exactly when flagged |
| FormatChecker.YearBounds | scripts/formatcheck.py:166 | for any current year from 1970 on: 1970 and the current year are accepted, 1969 and the year after the current one are not, and a year given as text never is |
| FormatChecker.FormatChecker.CheckYear | scripts/formatcheck.py:159-169 | lists exactly the rows, in order, whose value is not an integer year in [1970, current year] |
| FormatChecker.FormatChecker.CheckMiscCols | scripts/formatcheck.py:138-156 | checks the years of `Calendar Year`, else of `Fiscal Year`, else none. Only non-empty cells outside their field's allowed values change, and they change by gaining `[!]`. It succeeds iff every such cell is text, and the new table is then every configured field's column marked; the only exception is TypeError |
| FormatChecker.FormatChecker.CheckFields | scripts/formatcheck.py:146-154 | the field loop: the same marking, success condition and TypeError as above, over every configured field |
| FormatChecker.MarkedFieldsStep | scripts/formatcheck.py:146-154 | checking one more field updates that field's column and no other, and a field the sheet lacks changes nothing |
| FormatChecker.FormatChecker.MarkUnexpected | scripts/formatcheck.py:147-154 | one field: only its column changes, and exactly its unexpected non-empty cells gain `[!]`; a number among them raises TypeError, leaving the rows before the first such number marked and that row and the later ones untouched |
| FormatChecker.FormatChecker.CheckNan | scripts/formatcheck.py:172-181 | in every required column the sheet has, exactly the `''` cells become `[!]`; every other cell is unchanged |
| FormatSetup.Setup.GetHeader | scripts/formatcheck.py:201-202 | the header is the sheet's column list |
| FormatSetup.Setup.GetUnitDict | scripts/formatcheck.py:206-216 | None when there is no item column; otherwise the fold of `add_item` over the split cells, and the first split error when one raises, which is always IndexError |
| FormatSetup.CollectOk | scripts/formatcheck.py:211-215 | building the unit dictionary succeeds iff every cell splits into two parts |
| FormatSetup.CollectFirstError | scripts/formatcheck.py:211-215 | a failure is the error of the first cell that does not split |
| FormatSetup.CollectSticks | scripts/formatcheck.py:211-215 | once the fold has raised, later cells do not change the outcome |
| FormatSetup.CollectComplete | scripts/formatcheck.py:211-215 | every cell's item is a key of the built dictionary, with its unit in the key's list |
| FormatSetup.CollectSound | scripts/formatcheck.py:211-215 | every (item, unit) in the dictionary comes from a cell |
| FormatSetup.CollectDistinct | scripts/formatcheck.py:263-277 | no list in the built dictionary holds a unit twice |
| FormatSetup.Setup.GetMiscCols | scripts/formatcheck.py:220-228 | the fields are exactly the columns outside the fixed whitelist and the item column, each mapped to the set of its values |
| FormatSetup.Whitelist | scripts/formatcheck.py:221-222 | plain definition: the six columns `get_misc_cols` never treats as fields |
| FormatSetup.Skipped | scripts/formatcheck.py:221-223 | plain definition: the whitelist plus the item column chosen by `get_com_pro` (`n/a` when there is none) |
| FormatSetup.NaCheck | scripts/formatcheck.py:231-233 | plain definition: the seven required columns, with the source's spellings |
| FormatSetup.ReplaceDict | scripts/formatcheck.py:236-237 | plain definition: `Mining-Unspecified` is to be replaced by `Humate` |
| FormatSetup.Setup.WriteConfig | scripts/formatcheck.py:246-259 | succeeds iff the unit dictionary builds, and then holds the header, units, fields, replacement dictionary and required columns of the sheet; otherwise it fails with IndexError |
| FormatSetup.ReferenceHeaderPasses | scripts/formatcheck.py:64-86 | a sheet without repeated columns passes its own header: no field is faulty, all are in place, and any header report for it has no new columns and no whitespace columns |
| FormatSetup.ReferenceUnitsPass | scripts/formatcheck.py:120-135 | every item cell of the reference sheet is accepted by the unit check built from it |
| FormatSetup.ReferenceFieldsPass | scripts/formatcheck.py:146-154 | no cell of the reference sheet is flagged by the field check built from it |
| FormatSetup.ReferenceSheetPasses | scripts/formatcheck.py:246-259 | a configuration written from a sheet accepts that sheet's header, units and fields |
| NumberCheck.GetPrefix | scripts/numberchecker.py:12-25 | the same keyword concatenation as the format checker's, without the trailing `_` |
| NumberCheck.GetNumCol | scripts/numberchecker.py:29-38 | `Revenues` when present, otherwise the last column; IndexError exactly when there are no columns |
| NumberCheck.GroupBounds | scripts/numberchecker.py:56-61 | (min, max) when the deviation is undefined; otherwise bounds symmetric about the mean at distance k·std |
| NumberCheck.BoundsOrdered | scripts/numberchecker.py:56-61 | for a non-negative multiplier and consistent statistics, lower ≤ mean ≤ upper |
| NumberCheck.SingleRowBounds | scripts/numberchecker.py:58-59 | a one-row group's bounds collapse to its value: that value is never flagged, and any other value is |
| NumberCheck.SdDictKeys | scripts/numberchecker.py:51-55 | the dictionary has an entry for exactly the non-empty group keys |
| NumberCheck.SdDictLast | scripts/numberchecker.py:56-61 | a key's entry holds the bounds of the last group with that key |
| NumberCheck.GetSd | scripts/numberchecker.py:41-62 | the per-group bounds dictionary, or IndexError when a group's table has no columns |
| NumberCheck.Verdict | scripts/numberchecker.py:140-148 | withheld and missing values are never flagged. Other text raises TypeError. A number is Low iff below the lower bound, and High iff at least the lower bound and above the upper bound |
| NumberCheck.GroupFlagsOk | scripts/numberchecker.py:139-148 | a group's rows are checked without error iff each row exists and none holds non-withheld text |
| NumberCheck.GroupFlagsExact | scripts/numberchecker.py:139-148 | a group's flags are exactly its rows whose values lie on the flagged side |
| NumberCheck.ThresholdOk | scripts/numberchecker.py:127-154 | the check succeeds iff every non-empty group key has bounds and every such group is checked without error |
| NumberCheck.ThresholdSound | scripts/numberchecker.py:127-154 | every flag is a row of a non-empty-key group whose value lies on the flagged side of that group's bounds |
| NumberCheck.ThresholdComplete | scripts/numberchecker.py:127-154 | every row of a non-empty-key group whose value lies outside the bounds is flagged |
| NumberCheck.WithheldNeverFlagged | scripts/numberchecker.py:141-142 | a `W` or `Withheld` value is never flagged |
| NumberCheck.GroupFlagsSticks | scripts/numberchecker.py:139-148 | once a row raises, the rest of the group does not change the outcome |
| NumberCheck.ThresholdFirstError | scripts/numberchecker.py:131-137 | the first group whose non-empty key has no bounds makes the check fail with `KeyError` of that key |
| NumberCheck.ThresholdPrefix | scripts/numberchecker.py:131-154 | the flags come in group-iteration order: the flags of the first `i` groups are a prefix of all the flags |
| NumberCheck.ThresholdSticks | scripts/numberchecker.py:131-137 | once a group raises, later groups do not change the outcome |
| NumberCheck.CheckThreshold | scripts/numberchecker.py:127-154 | the nested loops return the flags of `Threshold` on the numeric column, or IndexError when the table has no columns; the table is only read |

## Left out

- The tkinter windows, the file dialogs, and the console prompts (`get_col_input`, `print_cols`) are user interface.
- Reading the Excel workbook and its preprocessing are left out: `fillna`, replacing `W` by 0, `dropna`, `check_sheet_name`. Writing the export (`export_excel`, `write_export`) is left out too.
- The JSON side is left out: `read_config`, `update_config`, `make_config_path`, and the `FormatChecker` constructor that loads the file. A configuration is a `Config` value handed to the class, and `write_config` returns the dictionary it would dump.
- `do_check` and the numberchecker driver only sequence the checks and are not modelled.
- `check_year` reads the clock. The current year is a parameter.
- pandas `groupby` and `set_groups` are not modelled. A grouping is a sequence of (key, row labels) with the key already rendered by `str`.
- NumberCheck.GroupBounds: the mean, standard deviation, minimum and maximum are inputs. An undefined (NaN) deviation is `None`. Floating-point rounding is not modelled, and `real` stands for a float. A NaN minimum or maximum is not modelled either: in a group whose number cells are all blank, the source stores `(nan, nan)`, both comparisons are false, and that group is never flagged.
- NumberCheck.Verdict: comparing a number with text raises TypeError. Comparisons between numbers and non-numeric cells beyond that are not modelled.
- The printed messages, their row offsets, and the `invalid`/`is_replaced` flags that only decide whether a message is printed are left out.
- FormatCheck.CheckUnit: a number in any cell of the format checks (`Cell.Num`) is an integer. Float cells are not modelled, so neither is `str()` of a float nor a non-integral year, which `check_year` would always list as invalid.
- Strings.Lower folds only ASCII letters, not all of Unicode.
- The order in which Python iterates `field_dict` is not modelled. The field loop takes the fields in an arbitrary order. The returned result, and the table when the loop succeeds, do not depend on that order. On a TypeError, which columns were already marked does depend on it, and the model states only that every change is a mark.
- NumberCheck.WithheldNeverFlagged holds of `check_threshold` on the table it is given. In the program as run, `get_file` (scripts/numberchecker.py:248) first replaces `W` and `Withheld` by 0. The skip therefore never fires, and withheld rows are compared as the value 0. The reading step is not modelled.
- A pandas sheet with two columns of the same name is not modelled. A `Frame` holds one column per name.
- The required-column list keeps the source's spellings `Corperate Name` and `Ficsal Year`. Those columns are therefore never checked on a correctly spelled sheet.

## Findings

| source | as written | input that shows it | evidently intended | confidence | as-written member | corrected member |
|---|---|---|---|---|---|---|
| scripts/formatcheck.py:70-73 | `check_header` compares `columns[i]` for every present configured field, even when `i` is past the sheet's last column | configured header `[Commodity, Volume, State]`, sheet columns `[Commodity, State]`: `State` is present, and `columns[2]` raises IndexError | `State` is reported as `Unexpected order`, and the check goes on | not executed; high (pandas index lookup past the end raises) | FormatChecker.FormatChecker.CheckHeader, FormatChecker.NarrowSheetFaults | FormatChecker.FormatChecker.CheckHeaderGuarded, FormatChecker.GuardedClassifiesAll |
