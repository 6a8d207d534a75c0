/** The two column operations at the end of `preprocess_raw_data`: moving the
    `Targets` column to the end of the schema, and feature selection, which drops
    every column whose name mentions a disabled category. Columns are named by
    strings; a table's schema is the sequence of its column names. */
module Columns {
  import opened Common

  const TargetsColumn: string := "Targets"

  /** The column names other than `Targets`, in their original order. */
  function WithoutTargets(columns: seq<string>): (r: seq<string>)
    ensures TargetsColumn !in r
    ensures IsSubsequence(r, columns)
    ensures multiset(r) == multiset(columns)[TargetsColumn := 0]
  {
    if columns == [] then []
    else
      var rest := WithoutTargets(columns[1..]);
      assert columns == [columns[0]] + columns[1..];
      if columns[0] == TargetsColumn then
        SkipSubsequence(columns[0], rest, columns[1..]);
        rest
      else
        ConsSubsequence(columns[0], rest, columns[1..]);
        [columns[0]] + rest
  }

  lemma {:induction false} WithoutTargetsAppend(columns: seq<string>, c: string)
    ensures WithoutTargets(columns + [c]) ==
      WithoutTargets(columns) + (if c == TargetsColumn then [] else [c])
    decreases |columns|
  {
    if columns == [] {
      assert [] + [c] == [c];
    } else {
      assert (columns + [c])[1..] == columns[1..] + [c];
      WithoutTargetsAppend(columns[1..], c);
    }
  }

  /** The loop that collects every column but `Targets` and then appends
      `Targets`: the result ends with `Targets`, the other columns keep their
      relative order, and every column name keeps its multiplicity except
      `Targets`, which occurs exactly once. */
  method FeatureColumns(columns: seq<string>) returns (featureColumns: seq<string>)
    ensures |featureColumns| > 0 && featureColumns[|featureColumns| - 1] == TargetsColumn
    ensures featureColumns[..|featureColumns| - 1] == WithoutTargets(columns)
    ensures IsSubsequence(featureColumns[..|featureColumns| - 1], columns)
    ensures TargetsColumn !in featureColumns[..|featureColumns| - 1]
    ensures multiset(featureColumns) == multiset(columns)[TargetsColumn := 1]
  {
    var others: seq<string> := [];
    for k := 0 to |columns|
      invariant others == WithoutTargets(columns[..k])
    {
      WithoutTargetsStep(columns, k);
      if columns[k] != TargetsColumn {
        others := others + [columns[k]];
      }
    }
    assert columns[..|columns|] == columns;
    featureColumns := others + [TargetsColumn];
    TargetsAppended(columns);
  }

  /** One more column through the collecting loop. */
  lemma WithoutTargetsStep(columns: seq<string>, k: nat)
    requires k < |columns|
    ensures WithoutTargets(columns[..k + 1]) ==
      WithoutTargets(columns[..k]) + (if columns[k] == TargetsColumn then [] else [columns[k]])
  {
    assert columns[..k + 1] == columns[..k] + [columns[k]];
    WithoutTargetsAppend(columns[..k], columns[k]);
  }

  lemma TargetsAppended(columns: seq<string>)
    ensures var fc := WithoutTargets(columns) + [TargetsColumn];
      fc[..|fc| - 1] == WithoutTargets(columns) &&
      IsSubsequence(fc[..|fc| - 1], columns) &&
      TargetsColumn !in fc[..|fc| - 1] &&
      multiset(fc) == multiset(columns)[TargetsColumn := 1]
  {
    var others := WithoutTargets(columns);
    var fc := others + [TargetsColumn];
    assert fc[..|fc| - 1] == others;
  }

  /** When `Targets` is a column of the table exactly once, as it is after the
      dummy encoding, the reordered schema is a permutation of the original. */
  lemma FeatureColumnsArePermutation(columns: seq<string>)
    requires multiset(columns)[TargetsColumn] == 1
    ensures multiset(WithoutTargets(columns) + [TargetsColumn]) == multiset(columns)
  {
  }

  // ------------------------------------------------------ feature selection

  /** `pattern` occurs in `s` (what `DataFrame.filter(regex=...)` tests for a
      pattern without regular-expression metacharacters). */
  predicate Contains(s: string, pattern: string)
    decreases |s|
  {
    pattern <= s || (s != [] && Contains(s[1..], pattern))
  }

  /** The schema without every column whose name contains `pattern`. */
  function DropMatching(columns: seq<string>, pattern: string): (r: seq<string>)
    ensures IsSubsequence(r, columns)
    ensures forall c :: c in r ==> !Contains(c, pattern)
    ensures forall c :: c in columns && !Contains(c, pattern) ==> c in r
  {
    if columns == [] then []
    else
      var rest := DropMatching(columns[1..], pattern);
      assert columns == [columns[0]] + columns[1..];
      if Contains(columns[0], pattern) then
        SkipSubsequence(columns[0], rest, columns[1..]);
        rest
      else
        ConsSubsequence(columns[0], rest, columns[1..]);
        [columns[0]] + rest
  }

  /** One step of feature selection: when `drop` holds, the columns whose name
      contains `pattern` are removed; otherwise the schema is left as it is. */
  function DropIf(columns: seq<string>, drop: bool, pattern: string): (r: seq<string>)
    ensures IsSubsequence(r, columns)
    ensures forall c :: c in r ==> c in columns && (drop ==> !Contains(c, pattern))
    ensures forall c :: c in columns && (!drop || !Contains(c, pattern)) ==> c in r
  {
    if drop then
      var r := DropMatching(columns, pattern);
      assert forall c :: c in r ==> c in columns by {
        forall c | c in r ensures c in columns {
          SubsequenceMember(r, columns, c);
        }
      }
      r
    else
      SubsequenceRefl(columns);
      columns
  }

  /** Feature selection: the style, season and county indicator columns are
      dropped, in that order, for each category that is switched off. */
  function SelectFeatures(columns: seq<string>, includeCounty: bool, includeStyle: bool,
                          includeSeason: bool): (r: seq<string>)
    ensures IsSubsequence(r, columns)
    ensures forall c :: c in r ==>
      (!includeStyle ==> !Contains(c, "Style")) &&
      (!includeSeason ==> !Contains(c, "Season")) &&
      (!includeCounty ==> !Contains(c, "County"))
    ensures forall c ::
      (c in columns &&
       (includeStyle || !Contains(c, "Style")) &&
       (includeSeason || !Contains(c, "Season")) &&
       (includeCounty || !Contains(c, "County"))) ==> c in r
  {
    var afterStyle := DropIf(columns, !includeStyle, "Style");
    var afterSeason := DropIf(afterStyle, !includeSeason, "Season");
    var result := DropIf(afterSeason, !includeCounty, "County");
    SubsequenceTrans(afterSeason, afterStyle, columns);
    SubsequenceTrans(result, afterSeason, columns);
    result
  }

  lemma {:induction false} DropMatchingKeepsLast(columns: seq<string>, c: string, pattern: string)
    requires !Contains(c, pattern)
    ensures DropMatching(columns + [c], pattern) == DropMatching(columns, pattern) + [c]
    decreases |columns|
  {
    if columns == [] {
      assert [] + [c] == [c];
    } else {
      assert (columns + [c])[1..] == columns[1..] + [c];
      DropMatchingKeepsLast(columns[1..], c, pattern);
    }
  }

  /** A name that does not even hold the first letter of a pattern does not
      contain the pattern. */
  lemma {:induction false} FirstLetterAbsent(s: string, pattern: string)
    requires |pattern| > 0 && pattern[0] !in s
    ensures !Contains(s, pattern)
    decreases |s|
  {
    if s != [] {
      FirstLetterAbsent(s[1..], pattern);
    }
  }

  lemma TargetsMatchesNoCategory()
    ensures !Contains(TargetsColumn, "Style")
    ensures !Contains(TargetsColumn, "Season")
    ensures !Contains(TargetsColumn, "County")
  {
    FirstLetterAbsent(TargetsColumn, "Style");
    FirstLetterAbsent(TargetsColumn, "Season");
    FirstLetterAbsent(TargetsColumn, "County");
  }

  /** A selection step keeps a last column that does not match its pattern. */
  lemma DropIfKeepsLast(init: seq<string>, c: string, drop: bool, pattern: string)
    requires !Contains(c, pattern)
    ensures DropIf(init + [c], drop, pattern) == DropIf(init, drop, pattern) + [c]
  {
    if drop {
      DropMatchingKeepsLast(init, c, pattern);
    }
  }

  /** Feature selection keeps a last column that matches none of the
      categories, and keeps it last. */
  lemma SelectionKeepsLast(init: seq<string>, c: string, includeCounty: bool, includeStyle: bool,
                           includeSeason: bool)
    requires !Contains(c, "Style") && !Contains(c, "Season") && !Contains(c, "County")
    ensures SelectFeatures(init + [c], includeCounty, includeStyle, includeSeason) ==
      SelectFeatures(init, includeCounty, includeStyle, includeSeason) + [c]
  {
    DropIfKeepsLast(init, c, !includeStyle, "Style");
    var initStyle := DropIf(init, !includeStyle, "Style");
    DropIfKeepsLast(initStyle, c, !includeSeason, "Season");
    var initSeason := DropIf(initStyle, !includeSeason, "Season");
    DropIfKeepsLast(initSeason, c, !includeCounty, "County");
  }

  /** A schema whose last column matches none of the categories still ends
      with that column after feature selection. */
  lemma SelectionKeepsLastColumn(columns: seq<string>, includeCounty: bool, includeStyle: bool,
                                 includeSeason: bool)
    requires |columns| > 0
    requires var c := columns[|columns| - 1];
      !Contains(c, "Style") && !Contains(c, "Season") && !Contains(c, "County")
    ensures var r := SelectFeatures(columns, includeCounty, includeStyle, includeSeason);
      |r| > 0 && r[|r| - 1] == columns[|columns| - 1]
  {
    var init := columns[..|columns| - 1];
    assert columns == init + [columns[|columns| - 1]];
    SelectionKeepsLast(init, columns[|columns| - 1], includeCounty, includeStyle, includeSeason);
  }

  /** Feature selection never drops `Targets`: a schema that ends with `Targets`
      still ends with it afterwards, so the target stays the last column. */
  lemma SelectionKeepsTargetsLast(columns: seq<string>, includeCounty: bool, includeStyle: bool,
                                  includeSeason: bool)
    requires |columns| > 0 && columns[|columns| - 1] == TargetsColumn
    ensures var r := SelectFeatures(columns, includeCounty, includeStyle, includeSeason);
      |r| > 0 && r[|r| - 1] == TargetsColumn
  {
    TargetsMatchesNoCategory();
    SelectionKeepsLastColumn(columns, includeCounty, includeStyle, includeSeason);
  }
}
