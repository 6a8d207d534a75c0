/** The per-column cleaning rules of `preprocess_raw_data`: separating closed
    sales from active listings, reducing a compound style to its primary style,
    turning the year built into a home age, mapping the basement flag, normalising
    currency strings before they are parsed, and mapping a close month to a season.
    Each rule is a function on one value; the loops of the source that apply a
    rule to a whole column and append to a list are methods. */
module Cleaning {
  import opened Common

  // ---------------------------------------------------------------- status

  /** A raw listing: its status and the rest of its fields, which separation
      does not look at. */
  datatype Listing<A> = Listing(status: string, fields: A)

  /** The listings whose status is "Closed", in their original order. */
  function ClosedListings<A>(rows: seq<Listing<A>>): (closed: seq<Listing<A>>)
    ensures forall i :: 0 <= i < |closed| ==> closed[i].status == "Closed"
    ensures forall i :: 0 <= i < |rows| && rows[i].status == "Closed" ==> rows[i] in closed
    ensures IsSubsequence(closed, rows)
  {
    if rows == [] then []
    else
      var rest := ClosedListings(rows[1..]);
      assert rows == [rows[0]] + rows[1..];
      if rows[0].status == "Closed" then
        ConsSubsequence(rows[0], rest, rows[1..]);
        [rows[0]] + rest
      else
        SkipSubsequence(rows[0], rest, rows[1..]);
        rest
  }

  /** The listings with any other status: the active listings written aside. */
  function OpenListings<A>(rows: seq<Listing<A>>): (open: seq<Listing<A>>)
    ensures forall i :: 0 <= i < |open| ==> open[i].status != "Closed"
    ensures forall i :: 0 <= i < |rows| && rows[i].status != "Closed" ==> rows[i] in open
    ensures IsSubsequence(open, rows)
  {
    if rows == [] then []
    else
      var rest := OpenListings(rows[1..]);
      assert rows == [rows[0]] + rows[1..];
      if rows[0].status != "Closed" then
        ConsSubsequence(rows[0], rest, rows[1..]);
        [rows[0]] + rest
      else
        SkipSubsequence(rows[0], rest, rows[1..]);
        rest
  }

  /** Separation loses and duplicates nothing: every listing lands in exactly one
      of the two tables. */
  lemma {:induction false} SeparationIsPartition<A>(rows: seq<Listing<A>>)
    ensures multiset(ClosedListings(rows)) + multiset(OpenListings(rows)) == multiset(rows)
    ensures |ClosedListings(rows)| + |OpenListings(rows)| == |rows|
  {
    if rows != [] {
      SeparationIsPartition(rows[1..]);
      assert rows == [rows[0]] + rows[1..];
    }
  }

  // ----------------------------------------------------------------- style

  /** `s.split(sep)[0]` in Python: the part of `s` before the first `sep`, or all
      of `s` when `sep` does not occur. */
  function BeforeFirst(s: string, sep: char): (r: string)
    ensures |r| <= |s| && r == s[..|r|]
    ensures sep !in r
    ensures |r| < |s| ==> s[|r|] == sep
  {
    if s == [] then []
    else if s[0] == sep then []
    else [s[0]] + BeforeFirst(s[1..], sep)
  }

  /** The primary style of a compound style: split on ',' and keep the first
      part, then split that on '/' and keep the first part. It is a prefix of
      the style holding neither ',' nor '/'. */
  function PrimaryStyle(style: string): (r: string)
    ensures |r| <= |style| && r == style[..|r|]
    ensures ',' !in r && '/' !in r
  {
    var first := BeforeFirst(style, ',');
    var r := BeforeFirst(first, '/');
    assert forall k :: 0 <= k < |r| ==> r[k] == first[k] == style[k];
    r
  }

  /** The primary style is the longest prefix of the raw style that contains
      neither ',' nor '/'. */
  lemma PrimaryStyleIsLongestPlainPrefix(style: string)
    ensures var r := PrimaryStyle(style);
      |r| <= |style| && r == style[..|r|] &&
      ',' !in r && '/' !in r &&
      (|r| < |style| ==> style[|r|] == ',' || style[|r|] == '/')
  {
    var first := BeforeFirst(style, ',');
    var r := BeforeFirst(first, '/');
    assert first[..|r|] == style[..|r|];
    if |r| < |style| && |r| == |first| {
      assert style[|r|] == ',';
    }
  }

  /** A style that is already primary is left as it is. */
  lemma {:induction false} PrimaryStyleIdempotent(style: string)
    ensures PrimaryStyle(PrimaryStyle(style)) == PrimaryStyle(style)
  {
    PrimaryStyleIsLongestPlainPrefix(style);
    var r := PrimaryStyle(style);
    NoSeparatorUnchanged(r, ',');
    NoSeparatorUnchanged(r, '/');
  }

  lemma {:induction false} NoSeparatorUnchanged(s: string, sep: char)
    requires sep !in s
    ensures BeforeFirst(s, sep) == s
  {
    if s != [] {
      NoSeparatorUnchanged(s[1..], sep);
    }
  }

  /** `BeforeFirst` cuts exactly at the first separator, wherever that is. */
  lemma BeforeFirstAt(s: string, sep: char, k: nat)
    requires k <= |s| && sep !in s[..k] && (k < |s| ==> s[k] == sep)
    ensures BeforeFirst(s, sep) == s[..k]
  {
  }

  /** Cutting `a + b` at `sep`, where `b` starts with `sep` and `a` lacks it,
      leaves `a`. */
  lemma BeforeFirstOfJoin(a: string, sep: char, b: string)
    requires sep !in a && b != [] && b[0] == sep
    ensures BeforeFirst(a + b, sep) == a
  {
    assert (a + b)[..|a|] == a;
    BeforeFirstAt(a + b, sep, |a|);
  }

  /** The documented example: "Colonial/Split Level, Other" becomes "Colonial". */
  lemma PrimaryStyleExample()
    ensures PrimaryStyle("Colonial" + "/Split Level" + ", Other") == "Colonial"
  {
    BeforeFirstOfJoin("Colonial" + "/Split Level", ',', ", Other");
    BeforeFirstOfJoin("Colonial", '/', "/Split Level");
  }

  /** The two list-building loops of the style cleaning: first every style cut at
      ',', then every result cut at '/'. */
  method SimplifyStyles(styles: seq<string>) returns (individual: seq<string>)
    ensures |individual| == |styles|
    ensures forall i :: 0 <= i < |styles| ==> individual[i] == PrimaryStyle(styles[i])
  {
    var primary: seq<string> := [];
    for k := 0 to |styles|
      invariant |primary| == k
      invariant forall i :: 0 <= i < k ==> primary[i] == BeforeFirst(styles[i], ',')
    {
      primary := primary + [BeforeFirst(styles[k], ',')];
    }
    individual := [];
    for k := 0 to |primary|
      invariant |individual| == k
      invariant forall i :: 0 <= i < k ==> individual[i] == BeforeFirst(primary[i], '/')
    {
      individual := individual + [BeforeFirst(primary[k], '/')];
    }
  }

  // -------------------------------------------------------------- home age

  /** Age of a home in the current year; a year built of 0 (unknown, after
      missing values were filled with 0) gives age 0. */
  function HomeAge(yearBuilt: int, currentYear: int): (age: int)
    ensures yearBuilt == 0 ==> age == 0
    ensures 0 < yearBuilt <= currentYear ==> 0 <= age < currentYear
  {
    if yearBuilt == 0 then 0 else currentYear - yearBuilt
  }

  /** The home-age loop: one age per year built, in order. An unknown year gives
      0; any other year `y` gives the age that, added to `y`, is the current year. */
  method HomeAges(yearsBuilt: seq<int>, currentYear: int) returns (ages: seq<int>)
    ensures |ages| == |yearsBuilt|
    ensures forall i :: 0 <= i < |ages| ==> ages[i] == HomeAge(yearsBuilt[i], currentYear)
    ensures forall i :: 0 <= i < |ages| && yearsBuilt[i] == 0 ==> ages[i] == 0
    ensures forall i :: 0 <= i < |ages| && yearsBuilt[i] != 0 ==> ages[i] + yearsBuilt[i] == currentYear
  {
    ages := [];
    for k := 0 to |yearsBuilt|
      invariant |ages| == k
      invariant forall i :: 0 <= i < k ==> ages[i] == HomeAge(yearsBuilt[i], currentYear)
    {
      if yearsBuilt[k] == 0 {
        ages := ages + [0];
      } else {
        ages := ages + [currentYear - yearsBuilt[k]];
      }
    }
  }

  // -------------------------------------------------------------- basement

  /** The pandas `map({'Yes': 1, 'No': 0})`: any other value becomes a missing
      value, which the `dropna` before scaling later removes with its row. */
  function BasementFlag(value: string): (r: Option<int>)
    ensures r.Some? <==> value == "Yes" || value == "No"
    ensures r == Some(1) <==> value == "Yes"
    ensures r.Some? ==> r.value == 0 || r.value == 1
  {
    if value == "Yes" then Some(1)
    else if value == "No" then Some(0)
    else None
  }

  // -------------------------------------------------------------- currency

  /** The characters Python's `str.isspace` accepts, which `str.strip()` removes
      from both ends. */
  predicate IsSpace(c: char)
  {
    var n := c as int;
    (9 <= n <= 13) || (28 <= n <= 32) || n == 0x85 || n == 0xA0 || n == 0x1680 ||
    (0x2000 <= n <= 0x200A) || n == 0x2028 || n == 0x2029 || n == 0x202F ||
    n == 0x205F || n == 0x3000
  }

  /** `s.lstrip()`: the suffix of `s` that starts at its first non-space character. */
  function StripLeft(s: string): (r: string)
    ensures |r| <= |s| && r == s[|s| - |r|..]
    ensures forall i :: 0 <= i < |s| - |r| ==> IsSpace(s[i])
    ensures r != [] ==> !IsSpace(r[0])
  {
    if s == [] then []
    else if IsSpace(s[0]) then StripLeft(s[1..])
    else s
  }

  /** `s.rstrip()`: the prefix of `s` that ends at its last non-space character. */
  function StripRight(s: string): (r: string)
    ensures |r| <= |s| && r == s[..|r|]
    ensures forall i :: |r| <= i < |s| ==> IsSpace(s[i])
    ensures r != [] ==> !IsSpace(r[|r| - 1])
  {
    if s == [] then []
    else if IsSpace(s[|s| - 1]) then StripRight(s[..|s| - 1])
    else s
  }

  /** Every character of `s` before `i` or from `j` on is whitespace. */
  ghost predicate SpaceOutside(s: string, i: nat, j: nat)
  {
    forall k :: 0 <= k < |s| && (k < i || j <= k) ==> IsSpace(s[k])
  }

  /** `s.strip()`: a contiguous part of `s` that only whitespace surrounds, and
      that neither starts nor ends with whitespace. */
  function Strip(s: string): (r: string)
    ensures exists i, j :: 0 <= i <= j <= |s| && r == s[i..j] && SpaceOutside(s, i, j)
    ensures IsSubsequence(r, s)
    ensures r != [] ==> !IsSpace(r[0]) && !IsSpace(r[|r| - 1])
  {
    var left := StripLeft(s);
    var r := StripRight(left);
    StripIsInterval(s, left, r);
    SuffixIsSubsequence(s, |s| - |left|);
    PrefixIsSubsequence(left, |r|);
    SubsequenceTrans(r, left, s);
    r
  }

  /** A part `r` of a suffix `left` of `s`, with only whitespace before
      `left` and after `r`, is an interval of `s` that only whitespace
      surrounds. */
  lemma StripIsInterval(s: string, left: string, r: string)
    requires |left| <= |s| && left == s[|s| - |left|..]
    requires forall k :: 0 <= k < |s| - |left| ==> IsSpace(s[k])
    requires |r| <= |left| && r == left[..|r|]
    requires forall k :: |r| <= k < |left| ==> IsSpace(left[k])
    ensures exists i, j :: 0 <= i <= j <= |s| && r == s[i..j] && SpaceOutside(s, i, j)
  {
    var i := |s| - |left|;
    var j := i + |r|;
    forall k | j <= k < |s| ensures IsSpace(s[k]) {
      assert s[k] == left[k - i];
    }
    assert r == s[i..j];
    assert SpaceOutside(s, i, j);
  }

  /** `s.replace(c, "")`: every occurrence of `c` deleted, the rest in order. */
  function RemoveChar(s: string, c: char): (r: string)
    ensures c !in r
    ensures IsSubsequence(r, s)
    ensures multiset(r) == multiset(s)[c := 0]
  {
    if s == [] then []
    else
      var rest := RemoveChar(s[1..], c);
      assert s == [s[0]] + s[1..];
      if s[0] == c then
        SkipSubsequence(s[0], rest, s[1..]);
        rest
      else
        ConsSubsequence(s[0], rest, s[1..]);
        [s[0]] + rest
  }

  /** A price string made ready for `astype(float)`: stripped, '$' removed,
      ',' removed, and "" replaced by "0". It is never empty and holds neither
      symbol. */
  function CleanCurrency(s: string): (r: string)
    ensures r != "" && '$' !in r && ',' !in r
  {
    var t := RemoveChar(RemoveChar(Strip(s), '$'), ',');
    RemoveSymbolsCounts(Strip(s));
    if t == "" then "0" else t
  }

  /** What is left of a stripped price once the symbols are taken out. */
  predicate OnlySymbols(t: string)
  {
    forall i :: 0 <= i < |t| ==> t[i] == '$' || t[i] == ','
  }

  /** Removing '$' and then ',' deletes exactly those two characters. */
  lemma RemoveSymbolsCounts(st: string)
    ensures var t := RemoveChar(RemoveChar(st, '$'), ',');
      '$' !in t && ',' !in t &&
      IsSubsequence(t, st) &&
      multiset(t) == multiset(st)['$' := 0][',' := 0]
  {
    var a := RemoveChar(st, '$');
    var t := RemoveChar(a, ',');
    SubsequenceTrans(t, a, st);
    assert '$' !in multiset(a);
    assert '$' !in t by {
      if '$' in t {
        SubsequenceMember(t, a, '$');
      }
    }
  }

  /** Nothing is left of the symbols-only strings, and something of every other. */
  lemma RemoveSymbolsEmpty(st: string)
    ensures RemoveChar(RemoveChar(st, '$'), ',') == "" <==> OnlySymbols(st)
  {
    var t := RemoveChar(RemoveChar(st, '$'), ',');
    RemoveSymbolsCounts(st);
    if !OnlySymbols(st) {
      var i :| 0 <= i < |st| && st[i] != '$' && st[i] != ',';
      assert st[i] in multiset(st);
      assert st[i] in multiset(t);
    }
  }

  /** A cleaned price never holds '$' or ',' and is never empty. It is "0" when
      the stripped input held nothing but those symbols; otherwise it is the
      stripped input with exactly the '$' and ',' characters deleted, every other
      character kept, in its order. */
  lemma CleanCurrencySpec(s: string)
    ensures var r := CleanCurrency(s);
      '$' !in r && ',' !in r && r != "" &&
      (OnlySymbols(Strip(s)) ==> r == "0") &&
      (!OnlySymbols(Strip(s)) ==>
         IsSubsequence(r, Strip(s)) && IsSubsequence(r, s) &&
         multiset(r) == multiset(Strip(s))['$' := 0][',' := 0])
  {
    var st := Strip(s);
    var t := RemoveChar(RemoveChar(st, '$'), ',');
    RemoveSymbolsCounts(st);
    RemoveSymbolsEmpty(st);
    SubsequenceTrans(t, st, s);
  }

  // ---------------------------------------------------------------- season

  datatype Season = Winter | Spring | Summer | Fall

  /** The season of a sale from the month of its close date. Every month that is
      not given a season explicitly falls to Fall. */
  function SeasonOf(month: int): (season: Season)
    ensures season == Winter <==> month == 12 || 1 <= month <= 2
    ensures season == Spring <==> 3 <= month <= 5
    ensures season == Summer <==> 6 <= month <= 8
    ensures season == Fall <==> 9 <= month <= 11 || month < 1 || 12 < month
  {
    if month == 12 || month == 1 || month == 2 then Winter
    else if month == 3 || month == 4 || month == 5 then Spring
    else if month == 6 || month == 7 || month == 8 then Summer
    else Fall
  }

  /** The calendar months a season collects. */
  function MonthsOf(season: Season): set<int>
  {
    set m | 1 <= m <= 12 && SeasonOf(m) == season
  }

  /** Every season collects exactly three consecutive calendar months
      (December to February, March to May, June to August, September to
      November). */
  lemma SeasonsSplitTheYear()
    ensures MonthsOf(Winter) == {12, 1, 2} && |MonthsOf(Winter)| == 3
    ensures MonthsOf(Spring) == {3, 4, 5} && |MonthsOf(Spring)| == 3
    ensures MonthsOf(Summer) == {6, 7, 8} && |MonthsOf(Summer)| == 3
    ensures MonthsOf(Fall) == {9, 10, 11} && |MonthsOf(Fall)| == 3
  {
    assert MonthsOf(Winter) == {12, 1, 2};
    assert MonthsOf(Spring) == {3, 4, 5};
    assert MonthsOf(Summer) == {6, 7, 8};
    assert MonthsOf(Fall) == {9, 10, 11};
  }

  /** The close-season loop: one season per close month, in order; months 12, 1
      and 2 give Winter, 3 to 5 Spring, 6 to 8 Summer and any other Fall. */
  method CloseSeasons(months: seq<int>) returns (seasons: seq<Season>)
    ensures |seasons| == |months|
    ensures forall i :: 0 <= i < |months| ==> seasons[i] == SeasonOf(months[i])
    ensures forall i :: 0 <= i < |months| ==>
      (seasons[i] == Winter <==> months[i] in {12, 1, 2}) &&
      (seasons[i] == Spring <==> months[i] in {3, 4, 5}) &&
      (seasons[i] == Summer <==> months[i] in {6, 7, 8})
  {
    seasons := [];
    for k := 0 to |months|
      invariant |seasons| == k
      invariant forall i :: 0 <= i < k ==> seasons[i] == SeasonOf(months[i])
    {
      var month := months[k];
      if month == 12 || month == 1 || month == 2 {
        seasons := seasons + [Winter];
      } else if month == 3 || month == 4 || month == 5 {
        seasons := seasons + [Spring];
      } else if month == 6 || month == 7 || month == 8 {
        seasons := seasons + [Summer];
      } else {
        seasons := seasons + [Fall];
      }
    }
  }
}
