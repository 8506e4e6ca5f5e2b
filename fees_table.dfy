/**
 * The fee table of a university page (src/components/University/FeesTable.tsx).
 *
 * The rows are bucketed by year into an insertion-ordered map, the years are
 * ordered by the first number in their label (ties and label without a number
 * fall back to a string comparison), the rows of each year are ordered by the
 * first number in their semester label, and the result is flattened into one
 * table in which the first row of each year carries a year cell spanning all
 * rows of that year.
 */
module FeesTable {
  import opened Wrappers
  import StableSort

  /** One fee row as supplied by a page. */
  datatype FeeRow = FeeRow(year: string, semester: string, usd: int, inr: string)

  /** One entry of the insertion-ordered map `grouped`: a year and its rows. */
  datatype Group = Group(year: string, list: seq<FeeRow>)

  /** One row of `flat`: the fee row with its year-cell annotations. */
  datatype FlatRow = FlatRow(row: FeeRow, isYearFirst: bool, rowSpan: nat)

  // ---------------------------------------------------------------------------
  // `num`: the first number in a label

  /** The result of `num`: an integer, or `Number.POSITIVE_INFINITY`. */
  datatype Num = Fin(value: nat) | Infinity

  /** `\d` of a JavaScript regular expression without the `u` flag. */
  predicate IsDigit(c: char) {
    '0' <= c <= '9'
  }

  predicate NoDigit(s: string) {
    forall j :: 0 <= j < |s| ==> !IsDigit(s[j])
  }

  predicate AllDigits(s: string) {
    forall j :: 0 <= j < |s| ==> IsDigit(s[j])
  }

  /** `s[i..j]` is what `/\d+/` matches in `s`: the leftmost maximal run of digits. */
  ghost predicate IsFirstDigitRun(s: string, i: nat, j: nat) {
    && i < j <= |s|
    && (forall k :: 0 <= k < i ==> !IsDigit(s[k]))
    && (forall k :: i <= k < j ==> IsDigit(s[k]))
    && (j == |s| || !IsDigit(s[j]))
  }

  /** The length of the longest prefix of `s` without a digit. */
  function LeadingNonDigits(s: string): (k: nat)
    ensures k <= |s|
    ensures forall j :: 0 <= j < k ==> !IsDigit(s[j])
    ensures k < |s| ==> IsDigit(s[k])
  {
    if s == [] || IsDigit(s[0]) then 0 else 1 + LeadingNonDigits(s[1..])
  }

  /** The length of the longest prefix of `s` made of digits. */
  function LeadingDigits(s: string): (k: nat)
    ensures k <= |s|
    ensures forall j :: 0 <= j < k ==> IsDigit(s[j])
    ensures k < |s| ==> !IsDigit(s[k])
  {
    if s == [] || !IsDigit(s[0]) then 0 else 1 + LeadingDigits(s[1..])
  }

  /** `s.match(/\d+/)`: the bounds of the match, or `None` when `s` has no digit. */
  function MatchDigits(s: string): (m: Option<(nat, nat)>)
    ensures m.None? <==> NoDigit(s)
    ensures m.Some? ==> IsFirstDigitRun(s, m.value.0, m.value.1)
  {
    var i := LeadingNonDigits(s);
    if i == |s| then None
    else
      var n := LeadingDigits(s[i..]);
      assert n >= 1;
      Some((i, i + n))
  }

  /** There is only one leftmost maximal run of digits. */
  lemma FirstDigitRunUnique(s: string, i: nat, j: nat, i': nat, j': nat)
    requires IsFirstDigitRun(s, i, j) && IsFirstDigitRun(s, i', j')
    ensures i == i' && j == j'
  {
    assert IsDigit(s[i]) && IsDigit(s[i']);
    if j < |s| {
      assert !IsDigit(s[j]);
    }
    if j' < |s| {
      assert !IsDigit(s[j']);
    }
  }

  /** `parseInt(ds, 10)` of a string of digits. */
  function DecimalValue(ds: string): nat
    requires AllDigits(ds)
  {
    if ds == [] then 0
    else 10 * DecimalValue(ds[..|ds| - 1]) + (ds[|ds| - 1] as int - '0' as int)
  }

  /** `num(s)`: the value of the first run of digits in `s`, or infinity when there is none. */
  function ParseNum(s: string): (r: Num)
    ensures r.Infinity? <==> NoDigit(s)
    ensures r.Fin? ==> exists i: nat, j: nat :: IsFirstDigitRun(s, i, j) && AllDigits(s[i..j])
                                      && r.value == DecimalValue(s[i..j])
  {
    match MatchDigits(s)
    case None => Infinity
    case Some((i, j)) =>
      assert AllDigits(s[i..j]);
      Fin(DecimalValue(s[i..j]))
  }

  /** How `num` reads a year label. */
  lemma ParseNumYear()
    ensures ParseNum("Year 1") == Fin(1)
  {
    assert LeadingNonDigits("Year 1") == 5;
  }

  /** How `num` reads a two-digit semester label. */
  lemma ParseNumSemester()
    ensures ParseNum("Sem 10") == Fin(10)
  {
    assert LeadingNonDigits("Sem 10") == 4;
    assert "Sem 10"[4..] == "10";
    assert LeadingDigits("10") == 2;
    assert "Sem 10"[4..6] == "10";
    assert DecimalValue("10") == 10 by {
      assert "10"[..1] == "1";
    }
  }

  /** Only the first run of digits counts. */
  lemma ParseNumFirstRun()
    ensures ParseNum("2nd Year, Sem 3") == Fin(2)
  {
    assert LeadingNonDigits("2nd Year, Sem 3") == 0;
    assert "2nd Year, Sem 3"[0..] == "2nd Year, Sem 3";
    assert LeadingDigits("2nd Year, Sem 3") == 1;
    assert "2nd Year, Sem 3"[0..1] == "2";
  }

  /** A label without digits is infinity, so it sorts after every numbered label. */
  lemma ParseNumNoDigit(name: string, k: nat)
    requires NoDigit(name)
    ensures ParseNum(name) == Infinity
    ensures NumCompare(ParseNum(name), Fin(k)) > 0
    ensures NumCompare(Fin(k), ParseNum(name)) < 0
  {
  }

  lemma ParseNumFinal()
    ensures ParseNum("Final") == Infinity
  {
    assert LeadingNonDigits("Final") == 5;
  }

  // ---------------------------------------------------------------------------
  // The two comparators

  /**
   * `x - y` for two results of `num`, as the sort reads it: `Infinity - Infinity`
   * is `NaN`, which the `||` of the year comparator treats as false and
   * `Array.prototype.sort` treats as 0, so both are 0 here.
   */
  function NumCompare(x: Num, y: Num): int {
    match (x, y)
    case (Fin(a), Fin(b)) => a - b
    case (Fin(_), Infinity) => -1
    case (Infinity, Fin(_)) => 1
    case (Infinity, Infinity) => 0
  }

  /** The order of `num` values is total: a number before infinity, numbers by value. */
  lemma NumCompareOrder(x: Num, y: Num, z: Num)
    ensures NumCompare(x, y) == -NumCompare(y, x)
    ensures NumCompare(x, x) == 0
    ensures NumCompare(x, y) <= 0 && NumCompare(y, z) <= 0 ==> NumCompare(x, z) <= 0
    ensures NumCompare(x, y) < 0 && NumCompare(y, z) <= 0 ==> NumCompare(x, z) < 0
    ensures NumCompare(x, y) <= 0 && NumCompare(y, z) < 0 ==> NumCompare(x, z) < 0
  {
  }

  /**
   * `a.localeCompare(b)`, modelled as the lexicographic order of the code
   * points (not locale-aware collation): -1, 0 or 1.
   */
  function StringCompare(a: string, b: string): (r: int)
    ensures -1 <= r <= 1
  {
    if a == [] && b == [] then 0
    else if a == [] then -1
    else if b == [] then 1
    else if a[0] < b[0] then -1
    else if a[0] > b[0] then 1
    else StringCompare(a[1..], b[1..])
  }

  /** The string order is a total order: antisymmetric, zero exactly on equal strings, transitive. */
  lemma {:induction false} StringCompareOrder(a: string, b: string, c: string)
    ensures StringCompare(a, b) == -StringCompare(b, a)
    ensures StringCompare(a, b) == 0 <==> a == b
    ensures StringCompare(a, b) <= 0 && StringCompare(b, c) <= 0 ==> StringCompare(a, c) <= 0
  {
    if a != [] && b != [] && c != [] {
      StringCompareOrder(a[1..], b[1..], c[1..]);
      if a[0] == b[0] && a[1..] == b[1..] {
        assert a == [a[0]] + a[1..] && b == [b[0]] + b[1..];
      }
    } else if a != [] && b != [] {
      StringCompareOrder(a[1..], b[1..], []);
      if a[0] == b[0] && a[1..] == b[1..] {
        assert a == [a[0]] + a[1..] && b == [b[0]] + b[1..];
      }
    }
  }

  /** The comparator of the year entries: `num(a) - num(b) || a.localeCompare(b)`. */
  function YearCompare(a: string, b: string): int {
    var d := NumCompare(ParseNum(a), ParseNum(b));
    if d != 0 then d else StringCompare(a, b)
  }

  /** Two different years never compare equal, so the order of the years is fully determined. */
  lemma YearCompareZero(a: string, b: string)
    ensures YearCompare(a, b) == 0 <==> a == b
  {
    NumCompareOrder(ParseNum(a), ParseNum(b), ParseNum(b));
    StringCompareOrder(a, b, b);
  }

  /** The comparator of the year entries, on entries. */
  function GroupCompare(g: Group, h: Group): int {
    YearCompare(g.year, h.year)
  }

  /** The comparator of the rows of one year: `num(a.semester) - num(b.semester)`. */
  function SemesterCompare(a: FeeRow, b: FeeRow): int {
    NumCompare(ParseNum(a.semester), ParseNum(b.semester))
  }

  /** The year comparator is one the sort can use. */
  lemma GroupCompareConsistent()
    ensures StableSort.Consistent(GroupCompare)
  {
    forall g: Group, h: Group
      ensures GroupCompare(g, h) > 0 <==> GroupCompare(h, g) < 0
    {
      NumCompareOrder(ParseNum(g.year), ParseNum(h.year), ParseNum(h.year));
      StringCompareOrder(g.year, h.year, h.year);
    }
    forall g: Group, h: Group, k: Group | GroupCompare(g, h) <= 0 && GroupCompare(h, k) <= 0
      ensures GroupCompare(g, k) <= 0
    {
      NumCompareOrder(ParseNum(g.year), ParseNum(h.year), ParseNum(k.year));
      StringCompareOrder(g.year, h.year, k.year);
    }
  }

  /** The semester comparator is one the sort can use. */
  lemma SemesterCompareConsistent()
    ensures StableSort.Consistent(SemesterCompare)
  {
    forall a: FeeRow, b: FeeRow
      ensures SemesterCompare(a, b) > 0 <==> SemesterCompare(b, a) < 0
    {
      NumCompareOrder(ParseNum(a.semester), ParseNum(b.semester), ParseNum(b.semester));
    }
    forall a: FeeRow, b: FeeRow, c: FeeRow | SemesterCompare(a, b) <= 0 && SemesterCompare(b, c) <= 0
      ensures SemesterCompare(a, c) <= 0
    {
      NumCompareOrder(ParseNum(a.semester), ParseNum(b.semester), ParseNum(c.semester));
    }
  }

  // ---------------------------------------------------------------------------
  // Bucketing the rows by year

  /** The years of `rows` in order of first occurrence: the keys of the map, in insertion order. */
  function DistinctYears(rows: seq<FeeRow>): seq<string> {
    if rows == [] then []
    else
      var ys := DistinctYears(rows[..|rows| - 1]);
      if rows[|rows| - 1].year in ys then ys else ys + [rows[|rows| - 1].year]
  }

  /** The rows of year `y`, in input order. */
  function RowsOfYear(rows: seq<FeeRow>, y: string): seq<FeeRow> {
    if rows == [] then []
    else
      RowsOfYear(rows[..|rows| - 1], y)
      + (if rows[|rows| - 1].year == y then [rows[|rows| - 1]] else [])
  }

  /** The entries of the map once every row has been pushed into its year's bucket. */
  function Buckets(rows: seq<FeeRow>): seq<Group> {
    var ys := DistinctYears(rows);
    seq(|ys|, k requires 0 <= k < |ys| => Group(ys[k], RowsOfYear(rows, ys[k])))
  }

  /** Every row of year `y` has year `y` and comes from `rows`. */
  lemma {:induction false} RowsOfYearMembers(rows: seq<FeeRow>, y: string)
    ensures forall r :: r in RowsOfYear(rows, y) ==> r.year == y && r in rows
  {
    if rows != [] {
      RowsOfYearMembers(rows[..|rows| - 1], y);
    }
  }

  /** A row is among the rows of its own year. */
  lemma {:induction false} RowsOfOwnYear(rows: seq<FeeRow>, r: FeeRow)
    requires r in rows
    ensures r in RowsOfYear(rows, r.year)
  {
    var init := rows[..|rows| - 1];
    if rows[|rows| - 1] != r {
      assert r in init by {
        var i :| 0 <= i < |rows| && rows[i] == r;
        assert init[i] == r;
      }
      RowsOfOwnYear(init, r);
    }
  }

  /** Filtering by year keeps every copy of the rows of that year. */
  lemma {:induction false} RowsOfYearCount(rows: seq<FeeRow>, r: FeeRow)
    ensures multiset(RowsOfYear(rows, r.year))[r] == multiset(rows)[r]
  {
    if rows != [] {
      var init := rows[..|rows| - 1];
      RowsOfYearCount(init, r);
      assert rows == init + [rows[|rows| - 1]];
    }
  }

  /** Filtering distributes over concatenation. */
  lemma {:induction false} RowsOfYearAppend(a: seq<FeeRow>, b: seq<FeeRow>, y: string)
    ensures RowsOfYear(a + b, y) == RowsOfYear(a, y) + RowsOfYear(b, y)
  {
    if b == [] {
      assert a + b == a;
    } else {
      var init := b[..|b| - 1];
      RowsOfYearAppend(a, init, y);
      assert (a + b)[..|a + b| - 1] == a + init;
      assert (a + b)[|a + b| - 1] == b[|b| - 1];
    }
  }

  /** Filtering a list all of whose rows have year `y` by `y` keeps all of it, by another year none of it. */
  lemma {:induction false} RowsOfYearUniform(l: seq<FeeRow>, y: string, y': string)
    requires forall k :: 0 <= k < |l| ==> l[k].year == y
    ensures RowsOfYear(l, y) == l
    ensures y' != y ==> RowsOfYear(l, y') == []
  {
    if l != [] {
      var init := l[..|l| - 1];
      RowsOfYearUniform(init, y, y');
      assert l == init + [l[|l| - 1]];
    }
  }

  /** A year is listed exactly when some row has it, and no year is listed twice. */
  lemma {:induction false} DistinctYearsSpec(rows: seq<FeeRow>)
    ensures forall y :: y in DistinctYears(rows) <==> RowsOfYear(rows, y) != []
    ensures StableSort.DistinctBy(DistinctYears(rows), (y: string) => y)
  {
    if rows != [] {
      DistinctYearsSpec(rows[..|rows| - 1]);
    }
  }

  /**
   * The bucketing loop of `grouped`: each row is pushed onto the list of its
   * year, a list being created (and its year appended to the keys) when the
   * year is first seen.
   */
  method BucketByYear(rows: seq<FeeRow>) returns (entries: seq<Group>)
    ensures entries == Buckets(rows)
  {
    var keys: seq<string> := [];
    var m: map<string, seq<FeeRow>> := map[];
    for i := 0 to |rows|
      invariant keys == DistinctYears(rows[..i])
      invariant forall y :: y in m <==> y in keys
      invariant forall y :: y in m ==> m[y] == RowsOfYear(rows[..i], y)
    {
      var r := rows[i];
      assert rows[..i + 1][..i] == rows[..i];
      DistinctYearsSpec(rows[..i]);
      if r.year !in m {
        m := m[r.year := []];
        keys := keys + [r.year];
      }
      m := m[r.year := m[r.year] + [r]];
    }
    assert rows[..|rows|] == rows;
    entries := seq(|keys|, k requires 0 <= k < |keys| => Group(keys[k], m[keys[k]]));
  }

  // ---------------------------------------------------------------------------
  // Ordering the entries and the rows of each entry

  /** The rows of each entry sorted by semester: the `.map` of `grouped`. */
  function SortEach(gs: seq<Group>): seq<Group> {
    seq(|gs|, k requires 0 <= k < |gs| => Group(gs[k].year, StableSort.Sort(gs[k].list, SemesterCompare)))
  }

  /** `grouped`: the entries sorted by year, the rows of each sorted by semester. */
  function Grouped(rows: seq<FeeRow>): seq<Group> {
    SortEach(StableSort.Sort(Buckets(rows), GroupCompare))
  }

  function YearOf(g: Group): string {
    g.year
  }

  /** Entries that can be flattened: none empty, every row under its own year, no year twice. */
  ghost predicate WellFormed(gs: seq<Group>) {
    && (forall k :: 0 <= k < |gs| ==> gs[k].list != [])
    && (forall k, r :: 0 <= k < |gs| && r in gs[k].list ==> r.year == gs[k].year)
    && StableSort.DistinctBy(gs, YearOf)
  }

  /** The entry of year `g.year` holds, in some order, exactly the rows of that year. */
  ghost predicate EntryOf(rows: seq<FeeRow>, g: Group) {
    g.list == RowsOfYear(rows, g.year) && g.list != []
  }

  lemma BucketsSpec(rows: seq<FeeRow>)
    ensures WellFormed(Buckets(rows))
    ensures forall g :: g in Buckets(rows) ==> EntryOf(rows, g)
    ensures forall y :: RowsOfYear(rows, y) != [] ==> exists k :: 0 <= k < |Buckets(rows)| && Buckets(rows)[k].year == y
  {
    var ys, bs := DistinctYears(rows), Buckets(rows);
    DistinctYearsSpec(rows);
    forall y | RowsOfYear(rows, y) != []
      ensures exists k :: 0 <= k < |bs| && bs[k].year == y
    {
      var k :| 0 <= k < |ys| && ys[k] == y;
      assert bs[k].year == y;
    }
    forall k, r | 0 <= k < |bs| && r in bs[k].list
      ensures r.year == bs[k].year
    {
      RowsOfYearMembers(rows, ys[k]);
    }
    assert StableSort.DistinctBy(bs, YearOf) by {
      forall i, j | 0 <= i < j < |bs| ensures YearOf(bs[i]) != YearOf(bs[j]) {
        assert bs[i].year == ys[i] && bs[j].year == ys[j];
      }
    }
  }

  /** Sorting the entries by year puts them in year order. */
  lemma SortGroupsSorted(gs: seq<Group>)
    ensures StableSort.Sorted(StableSort.Sort(gs, GroupCompare), GroupCompare)
  {
    GroupCompareConsistent();
    StableSort.SortSorted(gs, GroupCompare);
  }

  /** Sorting the entries keeps every entry and adds none. */
  lemma SortGroupsMembers(gs: seq<Group>)
    ensures forall k :: 0 <= k < |StableSort.Sort(gs, GroupCompare)| ==> StableSort.Sort(gs, GroupCompare)[k] in gs
    ensures forall g :: g in gs ==> g in StableSort.Sort(gs, GroupCompare)
  {
    var ss := StableSort.Sort(gs, GroupCompare);
    StableSort.SortPermutes(gs, GroupCompare);
    forall k | 0 <= k < |ss| ensures ss[k] in gs {
      assert ss[k] in multiset(gs);
    }
    forall g | g in gs ensures g in ss {
      assert g in multiset(ss);
    }
  }

  /** A reordering of well-formed entries that keeps keys distinct is well formed and covers the same years. */
  lemma SortedEntries(rows: seq<FeeRow>, bs: seq<Group>, ss: seq<Group>)
    requires WellFormed(bs) && forall g :: g in bs ==> EntryOf(rows, g)
    requires forall y :: RowsOfYear(rows, y) != [] ==> exists k :: 0 <= k < |bs| && bs[k].year == y
    requires forall k :: 0 <= k < |ss| ==> ss[k] in bs
    requires forall g :: g in bs ==> g in ss
    requires StableSort.DistinctBy(ss, YearOf)
    ensures WellFormed(ss)
    ensures forall k :: 0 <= k < |ss| ==> EntryOf(rows, ss[k])
    ensures forall y :: RowsOfYear(rows, y) != [] ==> exists k :: 0 <= k < |ss| && ss[k].year == y
  {
    forall k, r | 0 <= k < |ss| && r in ss[k].list
      ensures r.year == ss[k].year
    {
      var b :| 0 <= b < |bs| && bs[b] == ss[k];
    }
    forall y | RowsOfYear(rows, y) != []
      ensures exists k :: 0 <= k < |ss| && ss[k].year == y
    {
      var b :| 0 <= b < |bs| && bs[b].year == y;
      assert bs[b] in bs;
      var k :| 0 <= k < |ss| && ss[k] == bs[b];
    }
  }

  /** Sorting the entries by year keeps them well formed, in year order, and keeps every year. */
  lemma SortedBucketsSpec(rows: seq<FeeRow>)
    ensures var ss := StableSort.Sort(Buckets(rows), GroupCompare);
      && WellFormed(ss)
      && StableSort.Sorted(ss, GroupCompare)
      && (forall k :: 0 <= k < |ss| ==> EntryOf(rows, ss[k]))
      && (forall y :: RowsOfYear(rows, y) != [] ==> exists k :: 0 <= k < |ss| && ss[k].year == y)
  {
    var bs := Buckets(rows);
    var ss := StableSort.Sort(bs, GroupCompare);
    BucketsSpec(rows);
    SortGroupsMembers(bs);
    StableSort.SortKeepsDistinct(bs, YearOf, GroupCompare);
    SortGroupsSorted(bs);
    SortedEntries(rows, bs, ss);
  }

  /** Sorting the rows of each entry by semester keeps the entries, their years and their order. */
  lemma SortEachSpec(rows: seq<FeeRow>, ss: seq<Group>)
    requires WellFormed(ss) && StableSort.Sorted(ss, GroupCompare)
    requires forall k :: 0 <= k < |ss| ==> EntryOf(rows, ss[k])
    ensures var gs := SortEach(ss);
      && WellFormed(gs)
      && StableSort.Sorted(gs, GroupCompare)
      && (forall k :: 0 <= k < |gs| ==> gs[k].year == ss[k].year)
      && (forall k :: 0 <= k < |gs| ==> gs[k].list == StableSort.Sort(RowsOfYear(rows, gs[k].year), SemesterCompare))
  {
    var gs := SortEach(ss);
    forall k | 0 <= k < |gs|
      ensures gs[k].list != []
      ensures forall r :: r in gs[k].list ==> r.year == gs[k].year
    {
      StableSort.SortPermutes(ss[k].list, SemesterCompare);
      forall r | r in gs[k].list ensures r.year == gs[k].year {
        assert r in multiset(ss[k].list);
      }
    }
    assert StableSort.DistinctBy(gs, YearOf) by {
      forall i, j | 0 <= i < j < |gs| ensures YearOf(gs[i]) != YearOf(gs[j]) {
        assert YearOf(ss[i]) != YearOf(ss[j]);
      }
    }
    assert StableSort.Sorted(gs, GroupCompare) by {
      forall i, j | 0 <= i < j < |gs| ensures GroupCompare(gs[i], gs[j]) <= 0 {
        assert GroupCompare(ss[i], ss[j]) <= 0;
      }
    }
  }

  /** What `grouped` holds: well-formed entries in year order, each the rows of its year stably sorted by semester. */
  lemma GroupedSpec(rows: seq<FeeRow>)
    ensures WellFormed(Grouped(rows))
    ensures StableSort.Sorted(Grouped(rows), GroupCompare)
    ensures forall k :: 0 <= k < |Grouped(rows)| ==>
              Grouped(rows)[k].list == StableSort.Sort(RowsOfYear(rows, Grouped(rows)[k].year), SemesterCompare)
    ensures forall y :: RowsOfYear(rows, y) != [] ==>
              exists k :: 0 <= k < |Grouped(rows)| && Grouped(rows)[k].year == y
  {
    var ss := StableSort.Sort(Buckets(rows), GroupCompare);
    SortedBucketsSpec(rows);
    SortEachSpec(rows, ss);
    var gs := Grouped(rows);
    forall y | RowsOfYear(rows, y) != []
      ensures exists k :: 0 <= k < |gs| && gs[k].year == y
    {
      var k :| 0 <= k < |ss| && ss[k].year == y;
      assert gs[k].year == y;
    }
  }

  // ---------------------------------------------------------------------------
  // Flattening into table rows

  /** The rows of one entry: the first carries the year cell spanning the whole entry. */
  function Annotate(list: seq<FeeRow>): seq<FlatRow> {
    seq(|list|, k requires 0 <= k < |list| => FlatRow(list[k], k == 0, if k == 0 then |list| else 0))
  }

  /** `flat`: the annotated rows of every entry, entry after entry. */
  function Flat(gs: seq<Group>): seq<FlatRow> {
    if gs == [] then [] else Flat(gs[..|gs| - 1]) + Annotate(gs[|gs| - 1].list)
  }

  /** The lists of the entries, one after another. */
  function Concat(gs: seq<Group>): seq<FeeRow> {
    if gs == [] then [] else Concat(gs[..|gs| - 1]) + gs[|gs| - 1].list
  }

  /** The fee rows shown by a table, top to bottom. */
  function Rows(flat: seq<FlatRow>): seq<FeeRow> {
    seq(|flat|, i requires 0 <= i < |flat| => flat[i].row)
  }

  /** The rows covered by all year cells together. */
  function SumRowSpans(flat: seq<FlatRow>): nat {
    if flat == [] then 0 else SumRowSpans(flat[..|flat| - 1]) + flat[|flat| - 1].rowSpan
  }

  /**
   * The flattening loop of `flat`: for each entry in order, push each of its
   * rows, marking the first with the year cell and its span.
   */
  method Flatten(grouped: seq<Group>) returns (flat: seq<FlatRow>)
    ensures flat == Flat(grouped)
  {
    flat := [];
    for k := 0 to |grouped|
      invariant flat == Flat(grouped[..k])
    {
      var list := grouped[k].list;
      ghost var before := flat;
      for idx := 0 to |list|
        invariant flat == before + Annotate(list)[..idx]
      {
        flat := flat + [FlatRow(list[idx], idx == 0, if idx == 0 then |list| else 0)];
        assert Annotate(list)[..idx + 1] == Annotate(list)[..idx] + [Annotate(list)[idx]];
      }
      assert Annotate(list)[..|list|] == Annotate(list);
      assert grouped[..k + 1][..k] == grouped[..k];
    }
    assert grouped[..|grouped|] == grouped;
  }

  /** A well-formed prefix of entries is well formed. */
  lemma WellFormedInit(gs: seq<Group>)
    requires WellFormed(gs) && gs != []
    ensures WellFormed(gs[..|gs| - 1])
    ensures forall k :: 0 <= k < |gs| - 1 ==> gs[k].year != gs[|gs| - 1].year
    ensures var last := gs[|gs| - 1]; forall i :: 0 <= i < |last.list| ==> last.list[i].year == last.year
  {
    var init, last := gs[..|gs| - 1], gs[|gs| - 1];
    forall i | 0 <= i < |last.list| ensures last.list[i].year == last.year {
      assert last.list[i] in gs[|gs| - 1].list;
    }
    forall i, j | 0 <= i < j < |init| ensures YearOf(init[i]) != YearOf(init[j]) {
      assert YearOf(gs[i]) != YearOf(gs[j]);
    }
    forall k | 0 <= k < |gs| - 1 ensures gs[k].year != gs[|gs| - 1].year {
      assert YearOf(gs[k]) != YearOf(gs[|gs| - 1]);
    }
  }

  /** The table shows the rows of the entries, in entry order. */
  lemma {:induction false} FlatRows(gs: seq<Group>)
    ensures Rows(Flat(gs)) == Concat(gs)
    ensures |Flat(gs)| == |Concat(gs)|
  {
    if gs != [] {
      var init, last := gs[..|gs| - 1], gs[|gs| - 1];
      FlatRows(init);
      assert Rows(Flat(init) + Annotate(last.list)) == Rows(Flat(init)) + last.list;
    }
  }

  /** Each entry's year selects exactly that entry's list from the concatenation; any other year selects nothing. */
  lemma {:induction false} ConcatRowsOfYear(gs: seq<Group>, y: string)
    requires WellFormed(gs)
    ensures forall k :: 0 <= k < |gs| && gs[k].year == y ==> RowsOfYear(Concat(gs), y) == gs[k].list
    ensures (forall k :: 0 <= k < |gs| ==> gs[k].year != y) ==> RowsOfYear(Concat(gs), y) == []
  {
    if gs != [] {
      var init, last := gs[..|gs| - 1], gs[|gs| - 1];
      WellFormedInit(gs);
      ConcatRowsOfYear(init, y);
      RowsOfYearAppend(Concat(init), last.list, y);
      RowsOfYearUniform(last.list, last.year, y);
      assert Concat(gs) == Concat(init) + last.list;
      if last.year == y {
        assert RowsOfYear(Concat(init), y) == [];
      } else {
        assert RowsOfYear(Concat(gs), y) == RowsOfYear(Concat(init), y);
        forall k | 0 <= k < |gs| - 1 && gs[k].year == y
          ensures RowsOfYear(Concat(gs), y) == gs[k].list
        {
          assert init[k] == gs[k];
        }
      }
    }
  }

  /** Every row of the concatenation belongs to the entry of its year. */
  lemma {:induction false} ConcatYears(gs: seq<Group>)
    requires WellFormed(gs)
    ensures forall r :: r in Concat(gs) ==> exists k :: 0 <= k < |gs| && gs[k].year == r.year
  {
    if gs != [] {
      var init, last := gs[..|gs| - 1], gs[|gs| - 1];
      WellFormedInit(gs);
      ConcatYears(init);
      forall r | r in Concat(gs) ensures exists k :: 0 <= k < |gs| && gs[k].year == r.year {
        if r in last.list {
          assert gs[|gs| - 1].year == r.year;
        } else {
          assert r in Concat(init);
          var k :| 0 <= k < |init| && init[k].year == r.year;
          assert gs[k].year == r.year;
        }
      }
    }
  }

  /** No row of an earlier entry has the year of the last entry. */
  lemma EarlierYearsDiffer(gs: seq<Group>)
    requires WellFormed(gs) && gs != []
    ensures forall r :: r in Concat(gs[..|gs| - 1]) ==> r.year != gs[|gs| - 1].year
  {
    var init, last := gs[..|gs| - 1], gs[|gs| - 1];
    WellFormedInit(gs);
    ConcatYears(init);
  }

  /** The shape of the table after the last entry has been pushed. */
  lemma FlatLast(gs: seq<Group>)
    requires WellFormed(gs) && gs != []
    ensures var flat, a, last := Flat(gs), Flat(gs[..|gs| - 1]), gs[|gs| - 1];
      && |flat| == |a| + |last.list|
      && (forall i :: 0 <= i < |a| ==> flat[i] == a[i] && a[i].row.year != last.year)
      && (forall i :: |a| <= i < |flat| ==>
            flat[i] == FlatRow(last.list[i - |a|], i == |a|, if i == |a| then |last.list| else 0)
            && flat[i].row.year == last.year)
  {
    var init, last := gs[..|gs| - 1], gs[|gs| - 1];
    var a := Flat(init);
    EarlierYearsDiffer(gs);
    FlatRows(init);
    forall i | 0 <= i < |a| ensures a[i].row.year != last.year {
      assert a[i].row == Rows(a)[i];
    }
  }

  /** The rows of one year are adjacent. */
  ghost predicate Contiguous(flat: seq<FlatRow>) {
    forall i, j, k :: 0 <= i < j < k < |flat| && flat[i].row.year == flat[k].row.year ==>
      flat[j].row.year == flat[i].row.year
  }

  /** A row carries the year cell exactly when it starts a run of its year. */
  predicate FirstFlags(flat: seq<FlatRow>) {
    && (|flat| > 0 ==> flat[0].isYearFirst)
    && (forall i :: 0 < i < |flat| ==>
          (flat[i].isYearFirst <==> flat[i - 1].row.year != flat[i].row.year))
  }

  /** A year cell spans every row of its year; other rows span nothing. */
  ghost predicate SpansCount(flat: seq<FlatRow>) {
    forall i :: 0 <= i < |flat| ==>
      flat[i].rowSpan == (if flat[i].isYearFirst then |RowsOfYear(Rows(flat), flat[i].row.year)| else 0)
  }

  /** The years go down the table in `YearCompare` order. */
  ghost predicate YearsOrdered(flat: seq<FlatRow>) {
    forall i, j :: 0 <= i < j < |flat| ==> YearCompare(flat[i].row.year, flat[j].row.year) <= 0
  }

  lemma {:induction false} FlatContiguous(gs: seq<Group>)
    requires WellFormed(gs)
    ensures Contiguous(Flat(gs))
  {
    if gs != [] {
      var init := gs[..|gs| - 1];
      WellFormedInit(gs);
      FlatContiguous(init);
      FlatLast(gs);
      var flat, a := Flat(gs), Flat(init);
      forall i, j, k | 0 <= i < j < k < |flat| && flat[i].row.year == flat[k].row.year
        ensures flat[j].row.year == flat[i].row.year
      {
        if k < |a| {
          assert a[i].row.year == a[k].row.year;
        }
      }
    }
  }

  lemma {:induction false} FlatFirstFlags(gs: seq<Group>)
    requires WellFormed(gs)
    ensures FirstFlags(Flat(gs))
  {
    if gs != [] {
      var init, last := gs[..|gs| - 1], gs[|gs| - 1];
      WellFormedInit(gs);
      FlatFirstFlags(init);
      FlatLast(gs);
      var flat, a := Flat(gs), Flat(init);
      if |a| > 0 {
        assert flat[0] == a[0];
      }
      forall i | 0 < i < |flat|
        ensures flat[i].isYearFirst <==> flat[i - 1].row.year != flat[i].row.year
      {
        if i < |a| {
          assert flat[i] == a[i] && flat[i - 1] == a[i - 1];
        } else if i == |a| {
          assert flat[i - 1] == a[i - 1];
        }
      }
    }
  }

  /** In the concatenation, the last entry's year selects the last list, and any other year what it selected before. */
  lemma ConcatLastRowsOfYear(gs: seq<Group>, y: string)
    requires WellFormed(gs) && gs != []
    ensures var init, last := gs[..|gs| - 1], gs[|gs| - 1];
      RowsOfYear(Concat(gs), y)
      == if y == last.year then last.list else RowsOfYear(Concat(init), y)
  {
    var init, last := gs[..|gs| - 1], gs[|gs| - 1];
    WellFormedInit(gs);
    assert Concat(gs) == Concat(init) + last.list;
    RowsOfYearAppend(Concat(init), last.list, y);
    RowsOfYearUniform(last.list, last.year, y);
    if y == last.year {
      ConcatRowsOfYear(init, y);
      assert RowsOfYear(Concat(init), y) == [];
    } else {
      assert RowsOfYear(last.list, y) == [];
    }
  }

  /** After the last entry, a year selects the rows it selected before, and the last year selects the last list. */
  lemma FlatLastRowsOfYear(gs: seq<Group>, y: string)
    requires WellFormed(gs) && gs != []
    ensures var init, last := gs[..|gs| - 1], gs[|gs| - 1];
      RowsOfYear(Rows(Flat(gs)), y)
      == if y == last.year then last.list else RowsOfYear(Rows(Flat(init)), y)
  {
    FlatRows(gs);
    FlatRows(gs[..|gs| - 1]);
    ConcatLastRowsOfYear(gs, y);
  }

  lemma {:induction false} FlatSpansCount(gs: seq<Group>)
    requires WellFormed(gs)
    ensures SpansCount(Flat(gs))
  {
    if gs != [] {
      var init, last := gs[..|gs| - 1], gs[|gs| - 1];
      WellFormedInit(gs);
      FlatSpansCount(init);
      FlatLast(gs);
      var flat, a := Flat(gs), Flat(init);
      forall i | 0 <= i < |flat|
        ensures flat[i].rowSpan == (if flat[i].isYearFirst then |RowsOfYear(Rows(flat), flat[i].row.year)| else 0)
      {
        FlatLastRowsOfYear(gs, flat[i].row.year);
        if i < |a| {
          assert flat[i] == a[i];
        }
      }
    }
  }

  lemma {:induction false} FlatYearsOrdered(gs: seq<Group>)
    requires WellFormed(gs) && StableSort.Sorted(gs, GroupCompare)
    ensures YearsOrdered(Flat(gs))
  {
    if gs != [] {
      var init, last := gs[..|gs| - 1], gs[|gs| - 1];
      WellFormedInit(gs);
      assert StableSort.Sorted(init, GroupCompare) by {
        forall i, j | 0 <= i < j < |init| ensures GroupCompare(init[i], init[j]) <= 0 {
          assert init[i] == gs[i] && init[j] == gs[j];
        }
      }
      FlatYearsOrdered(init);
      FlatLast(gs);
      FlatRows(init);
      ConcatYears(init);
      var flat, a := Flat(gs), Flat(init);
      forall i, j | 0 <= i < j < |flat|
        ensures YearCompare(flat[i].row.year, flat[j].row.year) <= 0
      {
        if j < |a| {
          assert YearCompare(a[i].row.year, a[j].row.year) <= 0;
        } else if i < |a| {
          assert a[i].row == Rows(a)[i];
          var k :| 0 <= k < |init| && init[k].year == a[i].row.year;
          assert GroupCompare(gs[k], gs[|gs| - 1]) <= 0;
        } else {
          YearCompareZero(last.year, last.year);
        }
      }
    }
  }

  lemma {:induction false} AnnotateSpans(list: seq<FeeRow>)
    ensures SumRowSpans(Annotate(list)) == |list|
  {
    var n := |list|;
    var t := Annotate(list);
    for m := 0 to n
      invariant SumRowSpans(t[..m]) == if m == 0 then 0 else n
    {
      assert t[..m + 1][..m] == t[..m];
      assert t[..m + 1][m] == t[m];
    }
    assert t[..n] == t;
  }

  lemma {:induction false} SumRowSpansAppend(a: seq<FlatRow>, b: seq<FlatRow>)
    ensures SumRowSpans(a + b) == SumRowSpans(a) + SumRowSpans(b)
  {
    if b == [] {
      assert a + b == a;
    } else {
      var init := b[..|b| - 1];
      SumRowSpansAppend(a, init);
      assert (a + b)[..|a + b| - 1] == a + init;
    }
  }

  /** The year cells together span the whole table. */
  lemma {:induction false} FlatSpansCover(gs: seq<Group>)
    ensures SumRowSpans(Flat(gs)) == |Flat(gs)|
  {
    if gs != [] {
      var init := gs[..|gs| - 1];
      FlatSpansCover(init);
      AnnotateSpans(gs[|gs| - 1].list);
      SumRowSpansAppend(Flat(init), Annotate(gs[|gs| - 1].list));
    }
  }

  // ---------------------------------------------------------------------------
  // The table as a whole

  /** The `grouped` memo: bucket the rows, order the years, order each year's rows. */
  method GroupRows(rows: seq<FeeRow>) returns (grouped: seq<Group>)
    ensures grouped == Grouped(rows)
    ensures WellFormed(grouped) && StableSort.Sorted(grouped, GroupCompare)
  {
    var entries := BucketByYear(rows);
    var sorted := StableSort.Sort(entries, GroupCompare);
    grouped := SortEach(sorted);
    GroupedSpec(rows);
  }

  /** Each year shows, contiguously, exactly the input rows of that year, stably sorted by semester. */
  lemma {:induction false} TableRowsOfYear(rows: seq<FeeRow>, y: string)
    ensures RowsOfYear(Rows(Flat(Grouped(rows))), y) == StableSort.Sort(RowsOfYear(rows, y), SemesterCompare)
  {
    var gs := Grouped(rows);
    GroupedSpec(rows);
    FlatRows(gs);
    ConcatRowsOfYear(gs, y);
    if forall k :: 0 <= k < |gs| ==> gs[k].year != y {
      assert RowsOfYear(rows, y) == [];
    }
  }

  /** The table is a permutation of the input rows. */
  lemma TablePermutes(rows: seq<FeeRow>)
    ensures multiset(Rows(Flat(Grouped(rows)))) == multiset(rows)
    ensures |Flat(Grouped(rows))| == |rows|
  {
    var shown := Rows(Flat(Grouped(rows)));
    forall r
      ensures multiset(shown)[r] == multiset(rows)[r]
    {
      RowsOfYearCount(shown, r);
      RowsOfYearCount(rows, r);
      TableRowsOfYear(rows, r.year);
      StableSort.SortPermutes(RowsOfYear(rows, r.year), SemesterCompare);
    }
    assert multiset(shown) == multiset(rows);
    assert |multiset(shown)| == |multiset(rows)|;
  }

  /** Within a year, semesters never decrease, and rows with equal semester numbers keep their input order. */
  lemma TableSemestersOrdered(rows: seq<FeeRow>, y: string)
    ensures StableSort.Sorted(RowsOfYear(Rows(Flat(Grouped(rows))), y), SemesterCompare)
    ensures forall e :: StableSort.Equivalents(RowsOfYear(Rows(Flat(Grouped(rows))), y), e, SemesterCompare)
                     == StableSort.Equivalents(RowsOfYear(rows, y), e, SemesterCompare)
  {
    TableRowsOfYear(rows, y);
    SemesterCompareConsistent();
    StableSort.SortSorted(RowsOfYear(rows, y), SemesterCompare);
    forall e ensures StableSort.Equivalents(RowsOfYear(Rows(Flat(Grouped(rows))), y), e, SemesterCompare)
                  == StableSort.Equivalents(RowsOfYear(rows, y), e, SemesterCompare)
    {
      StableSort.SortStable(RowsOfYear(rows, y), e, SemesterCompare);
    }
  }

  /**
   * The layout of the table: years in order and contiguous, the year cell on
   * the first row of each year spanning as many rows as the input has of that
   * year, and the spans covering the table.
   */
  lemma TableLayout(rows: seq<FeeRow>)
    ensures var flat := Flat(Grouped(rows));
      && YearsOrdered(flat)
      && Contiguous(flat)
      && FirstFlags(flat)
      && (forall i :: 0 <= i < |flat| ==>
            flat[i].rowSpan == if flat[i].isYearFirst then |RowsOfYear(rows, flat[i].row.year)| else 0)
      && SumRowSpans(flat) == |rows|
  {
    var gs := Grouped(rows);
    var flat := Flat(gs);
    GroupedSpec(rows);
    FlatYearsOrdered(gs);
    FlatContiguous(gs);
    FlatFirstFlags(gs);
    FlatSpansCount(gs);
    FlatSpansCover(gs);
    TablePermutes(rows);
    forall i | 0 <= i < |flat| && flat[i].isYearFirst
      ensures flat[i].rowSpan == |RowsOfYear(rows, flat[i].row.year)|
    {
      TableRowsOfYear(rows, flat[i].row.year);
      StableSort.SortPermutes(RowsOfYear(rows, flat[i].row.year), SemesterCompare);
    }
  }

  // ---------------------------------------------------------------------------
  // Header chips and row colours

  /** `sample`: the first input row, when there is one. */
  function Sample(rows: seq<FeeRow>): (r: Option<FeeRow>)
    ensures r.None? <==> rows == []
    ensures r.Some? ==> r.value == rows[0]
  {
    if rows == [] then None else Some(rows[0])
  }

  /** What a header chip shows: an amount, or the dash placeholder. */
  datatype Chip<T> = Amount(value: T) | Dash

  /** The USD chip (the amount is shown with `toLocaleString`). */
  function UsdChip(rows: seq<FeeRow>): (c: Chip<int>)
    ensures c.Dash? <==> rows == []
    ensures c.Amount? ==> c.value == rows[0].usd
  {
    match Sample(rows)
    case Some(r) => Amount(r.usd)
    case None => Dash
  }

  /** The INR chip. */
  function InrChip(rows: seq<FeeRow>): (c: Chip<string>)
    ensures c.Dash? <==> rows == []
    ensures c.Amount? ==> c.value == rows[0].inr
  {
    match Sample(rows)
    case Some(r) => Amount(r.inr)
    case None => Dash
  }

  /**
   * The two chips show a dash together, exactly when the table is empty, and
   * otherwise both show the amounts of one and the same row of the table.
   */
  lemma HeaderChips(rows: seq<FeeRow>)
    ensures UsdChip(rows).Dash? <==> InrChip(rows).Dash?
    ensures UsdChip(rows).Dash? <==> Flat(Grouped(rows)) == []
    ensures UsdChip(rows).Amount? ==>
      exists i :: 0 <= i < |Flat(Grouped(rows))|
        && Flat(Grouped(rows))[i].row.usd == UsdChip(rows).value
        && Flat(Grouped(rows))[i].row.inr == InrChip(rows).value
  {
    var flat := Flat(Grouped(rows));
    TablePermutes(rows);
    if rows != [] {
      var shown := Rows(flat);
      assert rows[0] in multiset(rows);
      assert rows[0] in shown;
      var i :| 0 <= i < |shown| && shown[i] == rows[0];
      assert flat[i].row == rows[0];
    }
  }

  /** The colour tokens of the table body. */
  datatype Colour = Hover | StripeGray | StripeRed | YearCell

  /** The background of row `i` of `flat` given the hovered row. */
  function RowBackground(hoverIndex: Option<nat>, i: nat): (c: Colour)
    ensures c == Hover <==> hoverIndex == Some(i)
    ensures c != Hover ==> (c == StripeGray <==> i % 2 == 0)
    ensures c != YearCell
  {
    if hoverIndex == Some(i) then Hover else if i % 2 == 0 then StripeGray else StripeRed
  }

  /** The background of the year cell carried by row `i`: highlighted only while that very row is hovered. */
  function YearCellBackground(hoverIndex: Option<nat>, i: nat): (c: Colour)
    ensures c == Hover <==> hoverIndex == Some(i)
    ensures c != Hover ==> c == YearCell
  {
    if hoverIndex == Some(i) then Hover else YearCell
  }

  /** Neighbouring rows that are not hovered have different stripes, and at most one row is highlighted. */
  lemma StripesAlternate(hoverIndex: Option<nat>, i: nat)
    ensures hoverIndex != Some(i) && hoverIndex != Some(i + 1) ==>
      RowBackground(hoverIndex, i) != RowBackground(hoverIndex, i + 1)
    ensures forall j: nat :: j != i && RowBackground(hoverIndex, i) == Hover ==> RowBackground(hoverIndex, j) != Hover
  {
  }

  /**
   * The year cell of a row lights up together with that row, and stays in its
   * own colour while another row of the year it spans is hovered.
   */
  lemma YearCellMatchesRow(hoverIndex: Option<nat>, i: nat)
    ensures YearCellBackground(hoverIndex, i) == Hover <==> RowBackground(hoverIndex, i) == Hover
    ensures hoverIndex.Some? && hoverIndex.value != i ==> YearCellBackground(hoverIndex, i) == YearCell
  {
  }

  /** The hovered row of the table body (`hoverIndex`). */
  class RowHover {
    var hoverIndex: Option<nat>

    constructor()
      ensures hoverIndex == None
    {
      hoverIndex := None;
    }

    method MouseEnter(i: nat)
      modifies this
      ensures hoverIndex == Some(i)
    {
      hoverIndex := Some(i);
    }

    method MouseLeave()
      modifies this
      ensures hoverIndex == None
    {
      hoverIndex := None;
    }
  }
}
