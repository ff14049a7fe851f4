/** Column widths of the PDF tables, over the reals. */
module Columns {
  import opened Arithmetic
  import opened Sets
  import opened Wrappers

  function Sum(s: seq<real>): real {
    if s == [] then 0.0 else Sum(s[..|s| - 1]) + s[|s| - 1]
  }

  // ----- The median -----------------------------------------------------------------------------

  predicate Ascending(s: seq<real>) {
    forall i, j :: 0 <= i < j < |s| ==> s[i] <= s[j]
  }

  function Insert(s: seq<real>, x: real): (r: seq<real>)
    ensures |r| == |s| + 1
  {
    if s == [] || s[|s| - 1] <= x then s + [x] else Insert(s[..|s| - 1], x) + [s[|s| - 1]]
  }

  function Sorted(s: seq<real>): (r: seq<real>)
    ensures |r| == |s|
  {
    if s == [] then [] else Insert(Sorted(s[..|s| - 1]), s[|s| - 1])
  }

  function Median(values: seq<real>): real {
    if values == [] then 0.0
    else
      var sorted, mid := Sorted(values), |values| / 2;
      if |values| % 2 == 0 then (sorted[mid - 1] + sorted[mid]) / 2.0 else sorted[mid]
  }

  /** How many values are at least m, or at most m. */
  function Count(s: seq<real>, m: real, atLeast: bool): nat {
    if s == [] then 0
    else
      var x := s[|s| - 1];
      Count(s[..|s| - 1], m, atLeast) + if (if atLeast then x >= m else x <= m) then 1 else 0
  }

  lemma {:induction false} InsertSorts(s: seq<real>, x: real)
    requires Ascending(s)
    ensures Ascending(Insert(s, x))
    ensures forall y :: y in Insert(s, x) ==> y == x || y in s
  {
    if s != [] && s[|s| - 1] > x {
      var rest, last := s[..|s| - 1], s[|s| - 1];
      InsertSorts(rest, x);
      var r := Insert(rest, x);
      forall i | 0 <= i < |r|
        ensures r[i] <= last
      {
        assert r[i] in r;
      }
    }
  }

  lemma {:induction false} InsertCounts(s: seq<real>, x: real, m: real, atLeast: bool)
    ensures Count(Insert(s, x), m, atLeast) == Count(s + [x], m, atLeast)
  {
    assert (s + [x])[..|s|] == s;
    if s != [] && s[|s| - 1] > x {
      var rest, last := s[..|s| - 1], s[|s| - 1];
      InsertCounts(rest, x, m, atLeast);
      var r := Insert(rest, x);
      assert (r + [last])[..|r|] == r && (rest + [x])[..|rest|] == rest;
    }
  }

  lemma {:induction false} SortedSorts(s: seq<real>)
    ensures Ascending(Sorted(s))
  {
    if s != [] {
      SortedSorts(s[..|s| - 1]);
      InsertSorts(Sorted(s[..|s| - 1]), s[|s| - 1]);
    }
  }

  lemma {:induction false} SortedCounts(s: seq<real>, m: real, atLeast: bool)
    ensures Count(Sorted(s), m, atLeast) == Count(s, m, atLeast)
  {
    if s != [] {
      var r, last := Sorted(s[..|s| - 1]), s[|s| - 1];
      SortedCounts(s[..|s| - 1], m, atLeast);
      InsertCounts(r, last, m, atLeast);
      assert (r + [last])[..|r|] == r;
    }
  }

  lemma {:induction false} CountAscending(s: seq<real>, m: real, k: nat)
    requires Ascending(s) && k < |s|
    ensures s[k] <= m ==> Count(s, m, false) > k
    ensures s[k] >= m ==> Count(s, m, true) >= |s| - k
    decreases |s|
  {
    var rest := s[..|s| - 1];
    if k < |rest| {
      CountAscending(rest, m, k);
    } else if k > 0 {
      CountAscending(rest, m, k - 1);
      assert rest[k - 1] <= s[k];
    }
  }

  lemma Ordered(s: seq<real>, i: nat, j: nat)
    requires Ascending(s) && i <= j < |s|
    ensures s[i] <= s[j]
  {
  }

  /** The places of the values that are at most m, and of those that are at least m. */
  function AtMost(s: seq<real>, m: real): set<nat> {
    set i: nat | i < |s| && s[i] <= m
  }

  function AtLeast(s: seq<real>, m: real): set<nat> {
    set i: nat | i < |s| && s[i] >= m
  }

  lemma {:induction false} CountIs(s: seq<real>, m: real)
    ensures Count(s, m, false) == |AtMost(s, m)| && Count(s, m, true) == |AtLeast(s, m)|
  {
    if s != [] {
      CountIs(s[..|s| - 1], m);
      AtMostShorter(s, m);
      AtLeastShorter(s, m);
      hide AtMost, AtLeast;
    }
  }

  lemma AtMostShorter(s: seq<real>, m: real)
    requires s != []
    ensures |AtMost(s, m)| == |AtMost(s[..|s| - 1], m)| + if s[|s| - 1] <= m then 1 else 0
  {
    var n := |s| - 1;
    assert AtMost(s, m) == AtMost(s[..n], m) + if s[n] <= m then {n} else {};
  }

  lemma AtLeastShorter(s: seq<real>, m: real)
    requires s != []
    ensures |AtLeast(s, m)| == |AtLeast(s[..|s| - 1], m)| + if s[|s| - 1] >= m then 1 else 0
  {
    var n := |s| - 1;
    assert AtLeast(s, m) == AtLeast(s[..n], m) + if s[n] >= m then {n} else {};
  }

  /** The k-th smallest value, counted from 0: more than k are at most x, and all but k at least x. */
  predicate IsNth(values: seq<real>, k: nat, x: real) {
    |AtMost(values, x)| > k && |AtLeast(values, x)| >= |values| - k
  }

  lemma SortedNth(values: seq<real>, k: nat)
    requires k < |values|
    ensures IsNth(values, k, Sorted(values)[k])
  {
    hide Sorted, Count, Ascending, AtMost, AtLeast;
    var x := Sorted(values)[k];
    SortedSorts(values);
    SortedCounts(values, x, false);
    SortedCounts(values, x, true);
    CountAscending(Sorted(values), x, k);
    CountIs(values, x);
  }

  /** The median lies half way between the two values in the middle, which are the same for an odd
      number of values; half of the values are no more, and half no less. */
  lemma MedianSplits(values: seq<real>) returns (low: real, high: real)
    requires values != []
    ensures IsNth(values, (|values| - 1) / 2, low) && IsNth(values, |values| / 2, high)
    ensures low <= high && 2.0 * Median(values) == low + high
    ensures 2 * |AtMost(values, Median(values))| >= |values| && 2 * |AtLeast(values, Median(values))| >= |values|
  {
    low, high := Middle(values);
    hide Median, AtMost, AtLeast;
    AtMostGrows(values, low, Median(values));
    AtMostGrows(values, Median(values), high);
  }

  lemma Middle(values: seq<real>) returns (low: real, high: real)
    requires values != []
    ensures IsNth(values, (|values| - 1) / 2, low) && IsNth(values, |values| / 2, high)
    ensures low <= high && 2.0 * Median(values) == low + high
  {
    hide Sorted, IsNth, Ascending;
    var k, n := (|values| - 1) / 2, |values| / 2;
    low, high := Sorted(values)[k], Sorted(values)[n];
    SortedSorts(values);
    Ordered(Sorted(values), k, n);
    SortedNth(values, k);
    SortedNth(values, n);
  }

  lemma AtMostGrows(s: seq<real>, m: real, m': real)
    requires m <= m'
    ensures |AtMost(s, m)| <= |AtMost(s, m')| && |AtLeast(s, m')| <= |AtLeast(s, m)|
  {
    SubsetCount(AtMost(s, m), AtMost(s, m'));
    SubsetCount(AtLeast(s, m'), AtLeast(s, m));
  }

  // ----- The widths -----------------------------------------------------------------------------

  function Largest(s: seq<real>, start: real): real {
    if s == [] then start else MaxReal(Largest(s[..|s| - 1], start), s[|s| - 1])
  }

  function Floor(header: real, column: seq<real>): real {
    MaxReal(header, Median(column))
  }

  function Natural(header: real, column: seq<real>): real {
    Largest(column, header)
  }

  function Floors(headers: seq<real>, columns: seq<seq<real>>): seq<real>
    requires |headers| == |columns|
  {
    seq(|headers|, i requires 0 <= i < |headers| => Floor(headers[i], columns[i]))
  }

  /** Floored and capped, before the page width counts. */
  function Clamped(headers: seq<real>, columns: seq<seq<real>>, cap: real): seq<real>
    requires |headers| == |columns|
  {
    seq(|headers|, i requires 0 <= i < |headers| =>
      MaxReal(Floor(headers[i], columns[i]), MinReal(Natural(headers[i], columns[i]), cap)))
  }

  function Minus(a: seq<real>, b: seq<real>): seq<real>
    requires |a| == |b|
  {
    seq(|a|, i requires 0 <= i < |a| => a[i] - b[i])
  }

  function Shrunk(widths: seq<real>, slack: seq<real>, excess: real, totalSlack: real): (r: seq<real>)
    requires |widths| == |slack| && totalSlack > 0.0
    ensures |r| == |widths|
  {
    seq(|widths|, i requires 0 <= i < |widths| => widths[i] - excess * (slack[i] / totalSlack))
  }

  function Grown(widths: seq<real>, spare: real, total: real): seq<real>
    requires widths != [] ==> total != 0.0
  {
    seq(|widths|, i requires 0 <= i < |widths| => widths[i] + spare * (widths[i] / total))
  }

  /** Fits clamped widths to the page. */
  function Fit(widths: seq<real>, floors: seq<real>, usable: real): (r: seq<real>)
    requires |widths| == |floors| && (widths != [] && Sum(widths) < usable ==> Sum(widths) != 0.0)
    ensures |r| == |widths|
  {
    var total := Sum(widths);
    if total > usable then
      var slack := Minus(widths, floors);
      if Sum(slack) > 0.0 then Shrunk(widths, slack, total - usable, Sum(slack)) else widths
    else if total < usable then Grown(widths, usable - total, total)
    else widths
  }

  lemma {:induction false} SumOfMinus(a: seq<real>, b: seq<real>)
    requires |a| == |b|
    ensures Sum(Minus(a, b)) == Sum(a) - Sum(b)
    decreases |a|
  {
    if a != [] {
      var n := |a| - 1;
      SumOfMinus(a[..n], b[..n]);
      assert Minus(a, b)[..n] == Minus(a[..n], b[..n]);
    }
  }

  function Scale(c: real, x: real): real {
    c * x
  }

  function Ratio(a: real, b: real): real
    requires b != 0.0
  {
    a / b
  }

  lemma ShareIsScale(c: real, x: real, t: real)
    requires t != 0.0
    ensures c * (x / t) == Scale(Ratio(c, t), x)
    ensures Scale(Ratio(c, t), t) == c
  {
  }

  lemma ScaleAdds(c: real, x: real, y: real)
    ensures Scale(c, x + y) == Scale(c, x) + Scale(c, y)
  {
  }

  lemma ShareAtMost(excess: real, x: real, t: real)
    requires 0.0 <= x && 0.0 < t
    ensures excess <= t ==> Scale(Ratio(excess, t), x) <= x
    ensures excess > t && x > 0.0 ==> Scale(Ratio(excess, t), x) > x
    ensures excess >= 0.0 ==> Scale(Ratio(excess, t), x) >= 0.0
  {
    var q := excess / t;
    assert q * t == excess;
    if excess <= t {
      assert q <= 1.0;
    } else {
      assert q > 1.0;
    }
  }

  /** Widths that differ from w by c times s, element by element. */
  predicate Differs(r: seq<real>, w: seq<real>, s: seq<real>, c: real) {
    |r| == |w| == |s| && forall i :: 0 <= i < |r| ==> r[i] == w[i] + Scale(c, s[i])
  }

  lemma {:induction false} SumDiffers(r: seq<real>, w: seq<real>, s: seq<real>, c: real)
    requires Differs(r, w, s, c)
    ensures Sum(r) == Sum(w) + Scale(c, Sum(s))
    decreases |r|
  {
    if r == [] {
      assert w == [] && s == [];
    } else {
      hide Scale;
      var n := |r| - 1;
      SumDiffers(r[..n], w[..n], s[..n], c);
      ScaleAdds(c, Sum(s[..n]), s[n]);
    }
  }

  lemma {:induction false} SumOfNone(s: seq<real>)
    requires forall i :: 0 <= i < |s| ==> s[i] >= 0.0
    ensures Sum(s) >= 0.0 && (forall i :: 0 <= i < |s| ==> s[i] <= Sum(s))
    decreases |s|
  {
    if s != [] {
      var n := |s| - 1;
      SumOfNone(s[..n]);
      forall i | 0 <= i < |s|
        ensures s[i] <= Sum(s)
      {
        if i < n {
          assert s[..n][i] == s[i];
        }
      }
    }
  }

  /** Nothing is below its floor. */
  predicate AboveFloors(widths: seq<real>, floors: seq<real>) {
    |widths| == |floors| && forall i :: 0 <= i < |widths| ==> widths[i] >= floors[i]
  }

  lemma ShrunkAt(w: seq<real>, slack: seq<real>, excess: real, t: real, i: nat)
    requires |w| == |slack| && t > 0.0 && i < |w|
    ensures w[i] == Shrunk(w, slack, excess, t)[i] + Scale(Ratio(excess, t), slack[i])
  {
    var share := excess * (slack[i] / t);
    ShareIsScale(excess, slack[i], t);
    hide Scale, Ratio;
    assert Shrunk(w, slack, excess, t)[i] == w[i] - share;
  }

  lemma ShrunkSums(w: seq<real>, slack: seq<real>, excess: real)
    requires |w| == |slack| && Sum(slack) > 0.0
    ensures Differs(w, Shrunk(w, slack, excess, Sum(slack)), slack, Ratio(excess, Sum(slack)))
    ensures Sum(Shrunk(w, slack, excess, Sum(slack))) == Sum(w) - excess
  {
    hide Scale, Ratio, Shrunk;
    var t := Sum(slack);
    var r := Shrunk(w, slack, excess, t);
    forall i | 0 <= i < |w|
      ensures w[i] == r[i] + Scale(Ratio(excess, t), slack[i])
    {
      ShrunkAt(w, slack, excess, t, i);
    }
    SumDiffers(w, r, slack, Ratio(excess, t));
    ShareIsScale(excess, t, t);
  }

  lemma GrownSums(w: seq<real>, spare: real)
    requires Sum(w) != 0.0
    ensures Differs(Grown(w, spare, Sum(w)), w, w, Ratio(spare, Sum(w)))
    ensures Sum(Grown(w, spare, Sum(w))) == Sum(w) + spare
  {
    hide Scale, Ratio;
    var t := Sum(w);
    var r := Grown(w, spare, t);
    forall i | 0 <= i < |w|
      ensures r[i] == w[i] + Scale(Ratio(spare, t), w[i])
    {
      ShareIsScale(spare, w[i], t);
    }
    SumDiffers(r, w, w, Ratio(spare, t));
    ShareIsScale(spare, t, t);
  }

  /** The widths of one or more columns fill the page exactly, unless every column is at its floor
      and they still do not fit. */
  lemma FitFills(widths: seq<real>, floors: seq<real>, usable: real)
    requires AboveFloors(widths, floors) && (widths != [] && Sum(widths) < usable ==> Sum(widths) != 0.0)
    ensures widths != [] ==> (Sum(Fit(widths, floors, usable)) == usable <==> !(Sum(widths) > usable && widths == floors))
  {
    hide Scale, Ratio, Shrunk, Grown;
    var slack, total := Minus(widths, floors), Sum(widths);
    SumOfMinus(widths, floors);
    SumOfNone(slack);
    if total > usable {
      if Sum(slack) > 0.0 {
        ShrunkSums(widths, slack, total - usable);
      } else {
        NoSlack(widths, floors);
      }
    } else if total < usable && widths != [] {
      GrownSums(widths, usable - total);
    }
  }

  lemma NoSlack(widths: seq<real>, floors: seq<real>)
    requires AboveFloors(widths, floors) && Sum(Minus(widths, floors)) <= 0.0
    ensures widths == floors
  {
    var slack := Minus(widths, floors);
    SumOfNone(slack);
    hide Sum;
    forall i | 0 <= i < |widths|
      ensures widths[i] == floors[i]
    {
      assert slack[i] == widths[i] - floors[i];
    }
  }

  lemma FloorsSum(widths: seq<real>, floors: seq<real>)
    requires AboveFloors(widths, floors)
    ensures |widths| == |floors| && Sum(Minus(widths, floors)) == Sum(widths) - Sum(floors) >= 0.0
  {
    SumOfMinus(widths, floors);
    SumOfNone(Minus(widths, floors));
  }

  lemma GrowKeeps(widths: seq<real>, floors: seq<real>, usable: real)
    requires AboveFloors(widths, floors) && (forall i :: 0 <= i < |widths| ==> widths[i] >= 0.0)
    requires 0.0 < Sum(widths) < usable
    ensures AboveFloors(Grown(widths, usable - Sum(widths), Sum(widths)), floors)
  {
    hide Scale, Ratio, Sum;
    var spare, total := usable - Sum(widths), Sum(widths);
    forall i | 0 <= i < |widths|
      ensures Grown(widths, spare, total)[i] >= floors[i]
    {
      ShareIsScale(spare, widths[i], total);
      ShareAtMost(spare, widths[i], total);
    }
  }

  /** No column ends below its floor exactly when the floors fit the page or every column is at
      its floor already. */
  lemma FitKeepsFloors(widths: seq<real>, floors: seq<real>, usable: real)
    requires AboveFloors(widths, floors) && (forall i :: 0 <= i < |widths| ==> widths[i] >= 0.0)
    requires widths != [] && Sum(widths) < usable ==> Sum(widths) != 0.0
    ensures AboveFloors(Fit(widths, floors, usable), floors) <==> Sum(floors) <= usable || widths == floors
  {
    hide Shrunk, Grown, Sum, AboveFloors;
    FloorsSum(widths, floors);
    var slack, total := Minus(widths, floors), Sum(widths);
    if total > usable {
      if Sum(slack) > 0.0 {
        ShrinkKeeps(widths, floors, slack, usable);
      } else {
        NoSlack(widths, floors);
      }
    } else if total < usable && widths != [] {
      SumOfNone(widths);
      GrowKeeps(widths, floors, usable);
    } else {
      assert Fit(widths, floors, usable) == widths;
    }
  }

  /** Spare width is handed out in proportion to the widths, missing width is taken in proportion
      to the slack above the floors. */
  lemma FitShares(widths: seq<real>, floors: seq<real>, usable: real, i: nat, j: nat)
    requires |widths| == |floors| && i < |widths| && j < |widths|
    requires widths != [] && Sum(widths) < usable ==> Sum(widths) != 0.0
    ensures var r := Fit(widths, floors, usable);
            (Sum(widths) < usable ==> InProportion(r[i], r[j], widths[i], widths[j])) &&
            (Sum(widths) > usable ==>
               InProportion(widths[i] - r[i], widths[j] - r[j], widths[i] - floors[i], widths[j] - floors[j]))
  {
    hide Scale, Ratio, Shrunk, Grown, InProportion;
    var slack, total := Minus(widths, floors), Sum(widths);
    if total > usable {
      if Sum(slack) > 0.0 {
        ShrunkSums(widths, slack, total - usable);
        Cross(Ratio(total - usable, Sum(slack)), slack[i], slack[j]);
      } else {
        NothingIsInProportion(slack[i], slack[j]);
      }
    } else if total < usable {
      GrownSums(widths, usable - total);
      Cross(Ratio(usable - total, total), widths[i], widths[j]);
    }
  }

  lemma Cross(c: real, x: real, y: real)
    ensures InProportion(x + Scale(c, x), y + Scale(c, y), x, y)
    ensures InProportion(Scale(c, x), Scale(c, y), x, y)
  {
  }

  /** a is to x as b is to y. */
  predicate InProportion(a: real, b: real, x: real, y: real) {
    a * y == b * x
  }

  lemma NothingIsInProportion(x: real, y: real)
    ensures InProportion(0.0, 0.0, x, y)
  {
  }

  lemma ShrinkKeeps(widths: seq<real>, floors: seq<real>, slack: seq<real>, usable: real)
    requires AboveFloors(widths, floors) && slack == Minus(widths, floors) && Sum(slack) > 0.0
    requires Sum(slack) == Sum(widths) - Sum(floors)
    ensures widths != floors
    ensures AboveFloors(Shrunk(widths, slack, Sum(widths) - usable, Sum(slack)), floors) <==> Sum(floors) <= usable
  {
    hide Scale, Ratio, Shrunk;
    var excess, t := Sum(widths) - usable, Sum(slack);
    var r := Shrunk(widths, slack, excess, t);
    ShrunkSums(widths, slack, excess);
    forall i | 0 <= i < |widths|
      ensures excess <= t ==> r[i] >= floors[i]
      ensures excess > t && slack[i] > 0.0 ==> r[i] < floors[i]
    {
      ShareAtMost(excess, slack[i], t);
    }
    var k := SomePositive(slack);
    assert widths[k] != floors[k];
  }

  lemma {:induction false} SomePositive(s: seq<real>) returns (k: nat)
    requires Sum(s) > 0.0
    ensures k < |s| && s[k] > 0.0
    decreases |s|
  {
    k := |s| - 1;
    if s[k] <= 0.0 {
      k := SomePositive(s[..k]);
    }
  }

  // ----- The whole layout -----------------------------------------------------------------------

  type Row = seq<Option<string>>

  /** A cell that counts: there, neither null nor empty. */
  function Cell(row: Row, i: nat): Option<string> {
    if i < |row| && row[i].Some? && row[i].value != "" then row[i] else None
  }

  /** The measured widths of one column's cells. */
  function Column(plain: string -> real, padding: real, rows: seq<Row>, i: nat): seq<real> {
    if rows == [] then []
    else
      var before, cell := Column(plain, padding, rows[..|rows| - 1], i), Cell(rows[|rows| - 1], i);
      if cell.Some? then before + [plain(cell.value) + padding] else before
  }

  function HeaderWidths(bold: string -> real, padding: real, headers: seq<string>): seq<real> {
    seq(|headers|, i requires 0 <= i < |headers| => bold(headers[i]) + padding)
  }

  function AllColumns(plain: string -> real, padding: real, rows: seq<Row>, n: nat): seq<seq<real>> {
    seq(n, i requires 0 <= i < n => Column(plain, padding, rows, i))
  }

  lemma {:induction false} LargestIsLargest(s: seq<real>, start: real)
    ensures Largest(s, start) >= start && forall x :: x in s ==> x <= Largest(s, start)
    ensures Largest(s, start) == start || Largest(s, start) in s
  {
    if s != [] {
      LargestIsLargest(s[..|s| - 1], start);
      forall x | x in s
        ensures x <= Largest(s, start)
      {
        assert x in s[..|s| - 1] || x == s[|s| - 1];
      }
    }
  }

  /** A clamped column is at its floor or within the cap, shows in full the header and every cell that is
      within the cap, and is no wider than its floor or the widest of them asks for. */
  lemma ClampedShows(headers: seq<real>, columns: seq<seq<real>>, cap: real, i: nat)
    requires |headers| == |columns| && i < |headers|
    ensures var w := Clamped(headers, columns, cap)[i];
            (w == Floor(headers[i], columns[i]) || w <= cap) && w >= headers[i] &&
            (forall x :: x in columns[i] && x <= cap ==> x <= w) && (columns[i] == [] && headers[i] >= 0.0 ==> w == headers[i]) &&
            (w > Floor(headers[i], columns[i]) ==> w == headers[i] || exists x :: x in columns[i] && w <= x)
  {
    assert columns[i] == [] ==> Median(columns[i]) == 0.0;
    hide Largest, Median;
    LargestIsLargest(columns[i], headers[i]);
  }

  lemma ClampedAboveFloors(headers: seq<real>, columns: seq<seq<real>>, cap: real)
    requires |headers| == |columns| && forall i :: 0 <= i < |headers| ==> headers[i] > 0.0
    ensures var w := Clamped(headers, columns, cap);
            AboveFloors(w, Floors(headers, columns)) && forall i :: 0 <= i < |w| ==> w[i] > 0.0
  {
    forall i | 0 <= i < |headers|
      ensures Floor(headers[i], columns[i]) >= headers[i] > 0.0
    {
      hide Median;
    }
  }

  lemma PositiveSum(s: seq<real>)
    requires s != [] && forall i :: 0 <= i < |s| ==> s[i] > 0.0
    ensures Sum(s) > 0.0
  {
    SumOfNone(s);
  }

  /** The measured cells, column by column. */
  method MeasureColumns(plain: string -> real, padding: real, rows: seq<Row>, n: nat) returns (columns: seq<seq<real>>)
    ensures columns == AllColumns(plain, padding, rows, n)
  {
    columns := seq(n, i => []);
    for i := 0 to n
      invariant |columns| == n
      invariant forall j :: 0 <= j < i ==> columns[j] == Column(plain, padding, rows, j)
      invariant forall j :: i <= j < n ==> columns[j] == []
    {
      for r := 0 to |rows|
        invariant |columns| == n
        invariant forall j :: 0 <= j < i ==> columns[j] == Column(plain, padding, rows, j)
        invariant forall j :: i < j < n ==> columns[j] == []
        invariant columns[i] == Column(plain, padding, rows[..r], i)
      {
        assert rows[..r + 1][..r] == rows[..r];
        var row := rows[r];
        if i >= |row| || row[i].None? || row[i].value == "" {
          continue;
        }
        columns := columns[i := columns[i] + [plain(row[i].value) + padding]];
      }
      assert rows[..|rows|] == rows;
    }
  }

  /** bold and plain measure a text in the header's and the cells' font. When the floors fit, the
      widths fill the page exactly and none is below its floor; in general no width is below its
      floor exactly when the floors fit or every column already is at its floor. */
  method AutoColumnWidths(bold: string -> real, plain: string -> real, headers: seq<string>, rows: seq<Row>,
                          usable: real, padding: real, maxShare: real)
    returns (widths: seq<real>)
    requires padding > 0.0 && forall s :: bold(s) >= 0.0
    ensures var hw, columns := HeaderWidths(bold, padding, headers), AllColumns(plain, padding, rows, |headers|);
            var clamped := Clamped(hw, columns, usable * maxShare);
            |widths| == |headers| && (clamped != [] ==> Sum(clamped) > 0.0) && widths == Fit(clamped, Floors(hw, columns), usable)
    ensures LaidOut(widths, HeaderWidths(bold, padding, headers), AllColumns(plain, padding, rows, |headers|), usable, usable * maxShare)
  {
    hide Column, Clamped, Floors, Fit, Sum, LaidOut;
    var headerWidths := HeaderWidths(bold, padding, headers);
    var columns := MeasureColumns(plain, padding, rows, |headers|);
    widths := Fit(Clamped(headerWidths, columns, usable * maxShare), Floors(headerWidths, columns), usable) by {
      ClampedFits(headerWidths, columns, usable * maxShare);
    }
    FitLaysOut(headerWidths, columns, usable, usable * maxShare);
  }

  predicate LaidOut(widths: seq<real>, headers: seq<real>, columns: seq<seq<real>>, usable: real, cap: real)
    requires |headers| == |columns|
  {
    var floors, clamped := Floors(headers, columns), Clamped(headers, columns, cap);
    (headers != [] && Sum(floors) <= usable ==> Sum(widths) == usable) &&
    (AboveFloors(widths, floors) <==> Sum(floors) <= usable || clamped == floors) &&
    (Sum(clamped) == usable ==> widths == clamped)
  }

  lemma ClampedFits(headers: seq<real>, columns: seq<seq<real>>, cap: real)
    requires |headers| == |columns| && forall i :: 0 <= i < |headers| ==> headers[i] > 0.0
    ensures var w := Clamped(headers, columns, cap);
            |w| == |headers| == |Floors(headers, columns)| && (w != [] ==> Sum(w) > 0.0)
  {
    var w := Clamped(headers, columns, cap);
    ClampedAboveFloors(headers, columns, cap);
    hide Clamped, Sum;
    if w != [] {
      PositiveSum(w);
    }
  }

  lemma FitLaysOut(headers: seq<real>, columns: seq<seq<real>>, usable: real, cap: real)
    requires |headers| == |columns| && forall i :: 0 <= i < |headers| ==> headers[i] > 0.0
    ensures var w := Clamped(headers, columns, cap);
            |w| == |headers| == |Floors(headers, columns)| && (w != [] ==> Sum(w) > 0.0) &&
            LaidOut(Fit(w, Floors(headers, columns), usable), headers, columns, usable, cap)
  {
    hide Clamped, Floors, Fit;
    var w, floors := Clamped(headers, columns, cap), Floors(headers, columns);
    ClampedFits(headers, columns, cap);
    ClampedAboveFloors(headers, columns, cap);
    FitFills(w, floors, usable);
    FitKeepsFloors(w, floors, usable);
    if Sum(w) == usable {
      FitLeaves(w, floors, usable);
    }
  }

  lemma FitLeaves(widths: seq<real>, floors: seq<real>, usable: real)
    requires |widths| == |floors| && Sum(widths) == usable
    ensures Fit(widths, floors, usable) == widths
  {
  }

  /** A font whose characters are all one point wide. */
  function Monospaced(s: string): real {
    |s| as real
  }

  /** Two columns on a page of 28 points, with the cells of the first one missing: the second column
      gets 9 points, less than its floor of 10. */
  lemma FloorMissed()
    ensures var headers, rows := ["Description", ""], [[None, Some("x")], [None, Some("xyz")]];
            var hw, columns := HeaderWidths(Monospaced, 8.0, headers), AllColumns(Monospaced, 8.0, rows, 2);
            var clamped, floors := Clamped(hw, columns, 28.0 * 0.38), Floors(hw, columns);
            Sum(clamped) == 29.64 && floors == [19.0, 10.0] && Fit(clamped, floors, 28.0) == [19.0, 9.0]
  {
    FloorMissedHeaders();
    FloorMissedCells();
    hide HeaderWidths, AllColumns;
    MedianOfTwo(9.0, 11.0);
    LargestOfTwo(9.0, 11.0, 8.0);
    FloorMissedFit();
    hide Sum, Fit, Median, Largest, Sorted;
    assert Floors([19.0, 8.0], [[], [9.0, 11.0]]) == [19.0, 10.0];
    assert Clamped([19.0, 8.0], [[], [9.0, 11.0]], 28.0 * 0.38) == [19.0, 10.64];
  }

  lemma FloorMissedHeaders()
    ensures HeaderWidths(Monospaced, 8.0, ["Description", ""]) == [19.0, 8.0]
  {
    assert |"Description"| == 11;
    assert HeaderWidths(Monospaced, 8.0, ["Description", ""])[0] == Monospaced("Description") + 8.0;
  }

  lemma FloorMissedCells()
    ensures AllColumns(Monospaced, 8.0, [[None, Some("x")], [None, Some("xyz")]], 2) == [[], [9.0, 11.0]]
  {
    var a: Row, b: Row := [None, Some("x")], [None, Some("xyz")];
    ColumnOfTwo(a, b, 0);
    ColumnOfTwo(a, b, 1);
    hide Column;
    assert Cell(a, 1) == Some("x") && Cell(b, 1) == Some("xyz");
    assert Monospaced("x") == 1.0 && Monospaced("xyz") == 3.0;
    assert Column(Monospaced, 8.0, [a, b], 0) == [];
    assert Column(Monospaced, 8.0, [a, b], 1) == [9.0, 11.0];
  }

  lemma FloorMissedFit()
    ensures Sum([19.0, 10.64]) == 29.64 && Fit([19.0, 10.64], [19.0, 10.0], 28.0) == [19.0, 9.0]
  {
    SumOfTwo(19.0, 10.64);
    SumOfTwo(0.0, 0.64);
    hide Sum;
    assert Minus([19.0, 10.64], [19.0, 10.0]) == [0.0, 0.64];
    assert Shrunk([19.0, 10.64], [0.0, 0.64], 1.64, 0.64) == [19.0, 9.0];
  }

  lemma ColumnOfTwo(a: Row, b: Row, i: nat)
    ensures var x, y := Cell(a, i), Cell(b, i);
            Column(Monospaced, 8.0, [a, b], i) ==
            (if x.Some? then [Monospaced(x.value) + 8.0] else []) + if y.Some? then [Monospaced(y.value) + 8.0] else []
  {
    assert [a, b][..1] == [a] && [a][..0] == [];
    assert Column(Monospaced, 8.0, [a], i) == if Cell(a, i).Some? then [Monospaced(Cell(a, i).value) + 8.0] else [];
  }

  lemma MedianOfTwo(x: real, y: real)
    requires x <= y
    ensures Median([x, y]) == (x + y) / 2.0
  {
    assert [x, y][..1] == [x] && [x][..0] == [];
    assert Sorted([x]) == [x];
    assert Sorted([x, y]) == [x, y];
  }

  lemma LargestOfTwo(x: real, y: real, start: real)
    ensures Largest([x, y], start) == MaxReal(MaxReal(start, x), y)
  {
    assert [x, y][..1] == [x] && [x][..0] == [];
    assert Largest([x], start) == MaxReal(start, x);
  }

  lemma SumOfTwo(x: real, y: real)
    ensures Sum([x, y]) == x + y
  {
    assert [x, y][..1] == [x] && [x][..0] == [];
    assert Sum([x]) == x;
  }
}
