/**
 * The aggregates the page shows under the filtered, converted table: the
 * totals per person, the totals per priority, the net balance, and the
 * per-month, per-person amounts the bar chart is drawn from.
 */
module Summary {
  import opened Expense
  import opened Selection
  import opened Views
  import opened Seed

  datatype Person = Chix | Matilda

  /** A person's column of a row. */
  function Share(r: Row, p: Person): real
  {
    match p
    case Chix => r.chix
    case Matilda => r.matilda
  }

  /** The sum of the Total column; 0 for an empty table. */
  function SumTotal(rows: seq<Row>): real
  {
    if rows == [] then 0.0 else SumTotal(rows[..|rows| - 1]) + rows[|rows| - 1].total
  }

  /** The sum of one person's column; 0 for an empty table. */
  function SumShare(rows: seq<Row>, p: Person): real
  {
    if rows == [] then 0.0 else SumShare(rows[..|rows| - 1], p) + Share(rows[|rows| - 1], p)
  }

  datatype PersonTotals = PersonTotals(chix: real, matilda: real)

  /** The spending of each person over the shown rows. */
  function TotalsByPerson(rows: seq<Row>): PersonTotals
  {
    PersonTotals(SumShare(rows, Chix), SumShare(rows, Matilda))
  }

  /** How much more Chix has spent than Matilda over the shown rows. */
  function NetBalance(rows: seq<Row>): real
  {
    var t := TotalsByPerson(rows);
    t.chix - t.matilda
  }

  /** Over balanced rows the two people's totals add up to the table's total. */
  lemma {:induction false} PersonTotalsAddUp(rows: seq<Row>)
    requires forall i :: 0 <= i < |rows| ==> rows[i].chix + rows[i].matilda == rows[i].total
    ensures TotalsByPerson(rows).chix + TotalsByPerson(rows).matilda == SumTotal(rows)
  {
    if rows != [] {
      PersonTotalsAddUp(rows[..|rows| - 1]);
    }
  }

  lemma SumTotalSnoc(rows: seq<Row>, x: Row)
    ensures SumTotal(rows + [x]) == SumTotal(rows) + x.total
  {
    assert (rows + [x])[..|rows|] == rows;
  }

  lemma SumShareSnoc(rows: seq<Row>, x: Row, p: Person)
    ensures SumShare(rows + [x], p) == SumShare(rows, p) + Share(x, p)
  {
    assert (rows + [x])[..|rows|] == rows;
  }

  /** The Total sum over a converted table is the rate times the Total sum over the table. */
  lemma {:induction false} SumTotalScalesWithRate(rows: seq<Row>, rate: real)
    ensures SumTotal(Convert(rows, rate)) == rate * SumTotal(rows)
  {
    if rows != [] {
      var n := |rows| - 1;
      SumTotalScalesWithRate(rows[..n], rate);
      assert Convert(rows, rate)[..n] == Convert(rows[..n], rate);
      assert rate * SumTotal(rows) == rate * SumTotal(rows[..n]) + rate * rows[n].total;
    }
  }

  /** A person's sum over a converted table is the rate times that person's sum over the table. */
  lemma {:induction false} SumShareScalesWithRate(rows: seq<Row>, p: Person, rate: real)
    ensures SumShare(Convert(rows, rate), p) == rate * SumShare(rows, p)
  {
    if rows != [] {
      var n := |rows| - 1;
      SumShareScalesWithRate(rows[..n], p, rate);
      assert Convert(rows, rate)[..n] == Convert(rows[..n], rate);
      assert rate * SumShare(rows, p) == rate * SumShare(rows[..n], p) + rate * Share(rows[n], p);
    }
  }

  /** The net balance shown in another currency is the kronor balance times the rate. */
  lemma NetBalanceScalesWithRate(rows: seq<Row>, rate: real)
    ensures NetBalance(Convert(rows, rate)) == rate * NetBalance(rows)
  {
    SumShareScalesWithRate(rows, Chix, rate);
    SumShareScalesWithRate(rows, Matilda, rate);
  }

  /** On the demonstration table Chix has spent 8093 kronor, Matilda 2350, a net balance of 5743. */
  lemma SeedTableBalance()
    ensures TotalsByPerson(SeedRows()) == PersonTotals(8093.0, 2350.0)
    ensures NetBalance(SeedRows()) == 5743.0
  {
    var rows := SeedRows();
    assert rows[..1][..0] == [];
    assert SumShare(rows[..1], Chix) == 0.0 && SumShare(rows[..1], Matilda) == 0.0;
    assert rows[..2][..1] == rows[..1];
    assert SumShare(rows[..2], Chix) == 5743.0 && SumShare(rows[..2], Matilda) == 0.0;
    assert rows[..3][..2] == rows[..2];
    assert SumShare(rows[..3], Chix) == 7993.0 && SumShare(rows[..3], Matilda) == 2250.0;
    assert rows[..4][..3] == rows[..3];
    assert SumShare(rows[..4], Chix) == 7993.0 && SumShare(rows[..4], Matilda) == 2250.0;
    assert rows[..4] == rows[..|rows| - 1];
  }

  /** The rows of one priority, in table order. */
  function OfPriority(rows: seq<Row>, p: Priority): seq<Row>
  {
    if rows == [] then []
    else
      var n := |rows| - 1;
      OfPriority(rows[..n], p) + (if rows[n].priority == p then [rows[n]] else [])
  }

  function Priorities(rows: seq<Row>): set<Priority>
  {
    set r | r in rows :: r.priority
  }

  /** A group's sum, 0 for a priority that has no group. */
  function Lookup(m: map<Priority, real>, p: Priority): real
  {
    if p in m then m[p] else 0.0
  }

  /** The Total column summed per priority, one entry per priority present in the rows. */
  function TotalsByPriority(rows: seq<Row>): map<Priority, real>
  {
    if rows == [] then map[]
    else
      var n := |rows| - 1;
      var m := TotalsByPriority(rows[..n]);
      m[rows[n].priority := Lookup(m, rows[n].priority) + rows[n].total]
  }

  /** The per-priority totals have a group exactly for the priorities present in the rows. */
  lemma {:induction false} PriorityTotalsHaveOneGroupPerPriority(rows: seq<Row>)
    ensures TotalsByPriority(rows).Keys == Priorities(rows)
  {
    if rows != [] {
      var n := |rows| - 1;
      PriorityTotalsHaveOneGroupPerPriority(rows[..n]);
      assert rows == rows[..n] + [rows[n]];
      assert Priorities(rows) == Priorities(rows[..n]) + {rows[n].priority};
    }
  }

  /** A priority's group holds the sum of Total over the rows of that priority (0 when it has none). */
  lemma {:induction false} PriorityTotalsAreGroupSums(rows: seq<Row>, p: Priority)
    ensures Lookup(TotalsByPriority(rows), p) == SumTotal(OfPriority(rows, p))
  {
    if rows != [] {
      var n := |rows| - 1;
      var x := rows[n];
      PriorityTotalsAreGroupSums(rows[..n], p);
      if x.priority == p {
        SumTotalSnoc(OfPriority(rows[..n], p), x);
      } else {
        assert OfPriority(rows, p) == OfPriority(rows[..n], p) + [];
        assert OfPriority(rows[..n], p) + [] == OfPriority(rows[..n], p);
      }
    }
  }

  /** The per-priority totals add up to the sum of all Totals. */
  lemma {:induction false} PriorityTotalsAddUp(rows: seq<Row>)
    ensures var m := TotalsByPriority(rows);
      Lookup(m, VeryHigh) + Lookup(m, High) + Lookup(m, Medium) + Lookup(m, Low) == SumTotal(rows)
  {
    if rows != [] {
      var n := |rows| - 1;
      var m0 := TotalsByPriority(rows[..n]);
      var m := TotalsByPriority(rows);
      var q := rows[n].priority;
      PriorityTotalsAddUp(rows[..n]);
      assert Lookup(m, q) == Lookup(m0, q) + rows[n].total;
      assert forall p :: p != q ==> Lookup(m, p) == Lookup(m0, p);
    }
  }

  /** One line of the grouped monthly table: a month and the two people's sums for it. */
  datatype MonthSums = MonthSums(month: string, chix: real, matilda: real)

  /** The rows of one month, in table order. */
  function OfMonth(rows: seq<Row>, month: string): seq<Row>
  {
    if rows == [] then []
    else
      var n := |rows| - 1;
      OfMonth(rows[..n], month) + (if rows[n].month == month then [rows[n]] else [])
  }

  function MonthSet(rows: seq<Row>): set<string>
  {
    set r | r in rows :: r.month
  }

  function MonthsOf(g: seq<MonthSums>): set<string>
  {
    set e | e in g :: e.month
  }

  /** The position of a month's line in the grouped table, or -1 when it has none. */
  function IndexOfMonth(g: seq<MonthSums>, month: string): (i: int)
    ensures -1 <= i < |g|
    ensures 0 <= i ==> g[i].month == month
    ensures i < 0 ==> month !in MonthsOf(g)
  {
    if g == [] then -1
    else if g[|g| - 1].month == month then |g| - 1
    else
      assert MonthsOf(g) == MonthsOf(g[..|g| - 1]) + {g[|g| - 1].month} by {
        assert g == g[..|g| - 1] + [g[|g| - 1]];
      }
      IndexOfMonth(g[..|g| - 1], month)
  }

  /** One step of the grouping: the row adds to its month's line, or opens a new line at the end. */
  function AddToGroups(g: seq<MonthSums>, x: Row): seq<MonthSums>
  {
    var i := IndexOfMonth(g, x.month);
    if i < 0 then g + [MonthSums(x.month, x.chix, x.matilda)]
    else g[i := MonthSums(x.month, g[i].chix + x.chix, g[i].matilda + x.matilda)]
  }

  /** Grouping by Month and summing the Chix and Matilda columns, in one pass over the rows. */
  function GroupByMonth(rows: seq<Row>): seq<MonthSums>
  {
    if rows == [] then [] else AddToGroups(GroupByMonth(rows[..|rows| - 1]), rows[|rows| - 1])
  }

  predicate DistinctMonths(g: seq<MonthSums>)
  {
    forall i, j :: 0 <= i < j < |g| ==> g[i].month != g[j].month
  }

  /** A grouping step keeps one line per month and adds the row's month to the months listed. */
  lemma AddToGroupsKeepsMonthsDistinct(g: seq<MonthSums>, x: Row)
    requires DistinctMonths(g)
    ensures DistinctMonths(AddToGroups(g, x))
    ensures MonthsOf(AddToGroups(g, x)) == MonthsOf(g) + {x.month}
  {
    var g' := AddToGroups(g, x);
    var i := IndexOfMonth(g, x.month);
    if i < 0 {
      assert g' == g + [g'[|g|]];
    } else {
      forall e | e in g ensures e.month in MonthsOf(g') {
        var k :| 0 <= k < |g| && g[k] == e;
        assert g'[k].month == e.month;
      }
    }
  }

  /** The grouped table has exactly one line per distinct month of the rows. */
  lemma {:induction false} GroupByMonthListsEachMonthOnce(rows: seq<Row>)
    ensures DistinctMonths(GroupByMonth(rows))
    ensures MonthsOf(GroupByMonth(rows)) == MonthSet(rows)
  {
    if rows != [] {
      var n := |rows| - 1;
      GroupByMonthListsEachMonthOnce(rows[..n]);
      AddToGroupsKeepsMonthsDistinct(GroupByMonth(rows[..n]), rows[n]);
      MonthSetSnoc(rows[..n], rows[n]);
      assert rows[..n] + [rows[n]] == rows;
    }
  }

  lemma MonthSetSnoc(rows: seq<Row>, x: Row)
    ensures MonthSet(rows + [x]) == MonthSet(rows) + {x.month}
  {
    var all := rows + [x];
    forall m | m in MonthSet(rows) ensures m in MonthSet(all) {
      var r :| r in rows && r.month == m;
      assert r in all;
    }
    assert x in all;
  }

  /** Each line holds, for its month, the sums of the Chix and Matilda columns over that month's rows. */
  predicate LinesHoldMonthSums(g: seq<MonthSums>, rows: seq<Row>)
  {
    forall j :: 0 <= j < |g| ==>
      g[j].chix == SumShare(OfMonth(rows, g[j].month), Chix)
      && g[j].matilda == SumShare(OfMonth(rows, g[j].month), Matilda)
  }

  /** A grouping step with the next row keeps every line equal to its month's sums. */
  lemma AddToGroupsKeepsSums(g: seq<MonthSums>, all: seq<Row>)
    requires all != []
    requires var rows := all[..|all| - 1];
      DistinctMonths(g) && LinesHoldMonthSums(g, rows) && MonthsOf(g) == MonthSet(rows)
    ensures LinesHoldMonthSums(AddToGroups(g, all[|all| - 1]), all)
  {
    var rows := all[..|all| - 1];
    var x := all[|all| - 1];
    var g' := AddToGroups(g, x);
    var i := IndexOfMonth(g, x.month);
    if i < 0 {
      OfMonthAbsent(rows, x.month);
      SumShareSnoc([], x, Chix);
      SumShareSnoc([], x, Matilda);
    } else {
      SumShareSnoc(OfMonth(rows, x.month), x, Chix);
      SumShareSnoc(OfMonth(rows, x.month), x, Matilda);
    }
    forall j | 0 <= j < |g'|
      ensures g'[j].chix == SumShare(OfMonth(all, g'[j].month), Chix)
      ensures g'[j].matilda == SumShare(OfMonth(all, g'[j].month), Matilda)
    {
      if g'[j].month != x.month {
        assert j < |g| && g'[j] == g[j];
        assert OfMonth(all, g[j].month) == OfMonth(rows, g[j].month) + [];
        assert OfMonth(rows, g[j].month) + [] == OfMonth(rows, g[j].month);
      } else if i < 0 {
        assert j == |g|;
        assert OfMonth(all, x.month) == [] + [x];
      } else {
        assert j == i;
        assert OfMonth(all, x.month) == OfMonth(rows, x.month) + [x];
      }
    }
  }

  /** Each line of the grouped table holds that month's Chix and Matilda column sums. */
  lemma {:induction false} GroupByMonthSumsEachMonth(rows: seq<Row>)
    ensures LinesHoldMonthSums(GroupByMonth(rows), rows)
  {
    if rows != [] {
      var n := |rows| - 1;
      GroupByMonthSumsEachMonth(rows[..n]);
      GroupByMonthListsEachMonthOnce(rows[..n]);
      AddToGroupsKeepsSums(GroupByMonth(rows[..n]), rows);
    }
  }

  /** A month that appears in no row has no rows. */
  lemma {:induction false} OfMonthAbsent(rows: seq<Row>, month: string)
    requires month !in MonthSet(rows)
    ensures OfMonth(rows, month) == []
  {
    if rows != [] {
      var n := |rows| - 1;
      assert rows[n] in rows;
      assert MonthSet(rows[..n]) <= MonthSet(rows) by {
        forall m | m in MonthSet(rows[..n]) ensures m in MonthSet(rows) {
          var r :| r in rows[..n] && r.month == m;
          assert r in rows;
        }
      }
      OfMonthAbsent(rows[..n], month);
    }
  }

  /** One bar of the chart: a month, a person and that person's amount in that month. */
  datatype Bar = Bar(month: string, person: Person, amount: real)

  /** The grouped table in long format: first every month's Chix line, then every month's Matilda line. */
  function Melt(g: seq<MonthSums>): seq<Bar>
  {
    seq(|g|, i requires 0 <= i < |g| => Bar(g[i].month, Chix, g[i].chix))
      + seq(|g|, i requires 0 <= i < |g| => Bar(g[i].month, Matilda, g[i].matilda))
  }

  /** The bars of the monthly chart. */
  function MonthlyByPerson(rows: seq<Row>): seq<Bar>
  {
    Melt(GroupByMonth(rows))
  }

  predicate HasBar(bars: seq<Bar>, month: string, p: Person)
  {
    exists k :: 0 <= k < |bars| && bars[k].month == month && bars[k].person == p
  }

  /** Distinct months have as many lines as months. */
  lemma {:induction false} DistinctMonthsCount(g: seq<MonthSums>)
    requires DistinctMonths(g)
    ensures |MonthsOf(g)| == |g|
  {
    if g != [] {
      var n := |g| - 1;
      DistinctMonthsCount(g[..n]);
      assert MonthsOf(g) == MonthsOf(g[..n]) + {g[n].month} by {
        assert g == g[..n] + [g[n]];
      }
      assert g[n].month !in MonthsOf(g[..n]);
    }
  }

  /** The line of the grouped table that bar k of its melted form comes from. */
  function LineOf(g: seq<MonthSums>, k: int): int
  {
    if k < |g| then k else k - |g|
  }

  function LineShare(e: MonthSums, p: Person): real
  {
    match p
    case Chix => e.chix
    case Matilda => e.matilda
  }

  /**
   * Melting gives two bars per line, the first half for Chix and the second
   * for Matilda; each bar carries its line's month and that person's sum.
   */
  lemma MeltTakesEachLineTwice(g: seq<MonthSums>)
    ensures |Melt(g)| == 2 * |g|
    ensures forall k :: 0 <= k < |Melt(g)| ==>
      && 0 <= LineOf(g, k) < |g|
      && Melt(g)[k].month == g[LineOf(g, k)].month
      && Melt(g)[k].person == (if k < |g| then Chix else Matilda)
      && Melt(g)[k].amount == LineShare(g[LineOf(g, k)], Melt(g)[k].person)
  {
  }

  /** With distinct months, no (month, person) pair has two bars, and each pair of a listed month has one. */
  lemma MeltPairsAreUnique(g: seq<MonthSums>)
    requires DistinctMonths(g)
    ensures var bars := Melt(g);
      forall i, j :: 0 <= i < j < |bars| ==> !(bars[i].month == bars[j].month && bars[i].person == bars[j].person)
    ensures forall m, p :: m in MonthsOf(g) ==> HasBar(Melt(g), m, p)
  {
    MeltTakesEachLineTwice(g);
    var bars := Melt(g);
    forall m, p | m in MonthsOf(g)
      ensures HasBar(bars, m, p)
    {
      var e :| e in g && e.month == m;
      var i :| 0 <= i < |g| && g[i] == e;
      var k := if p == Chix then i else |g| + i;
      assert bars[k].month == m && bars[k].person == p;
    }
  }

  /**
   * The melted monthly table has exactly one Chix bar and one Matilda bar for
   * every distinct month of the rows, no other bars, and each bar's amount
   * is that person's column sum over that month's rows.
   */
  lemma MonthlyBarsOnePerMonthAndPerson(rows: seq<Row>)
    ensures |MonthlyByPerson(rows)| == 2 * |MonthSet(rows)|
    ensures forall m, p :: m in MonthSet(rows) ==> HasBar(MonthlyByPerson(rows), m, p)
    ensures var bars := MonthlyByPerson(rows);
      forall i, j :: 0 <= i < j < |bars| ==> !(bars[i].month == bars[j].month && bars[i].person == bars[j].person)
    ensures var bars := MonthlyByPerson(rows);
      forall k :: 0 <= k < |bars| ==>
        bars[k].month in MonthSet(rows) && bars[k].amount == SumShare(OfMonth(rows, bars[k].month), bars[k].person)
  {
    var g := GroupByMonth(rows);
    var bars := Melt(g);
    GroupByMonthListsEachMonthOnce(rows);
    GroupByMonthSumsEachMonth(rows);
    DistinctMonthsCount(g);
    MeltTakesEachLineTwice(g);
    MeltPairsAreUnique(g);
    forall k | 0 <= k < |bars|
      ensures bars[k].month in MonthSet(rows)
      ensures bars[k].amount == SumShare(OfMonth(rows, bars[k].month), bars[k].person)
    {
      var e := g[LineOf(g, k)];
      assert e in g;
    }
  }
}
