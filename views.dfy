/**
 * The read-only views the page derives from the table: the sidebar filter
 * and the conversion of the money columns into the selected currency.
 */
module Views {
  import opened Expense
  import opened Selection

  /** The sidebar's choices: the selected months, the selected priorities and the recurring-only box. */
  datatype Criteria = Criteria(months: set<string>, priorities: set<Priority>, onlyRecurring: bool)

  /** The conjunction a row must satisfy to be shown. */
  predicate Selected(r: Row, c: Criteria)
  {
    r.month in c.months && r.priority in c.priorities && (c.onlyRecurring ==> r.recurring)
  }

  /** The first mask: Month among the selected months and Priority among the selected priorities. */
  function InMonthsAndPriorities(rows: seq<Row>, months: set<string>, priorities: set<Priority>): seq<Row>
  {
    if rows == [] then []
    else
      var n := |rows| - 1;
      InMonthsAndPriorities(rows[..n], months, priorities)
        + (if rows[n].month in months && rows[n].priority in priorities then [rows[n]] else [])
  }

  /** The second mask, applied only when the box is ticked: Recurring is true. */
  function RecurringOnly(rows: seq<Row>): seq<Row>
  {
    if rows == [] then []
    else
      var n := |rows| - 1;
      RecurringOnly(rows[..n]) + (if rows[n].recurring then [rows[n]] else [])
  }

  /** The filtered table: the month and priority mask, then the recurring mask if asked for. */
  function FilterRows(rows: seq<Row>, c: Criteria): seq<Row>
  {
    var shown := InMonthsAndPriorities(rows, c.months, c.priorities);
    if c.onlyRecurring then RecurringOnly(shown) else shown
  }

  /** The positions of the rows that satisfy the criteria, in increasing order. */
  function MatchPositions(rows: seq<Row>, c: Criteria): seq<int>
  {
    if rows == [] then []
    else
      var n := |rows| - 1;
      MatchPositions(rows[..n], c) + (if Selected(rows[n], c) then [n] else [])
  }

  lemma {:induction false} RecurringOnlyAppend(a: seq<Row>, b: seq<Row>)
    ensures RecurringOnly(a + b) == RecurringOnly(a) + RecurringOnly(b)
  {
    if b == [] {
      assert a + b == a;
    } else {
      var n := |b| - 1;
      RecurringOnlyAppend(a, b[..n]);
      assert (a + b)[..|a + b| - 1] == a + b[..n];
    }
  }

  /** Filtering a table with one more row adds that row exactly when it satisfies the criteria. */
  lemma FilterStep(rows: seq<Row>, c: Criteria)
    requires rows != []
    ensures var n := |rows| - 1;
      FilterRows(rows, c) == FilterRows(rows[..n], c) + (if Selected(rows[n], c) then [rows[n]] else [])
  {
    var n := |rows| - 1;
    var x := rows[n];
    var head := InMonthsAndPriorities(rows[..n], c.months, c.priorities);
    var tail := if x.month in c.months && x.priority in c.priorities then [x] else [];
    RecurringOnlyAppend(head, tail);
    assert RecurringOnly(tail) == (if x.recurring then tail else []) by {
      if tail != [] {
        assert tail[..0] == [];
      }
    }
  }

  /** The matching positions increase and are exactly the positions of rows that satisfy the criteria. */
  lemma {:induction false} MatchPositionsAreTheSelected(rows: seq<Row>, c: Criteria)
    ensures InRange(MatchPositions(rows, c), |rows|)
    ensures Increasing(MatchPositions(rows, c))
    ensures forall p :: p in MatchPositions(rows, c) <==> 0 <= p < |rows| && Selected(rows[p], c)
  {
    if rows != [] {
      MatchPositionsAreTheSelected(rows[..|rows| - 1], c);
    }
  }

  /**
   * The filter returns an order-preserving subsequence of the table: the
   * table read at increasing positions, which are exactly the positions of
   * the rows satisfying all the selected conditions.
   */
  lemma {:induction false} FilterKeepsExactlyTheSelectedRows(rows: seq<Row>, c: Criteria)
    ensures InRange(MatchPositions(rows, c), |rows|)
    ensures Increasing(MatchPositions(rows, c))
    ensures forall p :: p in MatchPositions(rows, c) <==> 0 <= p < |rows| && Selected(rows[p], c)
    ensures FilterRows(rows, c) == Pick(rows, MatchPositions(rows, c))
  {
    MatchPositionsAreTheSelected(rows, c);
    if rows != [] {
      var n := |rows| - 1;
      var ps0 := MatchPositions(rows[..n], c);
      MatchPositionsAreTheSelected(rows[..n], c);
      FilterKeepsExactlyTheSelectedRows(rows[..n], c);
      FilterStep(rows, c);
      PickFromPrefix(rows, n, ps0);
      if Selected(rows[n], c) {
        PickSnoc(rows, ps0, n);
      }
    }
  }

  /** A row appears in the filtered table exactly when it is a row of the table that satisfies the criteria. */
  lemma FilterMembership(rows: seq<Row>, c: Criteria, r: Row)
    ensures r in FilterRows(rows, c) <==> r in rows && Selected(r, c)
  {
    FilterKeepsExactlyTheSelectedRows(rows, c);
    var ps := MatchPositions(rows, c);
    var shown := FilterRows(rows, c);
    if r in shown {
      var k :| 0 <= k < |shown| && shown[k] == r;
      assert ps[k] in ps;
    }
    if r in rows && Selected(r, c) {
      var p :| 0 <= p < |rows| && rows[p] == r;
      assert p in ps;
      var k :| 0 <= k < |ps| && ps[k] == p;
      assert shown[k] == r;
    }
  }

  /** The currencies the page offers. */
  datatype Currency = SEK | ZAR | EUR

  /** The label shown in the currency box. */
  function Label(cur: Currency): string
  {
    match cur
    case SEK => "SEK"
    case ZAR => "ZAR (Rand)"
    case EUR => "EUR"
  }

  /** The fixed conversion rate from kronor, the currency the table is kept in. */
  function Rate(cur: Currency): (rate: real)
    ensures rate > 0.0
    ensures cur == SEK <==> rate == 1.0
  {
    match cur
    case SEK => 1.0
    case ZAR => 1.8
    case EUR => 0.088
  }

  function Scaled(r: Row, rate: real): Row
  {
    r.(total := r.total * rate, chix := r.chix * rate, matilda := r.matilda * rate)
  }

  /**
   * The table with Total, Chix and Matilda multiplied by the rate; every other
   * column and the row order stay as they were.
   */
  function Convert(rows: seq<Row>, rate: real): (out: seq<Row>)
    ensures |out| == |rows|
    ensures forall i :: 0 <= i < |rows| ==>
      && out[i].total == rows[i].total * rate
      && out[i].chix == rows[i].chix * rate
      && out[i].matilda == rows[i].matilda * rate
      && out[i].(total := rows[i].total, chix := rows[i].chix, matilda := rows[i].matilda) == rows[i]
  {
    seq(|rows|, i requires 0 <= i < |rows| => Scaled(rows[i], rate))
  }

  /** Showing kronor changes nothing. */
  lemma ConvertToSekIsIdentity(rows: seq<Row>)
    ensures Convert(rows, Rate(SEK)) == rows
  {
  }

  /** Conversion keeps every row's shares adding up to its total. */
  lemma ConvertKeepsRowsBalanced(rows: seq<Row>, rate: real)
    requires forall i :: 0 <= i < |rows| ==> rows[i].chix + rows[i].matilda == rows[i].total
    ensures var out := Convert(rows, rate);
      forall i :: 0 <= i < |out| ==> out[i].chix + out[i].matilda == out[i].total
  {
  }

  lemma ScaledTwice(r: Row, r1: real, r2: real)
    ensures Scaled(Scaled(r, r1), r2) == Scaled(r, r1 * r2)
  {
  }

  /** Converting twice is converting once with the product of the rates. */
  lemma ConvertTwice(rows: seq<Row>, r1: real, r2: real)
    ensures Convert(Convert(rows, r1), r2) == Convert(rows, r1 * r2)
  {
    var twice := Convert(Convert(rows, r1), r2);
    var once := Convert(rows, r1 * r2);
    forall i | 0 <= i < |rows|
      ensures twice[i] == once[i]
    {
      ScaledTwice(rows[i], r1, r2);
    }
  }

  /** Converting a table with one more row converts that row and appends it. */
  lemma ConvertSnoc(rows: seq<Row>, rate: real)
    requires rows != []
    ensures Convert(rows, rate) == Convert(rows[..|rows| - 1], rate) + [Scaled(rows[|rows| - 1], rate)]
  {
  }

  /** Conversion does not touch the columns the filter reads, so filtering and converting commute. */
  lemma {:induction false} FilterCommutesWithConvert(rows: seq<Row>, c: Criteria, rate: real)
    ensures FilterRows(Convert(rows, rate), c) == Convert(FilterRows(rows, c), rate)
  {
    if rows != [] {
      var n := |rows| - 1;
      var conv := Convert(rows, rate);
      FilterCommutesWithConvert(rows[..n], c, rate);
      FilterStep(rows, c);
      FilterStep(conv, c);
      ConvertSnoc(rows, rate);
      var f0 := FilterRows(rows[..n], c);
      if Selected(rows[n], c) {
        ConvertSnoc(f0 + [rows[n]], rate);
        assert (f0 + [rows[n]])[..|f0|] == f0;
      } else {
        assert f0 + [] == f0;
      }
    }
  }
}
