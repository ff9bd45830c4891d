/**
 * One expense row of the tracker and the rules that build it: how a total is
 * split between Chix and Matilda, and which budget date the form proposes.
 * Money is an exact real; floating-point rounding is not modelled.
 */
module Expense {
  import opened Calendar

  datatype Priority = VeryHigh | High | Medium | Low

  /** The percentage slider for Chix's part runs over the whole numbers 0..100. */
  type Percent = p: int | 0 <= p <= 100 witness 50

  /** The three split types the form offers. */
  datatype SplitRule =
    | Equal
    | ByPercentage(chixPercent: Percent)
    | ByAmount(chixAmount: real)

  datatype Shares = Shares(chix: real, matilda: real)

  /**
   * The shares of the two people for one total. Matilda always receives what
   * is left of the total, so the two shares add up to it exactly; nothing
   * stops a given amount for Chix from exceeding the total.
   */
  function Split(total: real, rule: SplitRule): (s: Shares)
    ensures s.chix + s.matilda == total
    ensures rule.Equal? ==> s.chix == s.matilda
    ensures rule.ByPercentage? ==> s.chix * 100.0 == total * rule.chixPercent as real
    ensures rule.ByAmount? ==> s.chix == rule.chixAmount
  {
    match rule
    case Equal => Shares(total / 2.0, total / 2.0)
    case ByPercentage(pct) =>
      var chix := total * pct as real / 100.0;
      Shares(chix, total - chix)
    case ByAmount(chix) => Shares(chix, total - chix)
  }

  /** With a non-negative total, a percentage split gives both people a share between 0 and the total. */
  lemma PercentageSplitBounds(total: real, pct: Percent)
    requires total >= 0.0
    ensures var s := Split(total, ByPercentage(pct));
      0.0 <= s.chix <= total && 0.0 <= s.matilda <= total
  {
    var p := pct as real;
    NonNegativeProduct(total, p);
    NonNegativeProduct(total, 100.0 - p);
    assert total * (100.0 - p) == total * 100.0 - total * p;
  }

  lemma NonNegativeProduct(a: real, b: real)
    requires a >= 0.0 && b >= 0.0
    ensures a * b >= 0.0
  {
  }

  /** The slider's default position, 50 %, gives the same shares as an equal split. */
  lemma HalfPercentageIsEqual(total: real)
    ensures Split(total, ByPercentage(50)) == Split(total, Equal)
  {
  }

  /** An amount for Chix above the total is accepted and leaves Matilda a negative share. */
  lemma AmountAboveTotalOverdraws(total: real, chix: real)
    requires chix > total
    ensures Split(total, ByAmount(chix)).matilda < 0.0
  {
  }

  /** The date the form proposes: the first of the current month for a very high priority, otherwise today. */
  function DefaultBudgetDate(priority: Priority, today: Date): (d: Date)
    ensures d.year == today.year && d.month == today.month && d.day <= today.day
    ensures priority == VeryHigh ==> d.day == 1
    ensures priority != VeryHigh ==> d == today
  {
    if priority != VeryHigh then today else today.(day := 1)
  }

  /** One row of the expense table, with the table's columns. */
  datatype Row = Row(
    category: string,
    total: real,
    chix: real,
    matilda: real,
    priority: Priority,
    budgetDate: Date,
    recurring: bool,
    month: string)

  /** A row as the form creates it: the shares add up to the total and Month names the budget date's month. */
  predicate WellFormed(r: Row)
  {
    r.chix + r.matilda == r.total && r.month == MonthName(r.budgetDate.month)
  }

  predicate AllWellFormed(rows: seq<Row>)
  {
    forall i :: 0 <= i < |rows| ==> WellFormed(rows[i])
  }

  /** The row a submitted form appends to the table. */
  function NewRow(category: string, total: real, rule: SplitRule, priority: Priority,
                  budgetDate: Date, recurring: bool): (r: Row)
    ensures WellFormed(r)
    ensures r.month == MonthName(budgetDate.month)
    ensures Shares(r.chix, r.matilda) == Split(total, rule)
    ensures r.category == category && r.total == total && r.priority == priority
    ensures r.budgetDate == budgetDate && r.recurring == recurring
  {
    var s := Split(total, rule);
    Row(category, total, s.chix, s.matilda, priority, budgetDate, recurring, MonthName(budgetDate.month))
  }
}
