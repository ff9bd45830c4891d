/** The demonstration table the tracker starts from on its first run. */
module Seed {
  import opened Calendar
  import opened Expense

  function SeedRow(category: string, total: real, chix: real, matilda: real,
                   priority: Priority, date: Date): Row
  {
    Row(category, total, chix, matilda, priority, date, false, MonthName(date.month))
  }

  function SeedRows(): (rows: seq<Row>)
    ensures |rows| == 5
  {
    [ SeedRow("Mattress", 0.0, 0.0, 0.0, VeryHigh, Date(2025, 7, 25)),
      SeedRow("Washing Machine", 5743.0, 5743.0, 0.0, VeryHigh, Date(2025, 7, 25)),
      SeedRow("Humidifier", 4500.0, 2250.0, 2250.0, VeryHigh, Date(2025, 8, 25)),
      SeedRow("Couch", 0.0, 0.0, 0.0, VeryHigh, Date(2025, 7, 25)),
      SeedRow("bedroom lights", 200.0, 100.0, 100.0, Medium, Date(2025, 8, 25)) ]
  }

  /** Every seed row is balanced and carries the month name of its date. */
  lemma SeedRowsWellFormed()
    ensures AllWellFormed(SeedRows())
  {
  }
}
