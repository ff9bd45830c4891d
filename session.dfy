/**
 * The tracker's session state: the expense table and the single slot that
 * remembers the rows of the last deletion. The form submission, the deletion
 * button and the undo button of the page become the methods Add, Delete and
 * Undo of one Ledger object.
 */
module Session {
  import opened Wrappers
  import opened Calendar
  import opened Expense
  import opened Seed
  import opened Selection

  class Ledger {
    /** The expense table, in its row order; a row's index is its position. */
    var rows: seq<Row>
    /** The rows removed by the last deletion, or None when there is nothing to undo. */
    var lastDeleted: Option<seq<Row>>

    /** Every row in the table and in the undo slot is balanced and carries its month name. */
    predicate Valid()
      reads this
    {
      AllWellFormed(rows) && (lastDeleted.Some? ==> AllWellFormed(lastDeleted.value))
    }

    /** The first run of a session: the demonstration table and an empty undo slot. */
    constructor ()
      ensures Valid()
      ensures rows == SeedRows() && lastDeleted == None
    {
      SeedRowsWellFormed();
      rows := SeedRows();
      lastDeleted := None;
    }

    /** A submitted form appends exactly one row at the end; the undo slot is left alone. */
    method Add(category: string, total: real, rule: SplitRule, priority: Priority,
               budgetDate: Date, recurring: bool)
      requires Valid()
      modifies this
      ensures Valid()
      ensures |rows| == |old(rows)| + 1
      ensures rows[..|old(rows)|] == old(rows)
      ensures rows[|old(rows)|] == NewRow(category, total, rule, priority, budgetDate, recurring)
      ensures rows[|old(rows)|].month == MonthName(budgetDate.month)
      ensures lastDeleted == old(lastDeleted)
    {
      var row := NewRow(category, total, rule, priority, budgetDate, recurring);
      rows := rows + [row];
    }

    /**
     * Confirming a deletion of the selected indices: the undo slot is
     * overwritten with the selected rows, in the order they were selected,
     * and the table keeps the other rows in their order, renumbered from 0.
     * An empty selection still fills the slot, with no rows.
     */
    method Delete(indices: seq<int>)
      requires Valid()
      requires InRange(indices, |rows|) && Distinct(indices)
      modifies this
      ensures Valid()
      ensures lastDeleted == Some(Pick(old(rows), indices))
      ensures rows == Without(old(rows), Elements(indices))
      ensures |rows| == |old(rows)| - |indices|
      ensures multiset(rows) + multiset(lastDeleted.value) == multiset(old(rows))
    {
      var removed := Pick(rows, indices);
      var kept := Without(rows, Elements(indices));
      RemoveThenAppendIsPermutation(rows, indices);
      DistinctCardinality(indices);
      WithoutLength(rows, Elements(indices));
      SelectedRowsWellFormed(rows, indices);
      lastDeleted := Some(removed);
      rows := kept;
    }

    /**
     * Undoing the last deletion, offered only while the slot is filled: the
     * saved rows are appended after the current ones (not put back at their
     * old positions) and the slot is cleared, so a second undo is not offered.
     */
    method Undo() returns (restored: bool)
      requires Valid()
      modifies this
      ensures Valid()
      ensures restored == old(lastDeleted).Some?
      ensures restored ==> rows == old(rows) + old(lastDeleted).value && lastDeleted == None
      ensures !restored ==> rows == old(rows) && lastDeleted == None
    {
      restored := lastDeleted.Some?;
      if restored {
        rows := rows + lastDeleted.value;
        lastDeleted := None;
      }
    }
  }

  /** The rows a deletion keeps and the rows it saves are rows of the table, so they stay well formed. */
  lemma SelectedRowsWellFormed(rows: seq<Row>, indices: seq<int>)
    requires AllWellFormed(rows) && InRange(indices, |rows|)
    ensures AllWellFormed(Without(rows, Elements(indices)))
    ensures AllWellFormed(Pick(rows, indices))
  {
    WithoutKeepsUnselectedInOrder(rows, Elements(indices));
  }

  /**
   * A deletion followed directly by its undo leaves the same rows in the
   * table, as a multiset: the order may differ, because the restored rows
   * come back at the end.
   */
  method DeleteThenUndo(ledger: Ledger, indices: seq<int>)
    requires ledger.Valid()
    requires InRange(indices, |ledger.rows|) && Distinct(indices)
    modifies ledger
    ensures ledger.Valid()
    ensures multiset(ledger.rows) == multiset(old(ledger.rows))
    ensures ledger.rows == Without(old(ledger.rows), Elements(indices)) + Pick(old(ledger.rows), indices)
    ensures ledger.lastDeleted == None
  {
    ledger.Delete(indices);
    var restored := ledger.Undo();
    assert restored;
  }

  /** The undo does not give back the original order: deleting the first of two rows and undoing swaps them. */
  lemma UndoAppendsAtTheEnd(a: Row, b: Row)
    requires a != b
    ensures Without([a, b], Elements([0])) + Pick([a, b], [0]) == [b, a] != [a, b]
  {
    assert Elements([0]) == {0};
    assert [a, b][..1] == [a];
    assert [a][..0] == [];
    assert Without([a], {0}) == [];
  }
}
