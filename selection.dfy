/**
 * Positional selection on a table, as the deletion form uses it: picking rows
 * by a list of positions, removing the rows at a set of positions, and the
 * facts that make "delete, then put the deleted rows back" a permutation.
 * Positions are the table index, which is always 0..n-1 because the table is
 * renumbered after every deletion and every concatenation.
 */
module Selection {

  predicate InRange(positions: seq<int>, n: int)
  {
    forall k :: 0 <= k < |positions| ==> 0 <= positions[k] < n
  }

  predicate Increasing(positions: seq<int>)
  {
    forall i, j :: 0 <= i < j < |positions| ==> positions[i] < positions[j]
  }

  predicate Distinct<T(==)>(s: seq<T>)
  {
    forall i, j :: 0 <= i < j < |s| ==> s[i] != s[j]
  }

  function Elements<T>(s: seq<T>): set<T>
  {
    set x | x in s
  }

  /** The rows at the given positions, in the order the positions are listed. */
  function Pick<T>(s: seq<T>, positions: seq<int>): (r: seq<T>)
    requires InRange(positions, |s|)
    ensures |r| == |positions|
    ensures forall k :: 0 <= k < |r| ==> r[k] == s[positions[k]]
  {
    seq(|positions|, k requires 0 <= k < |positions| => s[positions[k]])
  }

  /** The table with the rows at the dropped positions taken out; the others keep their order. */
  function Without<T>(s: seq<T>, dropped: set<int>): seq<T>
  {
    if s == [] then []
    else
      var n := |s| - 1;
      Without(s[..n], dropped) + (if n in dropped then [] else [s[n]])
  }

  /** The positions below n that are not dropped, in increasing order. */
  function Survivors(n: nat, dropped: set<int>): seq<int>
  {
    if n == 0 then []
    else Survivors(n - 1, dropped) + (if n - 1 in dropped then [] else [n - 1])
  }

  /** Only the dropped positions inside the table matter. */
  lemma {:induction false} WithoutSeesOnlyRange<T>(s: seq<T>, a: set<int>, b: set<int>)
    requires forall p :: 0 <= p < |s| ==> (p in a <==> p in b)
    ensures Without(s, a) == Without(s, b)
  {
    if s != [] {
      WithoutSeesOnlyRange(s[..|s| - 1], a, b);
    }
  }

  lemma {:induction false} WithoutNothing<T>(s: seq<T>)
    ensures Without(s, {}) == s
  {
    if s != [] {
      var n := |s| - 1;
      WithoutNothing(s[..n]);
      assert s == s[..n] + [s[n]];
    }
  }

  /** The surviving positions increase and are exactly the positions below n that were not dropped. */
  lemma {:induction false} SurvivorsAreTheUnselected(n: nat, dropped: set<int>)
    ensures InRange(Survivors(n, dropped), n)
    ensures Increasing(Survivors(n, dropped))
    ensures forall p :: p in Survivors(n, dropped) <==> 0 <= p < n && p !in dropped
  {
    if n > 0 {
      SurvivorsAreTheUnselected(n - 1, dropped);
    }
  }

  /** Reading a table at positions inside a prefix reads the prefix. */
  lemma PickFromPrefix<T>(s: seq<T>, n: nat, positions: seq<int>)
    requires n <= |s| && InRange(positions, n)
    ensures Pick(s[..n], positions) == Pick(s, positions)
  {
  }

  /** Reading at one more position appends that position's row. */
  lemma PickSnoc<T>(s: seq<T>, positions: seq<int>, p: int)
    requires InRange(positions, |s|) && 0 <= p < |s|
    ensures InRange(positions + [p], |s|)
    ensures Pick(s, positions + [p]) == Pick(s, positions) + [s[p]]
  {
  }

  /**
   * Deletion keeps exactly the unselected rows, in their original relative
   * order: the result is the table read at the surviving positions.
   */
  lemma {:induction false} WithoutKeepsUnselectedInOrder<T>(s: seq<T>, dropped: set<int>)
    ensures InRange(Survivors(|s|, dropped), |s|)
    ensures Without(s, dropped) == Pick(s, Survivors(|s|, dropped))
  {
    SurvivorsAreTheUnselected(|s|, dropped);
    if s != [] {
      var n := |s| - 1;
      var ps0 := Survivors(n, dropped);
      SurvivorsAreTheUnselected(n, dropped);
      WithoutKeepsUnselectedInOrder(s[..n], dropped);
      PickFromPrefix(s, n, ps0);
      if n !in dropped {
        PickSnoc(s, ps0, n);
      }
    }
  }

  /** Deletion shortens the table by the number of distinct positions selected. */
  lemma {:induction false} WithoutLength<T>(s: seq<T>, dropped: set<int>)
    requires forall p :: p in dropped ==> 0 <= p < |s|
    ensures |Without(s, dropped)| == |s| - |dropped|
  {
    if s == [] {
      assert forall p :: p !in dropped;
      assert dropped == {};
    } else {
      var n := |s| - 1;
      if n in dropped {
        WithoutSeesOnlyRange(s[..n], dropped, dropped - {n});
        WithoutLength(s[..n], dropped - {n});
      } else {
        WithoutLength(s[..n], dropped);
      }
    }
  }

  /** A list without repetitions has as many elements as its set. */
  lemma {:induction false} DistinctCardinality<T>(s: seq<T>)
    requires Distinct(s)
    ensures |Elements(s)| == |s|
  {
    if s != [] {
      var n := |s| - 1;
      DistinctCardinality(s[..n]);
      assert Elements(s) == Elements(s[..n]) + {s[n]};
      assert s[n] !in Elements(s[..n]);
    }
  }

  /** Dropping the last position as well takes the last row out of the multiset. */
  lemma WithoutLastToo<T>(s: seq<T>, dropped: set<int>)
    requires |s| > 0 && |s| - 1 !in dropped
    ensures multiset(Without(s, dropped + {|s| - 1})) + multiset{s[|s| - 1]} == multiset(Without(s, dropped))
  {
    var n := |s| - 1;
    WithoutSeesOnlyRange(s[..n], dropped + {n}, dropped);
  }

  /** Two drop sets that agree on the last position add the same last row, so a multiset relation between the shorter tables carries over. */
  lemma WithoutSameLast<T>(s: seq<T>, a: set<int>, b: set<int>, x: T)
    requires s != [] && (|s| - 1 in a <==> |s| - 1 in b)
    requires multiset(Without(s[..|s| - 1], a)) + multiset{x} == multiset(Without(s[..|s| - 1], b))
    ensures multiset(Without(s, a)) + multiset{x} == multiset(Without(s, b))
  {
    var n := |s| - 1;
    var tail := if n in a then [] else [s[n]];
    assert Without(s, a) == Without(s[..n], a) + tail;
    assert Without(s, b) == Without(s[..n], b) + tail;
  }

  /** Dropping one more position takes exactly the row at that position out of the multiset. */
  lemma {:induction false} WithoutOneMore<T>(s: seq<T>, dropped: set<int>, j: int)
    requires 0 <= j < |s| && j !in dropped
    ensures multiset(Without(s, dropped + {j})) + multiset{s[j]} == multiset(Without(s, dropped))
  {
    var n := |s| - 1;
    if j == n {
      WithoutLastToo(s, dropped);
    } else {
      WithoutOneMore(s[..n], dropped, j);
      WithoutSameLast(s, dropped + {j}, dropped, s[j]);
    }
  }

  /**
   * Removing the rows at distinct positions and appending them again, in any
   * order, gives a permutation of the table.
   */
  lemma {:induction false} RemoveThenAppendIsPermutation<T>(s: seq<T>, positions: seq<int>)
    requires InRange(positions, |s|) && Distinct(positions)
    ensures multiset(Without(s, Elements(positions)) + Pick(s, positions)) == multiset(s)
  {
    if positions == [] {
      assert Elements(positions) == {};
      WithoutNothing(s);
    } else {
      var m := |positions| - 1;
      var init := positions[..m];
      var j := positions[m];
      RemoveThenAppendIsPermutation(s, init);
      assert Elements(positions) == Elements(init) + {j};
      assert j !in Elements(init);
      WithoutOneMore(s, Elements(init), j);
      assert Pick(s, positions) == Pick(s, init) + [s[j]];
    }
  }
}
