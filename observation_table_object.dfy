/** The observation table as an object: the fields of a Snapshot, updated
    in place by the learner's operations, each proved against the
    value-level model in ObservationTables. */
module ObservationTableObject {
  import opened Sequences
  import opened ObservationTables
  import RowCount

  class ObservationTable {
    /** The alphabet, fixed for the run. */
    const A: seq<string>
    /** The membership oracle: is a word in the target language? */
    const mem: string -> bool

    /** Prefixes, one per row. */
    var S: seq<string>
    /** Suffixes, one per column. */
    var E: seq<string>
    /** Rows of cells: T[k][j] is the answer for S[k] + E[j]. */
    var T: seq<seq<bool>>
    /** The next main row whose one-symbol extensions are still to be added. */
    var rowPointer: nat
    /** Rows below mainEnd are main rows; the others are pending. */
    var mainEnd: nat

    ghost function State(): Snapshot
      reads this
    {
      Snapshot(S, E, T, rowPointer, mainEnd)
    }

    ghost predicate Valid()
      reads this
    {
      Invariant(A, mem, State())
    }

    constructor (alphabet: seq<string>, membership: string -> bool)
      ensures Valid() && Closed(State())
      ensures A == alphabet && mem == membership
      ensures S == [""] && E == [""] && T == [[false]]
      ensures rowPointer == 0 && mainEnd == 1
    {
      A := alphabet;
      mem := membership;
      S := [""];
      E := [""];
      T := [[false]];
      rowPointer := 0;
      mainEnd := 1;
    }

    /** Adds every non-empty suffix of word that is not yet a column, shortest
        first, and back-fills the new cells of every row with oracle answers. */
    method AddSuffixes(word: string)
      requires Valid()
      modifies this
      ensures Valid() && State() == WithSuffixes(mem, old(State()), word)
      ensures E == old(E) + NewSuffixes(old(E), word)
      ensures S == old(S) && |T| == |old(T)|
      ensures forall k :: 0 <= k < |T| ==> T[k][..|old(E)|] == old(T)[k]
      ensures forall k, j :: 0 <= k < |T| && |old(E)| <= j < |E| ==> T[k][j] == mem(S[k] + E[j])
      ensures rowPointer == old(rowPointer) && mainEnd == old(mainEnd)
    {
      ghost var t0 := State();
      ghost var n := 0;
      var i := |word| - 1;
      while i >= 0
        invariant -1 <= i < |word| && n == |word| - 1 - i
        invariant Scanned(A, mem, t0, word, n, State())
      {
        AddSuffix(word[i..], t0, word, n);
        i, n := i - 1, n + 1;
      }
      ScanDone(A, mem, t0, word, State());
      SuffixCellsTable(mem, t0, word, State());
    }

    /** One step of the suffix scan: a suffix that is not yet a column is
        appended and back-filled; a known one changes nothing. */
    method AddSuffix(suffix: string, ghost t0: Snapshot, ghost word: string, ghost n: nat)
      requires Scanned(A, mem, t0, word, n, State()) && n < |word| && suffix == word[|word| - 1 - n..]
      modifies this
      ensures Scanned(A, mem, t0, word, n + 1, State())
    {
      ghost var t := State();
      if suffix !in E {
        AddColumn(suffix);
        NewSuffixStep(A, mem, t0, word, n, t, T);
        assert State() == t.(E := t.E + [suffix], T := T);
      } else {
        KnownSuffixStep(A, mem, t0, word, n, t);
      }
    }

    /** Appends suffix as a column and back-fills every row, in row order,
        with the oracle's answer for its prefix followed by suffix. */
    method AddColumn(suffix: string)
      requires |S| == |T|
      modifies this
      ensures E == old(E) + [suffix] && S == old(S) && |T| == |old(T)|
      ensures forall k :: 0 <= k < |T| ==> T[k] == old(T)[k] + [mem(S[k] + suffix)]
      ensures rowPointer == old(rowPointer) && mainEnd == old(mainEnd)
    {
      E := E + [suffix];
      var rowId := 0;
      while rowId < |T|
        invariant 0 <= rowId <= |T| == |old(T)| == |S|
        invariant S == old(S) && E == old(E) + [suffix]
        invariant rowPointer == old(rowPointer) && mainEnd == old(mainEnd)
        invariant forall k :: 0 <= k < rowId ==> T[k] == old(T)[k] + [mem(S[k] + suffix)]
        invariant forall k :: rowId <= k < |T| ==> T[k] == old(T)[k]
      {
        T := T[rowId := T[rowId] + [mem(S[rowId] + suffix)]];
        rowId := rowId + 1;
      }
    }

    /** Appends prefix as a pending row, with one oracle answer per suffix. */
    method AddNewPrefix(prefix: string)
      requires Valid()
      modifies this
      ensures Valid()
      ensures S == old(S) + [prefix] && E == old(E)
      ensures T == old(T) + [Cells(mem, prefix, E)]
      ensures rowPointer == old(rowPointer) && mainEnd == old(mainEnd)
    {
      NewRowKeepsInvariant(A, mem, State(), prefix);
      S := S + [prefix];
      var suffixes := E;
      var newRow := seq(|suffixes|, j requires 0 <= j < |suffixes| => mem(prefix + suffixes[j]));
      assert newRow == Cells(mem, prefix, E);
      T := T + [newRow];
    }

    /** Adds the one-symbol extensions of the main rows, one main row at a
        time, classifying each new row at once; promotions made on the way
        extend the region the cursor still has to cover. */
    method ExpandTable()
      requires Valid()
      modifies this
      ensures State() == Expand(A, mem, old(State()))
      ensures Valid() && rowPointer == mainEnd
      ensures Grown(old(State()), State()) && AddsOnlyExtensions(A, old(State()), State())
      ensures old(Closed(State())) ==> Closed(State())
      ensures forall i, a :: 0 <= i < mainEnd && 0 <= a < |A| ==> S[i] + A[a] in S
      ensures forall k :: 0 <= k < |S| ==>
        S[k] in old(S) || exists i, a :: 0 <= i < mainEnd && i < |S| && 0 <= a < |A| && S[k] == S[i] + A[a]
    {
      MainRowsBounded(A, mem, State());
      while rowPointer < mainEnd
        invariant Valid() && Grown(old(State()), State())
        invariant AddsOnlyExtensions(A, old(State()), State())
        invariant rowPointer <= mainEnd <= RowCount.Pow2(|E|)
        invariant old(Closed(State())) ==> Closed(State())
        invariant Expand(A, mem, State()) == Expand(A, mem, old(State()))
        decreases RowCount.Pow2(|E|) - rowPointer
      {
        ExpandStep(old(State()));
      }
      ExpandDone(A, mem, State());
      ExtensionsPresent(A, mem, State());
      OnlyExtensionsAdded(A, old(State()), State());
    }

    /** One pass of the expansion loop, with the loop facts stated against
        the table t0 the loop started from. */
    method ExpandStep(ghost t0: Snapshot)
      requires Valid() && rowPointer < mainEnd
      requires Grown(t0, State()) && AddsOnlyExtensions(A, t0, State())
      modifies this
      ensures State() == ExpandRound(A, mem, old(State()))
      ensures Expand(A, mem, State()) == Expand(A, mem, old(State()))
      ensures Valid() && Grown(t0, State()) && AddsOnlyExtensions(A, t0, State())
      ensures old(Closed(State())) ==> Closed(State())
      ensures E == old(E) && rowPointer == old(rowPointer) + 1 <= mainEnd <= RowCount.Pow2(|E|)
    {
      ghost var t1 := State();
      MainRowsBounded(A, mem, t1);
      ExpandCursorRow();
      GrownTransitive(t0, t1, State());
      OnlyExtensionsTransitive(A, t0, t1, State());
      MainRowsBounded(A, mem, State());
    }

    /** One round of the expansion loop: adds the extensions of the cursor
        row and moves the cursor past it. */
    method ExpandCursorRow()
      requires Valid() && rowPointer < mainEnd
      modifies this
      ensures State() == ExpandRound(A, mem, old(State()))
      ensures Valid() && rowPointer == old(rowPointer) + 1
      ensures Grown(old(State()), State()) && AddsOnlyExtensions(A, old(State()), State())
      ensures old(Closed(State())) ==> Closed(State())
    {
      ghost var t1 := State();
      ghost var w := S[rowPointer];
      AddExtensions();
      ghost var t2 := State();
      rowPointer := rowPointer + 1;
      CursorRowDone(A, mem, t1, w, t2, State());
    }

    /** The body of one expansion round: appends the extension of the main
        row under the cursor by each symbol, in alphabet order, aligning the
        rows after each one. */
    method AddExtensions()
      requires Valid() && rowPointer < mainEnd
      modifies this
      ensures State() == ExtendUpTo(A, mem, old(State()), |A|)
      ensures Valid() && rowPointer == old(rowPointer)
      ensures ExtendedUpTo(A, old(State()), old(S[rowPointer]), |A|, State())
      ensures old(Closed(State())) ==> Closed(State())
    {
      ExtendedUpToStart(A, State());
      ghost var t1 := State();
      ghost var w := S[rowPointer];
      var a := 0;
      while a < |A|
        invariant 0 <= a <= |A|
        invariant Valid() && rowPointer == t1.rowPointer
        invariant ExtendedUpTo(A, t1, w, a, State())
        invariant Closed(t1) ==> Closed(State())
        invariant State() == ExtendUpTo(A, mem, t1, a)
      {
        AddExtension(a, t1, w);
        a := a + 1;
      }
    }

    /** One iteration of the inner loop of an expansion round: appends the
        extension of the row under the cursor by symbol a, then aligns the
        rows. */
    method AddExtension(a: nat, ghost t1: Snapshot, ghost w: string)
      requires Valid() && a < |A| && rowPointer == t1.rowPointer
      requires ExtendedUpTo(A, t1, w, a, State())
      modifies this
      ensures State() == ExtendBy(A, mem, old(State()), a)
      ensures Valid() && Closed(State()) && rowPointer == t1.rowPointer
      ensures ExtendedUpTo(A, t1, w, a + 1, State())
    {
      ghost var t2 := State();
      var prefix := S[rowPointer] + A[a];
      AddNewPrefix(prefix);
      ghost var t3 := State();
      assert t3 == WithPrefix(mem, t2, prefix);
      AlignRows();
      ExtensionStep(A, t1, w, a, t2, Cells(mem, prefix, E), t3, State());
    }

    /** Scans the pending rows left to right and promotes each one that
        differs from every main row. */
    method AlignRows()
      requires Valid()
      modifies this
      ensures State() == Align(old(State()), old(mainEnd))
      ensures Valid() && Closed(State())
      ensures Reordered(old(State()), State())
    {
      ghost var t0 := State();
      var index := mainEnd;
      while index < |S|
        invariant mainEnd <= index <= |S| == |T|
        invariant Align(State(), index) == Align(t0, t0.mainEnd)
        decreases |S| - index
      {
        ScanRow(index);
        index := index + 1;
      }
      assert State() == Align(t0, t0.mainEnd);
      AlignedTable(A, mem, t0, State());
    }

    /** One step of the scan: promotes row index when it differs from every
        main row. */
    method ScanRow(index: nat)
      requires mainEnd <= index < |S| == |T|
      modifies this
      ensures mainEnd <= index + 1 <= |S| == |T|
      ensures State() == if DiffersFromAll(old(T)[index], old(T), old(mainEnd)) then Promoted(old(State()), index) else old(State())
      ensures Align(old(State()), index) == Align(State(), index + 1)
    {
      if IsUniqueRow(index) {
        ghost var t := State();
        MoveToMainTable(index);
        assert State() == Promoted(t, index);
      }
    }

    /** One refinement round of the learner after the equivalence oracle
        returned a counterexample: its suffixes become columns, the rows are
        re-aligned and the table is expanded again. Afterwards the table is
        fully expanded and closed, so closed in the sense of L* (see
        ExpandedClosedTable), and every suffix of the counterexample is a
        column. */
    method Refine(counterexample: string)
      requires Valid()
      modifies this
      ensures State() == Refined(A, mem, old(State()), counterexample)
      ensures Valid() && Closed(State()) && rowPointer == mainEnd
      ensures E == old(E) + NewSuffixes(old(E), counterexample)
      ensures AllSuffixesIn(E, counterexample)
      ensures old(mainEnd) <= mainEnd
      ensures forall k :: 0 <= k < old(mainEnd) ==> S[k] == old(S)[k]
      ensures forall p :: p in old(S) ==> p in S
      ensures AddsOnlyExtensions(A, old(State()), State())
      ensures forall i, a :: 0 <= i < mainEnd && 0 <= a < |A| ==> S[i] + A[a] in S
    {
      ghost var t0 := State();
      AddSuffixes(counterexample);
      ghost var t1 := State();
      SuffixesAdded(t0.E, t0.T, counterexample, E, T);
      AlignRows();
      ReorderedIsGrown(t1, State());
      ghost var t2 := State();
      ExpandTable();
      GrownTransitive(t1, t2, State());
      RoundPrefixes(A, t0, t1, t2, State());
    }

    /** True iff row i differs from every main row. */
    function IsUniqueRow(i: nat): (r: bool)
      reads this
      requires mainEnd <= |T| && i < |T|
      ensures r <==> forall m :: 0 <= m < mainEnd ==> T[m] != T[i]
    {
      DiffersFromAll(T[i], T, mainEnd)
    }

    /** Promotes pending row r: rows and prefixes in [mainEnd, r) shift one
        place later, row r takes slot mainEnd, and the main region grows by one. */
    method MoveToMainTable(r: nat)
      requires mainEnd <= r < |S| == |T|
      modifies this
      ensures S == Rotate(old(S), old(mainEnd), r) && T == Rotate(old(T), old(mainEnd), r)
      ensures mainEnd == old(mainEnd) + 1
      ensures E == old(E) && rowPointer == old(rowPointer)
    {
      var rowData := T[r];
      var prefix := S[r];
      ghost var oldS, oldT := S, T;
      if r > mainEnd {
        ShiftPendingRows(mainEnd, r);
      }
      ShiftThenWriteIsRotation(oldS, S, mainEnd, r);
      ShiftThenWriteIsRotation(oldT, T, mainEnd, r);
      T := T[mainEnd := rowData];
      S := S[mainEnd := prefix];
      mainEnd := mainEnd + 1;
    }

    /** The shifting loop of promotion: walking down from r to lo + 1, each
        slot takes the entry below it, so rows and prefixes in [lo, r) end up
        one place later while slot lo keeps its entry; writing the old entry
        r into slot lo then completes the rotation (ShiftThenWriteIsRotation). */
    method ShiftPendingRows(lo: nat, r: nat)
      requires lo < r < |S| == |T|
      modifies this
      ensures |S| == |old(S)| && |T| == |old(T)|
      ensures forall k :: 0 <= k < |S| ==> S[k] == old(S)[ShiftSource(lo, r, k)]
      ensures forall k :: 0 <= k < |T| ==> T[k] == old(T)[ShiftSource(lo, r, k)]
      ensures E == old(E) && mainEnd == old(mainEnd) && rowPointer == old(rowPointer)
    {
      var prefixes, rows, idx := S, T, r;
      while idx > lo
        invariant lo <= idx <= r
        invariant |prefixes| == |S| && |rows| == |T|
        invariant forall k :: 0 <= k < |S| ==> prefixes[k] == S[ShiftSource(idx, r, k)]
        invariant forall k :: 0 <= k < |T| ==> rows[k] == T[ShiftSource(idx, r, k)]
      {
        rows := rows[idx := rows[idx - 1]];
        prefixes := prefixes[idx := prefixes[idx - 1]];
        idx := idx - 1;
      }
      S, T := prefixes, rows;
    }
  }
}
