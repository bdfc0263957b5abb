/** The observation table of Angluin's L* algorithm: prefixes S (rows),
    suffixes E (columns) and the cell matrix T, where cell (k, j) caches the
    membership answer for the word S[k] + E[j]. Rows [0, mainEnd) are the main
    rows, pairwise distinct; the rows after them are pending. */
module ObservationTables {
  import opened Sequences
  import RowCount

  /** True iff row differs from every one of rows[0..n). */
  function DiffersFromAll(row: seq<bool>, rows: seq<seq<bool>>, n: nat): (r: bool)
    requires n <= |rows|
    ensures r <==> forall m :: 0 <= m < n ==> rows[m] != row
  {
    n == 0 || (DiffersFromAll(row, rows, n - 1) && rows[n - 1] != row)
  }

  /** The table's fields as one value: prefixes S (one per row), suffixes E
      (one per column), rows T, the expansion cursor and the end of the main
      region. */
  datatype Snapshot = Snapshot(S: seq<string>, E: seq<string>, T: seq<seq<bool>>, rowPointer: nat, mainEnd: nat)

  /** One row per prefix, one cell per suffix, the empty prefix and the
      empty suffix first, and the cursor within the main region. */
  ghost predicate Shape(t: Snapshot) {
    && |t.S| >= 1 && t.S[0] == ""
    && |t.E| >= 1 && t.E[0] == ""
    && |t.T| == |t.S|
    && (forall k :: 0 <= k < |t.T| ==> |t.T[k]| == |t.E|)
    && 1 <= t.mainEnd <= |t.S|
    && t.rowPointer <= t.mainEnd
  }

  /** Every cell holds the oracle's answer for its word, except the very
      first cell, which the table is created with as 0 without a query. */
  ghost predicate CellsAgree(mem: string -> bool, t: Snapshot)
    requires Shape(t)
  {
    && !t.T[0][0]
    && forall k, j :: 0 <= k < |t.T| && 0 <= j < |t.E| && (0 < k || 0 < j) ==> t.T[k][j] == mem(t.S[k] + t.E[j])
  }

  /** No two main rows are equal. */
  ghost predicate MainDistinct(t: Snapshot)
    requires Shape(t)
  {
    forall i, j :: 0 <= i < j < t.mainEnd ==> t.T[i] != t.T[j]
  }

  /** Every main row already passed by the cursor has all of its one-symbol
      extensions among the prefixes. */
  ghost predicate Expanded(A: seq<string>, t: Snapshot)
    requires Shape(t)
  {
    forall i, a {:trigger HasExtension(t.S, i, A, a)} :: 0 <= i < t.rowPointer && 0 <= a < |A| ==> HasExtension(t.S, i, A, a)
  }

  /** Prefix i followed by symbol a is among the prefixes. */
  ghost predicate HasExtension(S: seq<string>, i: nat, A: seq<string>, a: nat)
    requires i < |S| && a < |A|
  {
    Known(S, S[i] + A[a])
  }

  /** p is one of the prefixes S. */
  ghost predicate Known(S: seq<string>, p: string) {
    p in S
  }

  /** The invariant every operation of the table keeps. */
  ghost predicate Invariant(A: seq<string>, mem: string -> bool, t: Snapshot) {
    Shape(t) && NoDuplicates(t.E) && CellsAgree(mem, t) && MainDistinct(t) && Expanded(A, t)
  }

  /** Every pending row below index equals some main row. */
  ghost predicate MatchedBelow(t: Snapshot, index: nat)
    requires Shape(t) && index <= |t.T|
  {
    forall i :: t.mainEnd <= i < index ==> !DiffersFromAll(t.T[i], t.T, t.mainEnd)
  }

  /** Every pending row equals some main row. */
  ghost predicate Closed(t: Snapshot)
    requires Shape(t)
  {
    MatchedBelow(t, |t.T|)
  }

  /** The row of oracle answers for prefix p over the suffixes E. */
  function Cells(mem: string -> bool, p: string, E: seq<string>): (row: seq<bool>)
    ensures |row| == |E|
    ensures forall j :: 0 <= j < |E| ==> row[j] == mem(p + E[j])
  {
    seq(|E|, j requires 0 <= j < |E| => mem(p + E[j]))
  }

  /** Appending a pending row of oracle answers keeps the invariant. */
  lemma NewRowKeepsInvariant(A: seq<string>, mem: string -> bool, t: Snapshot, p: string)
    requires Invariant(A, mem, t)
    ensures Invariant(A, mem, t.(S := t.S + [p], T := t.T + [Cells(mem, p, t.E)]))
  {
    var t' := t.(S := t.S + [p], T := t.T + [Cells(mem, p, t.E)]);
    assert forall k :: 0 <= k < |t.S| ==> t'.S[k] == t.S[k] && t'.T[k] == t.T[k];
    forall i, a | 0 <= i < t'.rowPointer && 0 <= a < |A| ensures HasExtension(t'.S, i, A, a) {
      assert HasExtension(t.S, i, A, a);
    }
  }

  /** Appending a new suffix with one fresh oracle answer per row keeps the
      invariant; the old cells stay as they were. */
  lemma NewColumnKeepsInvariant(A: seq<string>, mem: string -> bool, t: Snapshot, s: string, T': seq<seq<bool>>)
    requires Invariant(A, mem, t) && s !in t.E
    requires |T'| == |t.T| && forall k :: 0 <= k < |T'| ==> T'[k] == t.T[k] + [mem(t.S[k] + s)]
    ensures Invariant(A, mem, t.(E := t.E + [s], T := T'))
  {
    var t' := t.(E := t.E + [s], T := T');
    forall i, j | 0 <= i < j < t.mainEnd ensures T'[i] != T'[j] {
      assert T'[i][..|t.E|] == t.T[i] && T'[j][..|t.E|] == t.T[j];
    }
    assert CellsAgree(mem, t') by {
      assert T'[0][0] == t.T[0][0];
      forall k, j | 0 <= k < |T'| && 0 <= j < |t'.E| && (0 < k || 0 < j)
        ensures T'[k][j] == mem(t.S[k] + t'.E[j])
      {
        if j < |t.E| {
          assert T'[k][j] == t.T[k][j];
        }
      }
    }
  }

  /** Two valid tables with the same prefixes, one of whose suffix lists
      extends the other's, agree on every cell of the shorter one. */
  lemma OldCellsKept(A: seq<string>, mem: string -> bool, t: Snapshot, t': Snapshot)
    requires Invariant(A, mem, t) && Invariant(A, mem, t')
    requires t'.S == t.S && |t.E| <= |t'.E| && t'.E[..|t.E|] == t.E
    ensures forall k :: 0 <= k < |t.T| ==> t'.T[k][..|t.E|] == t.T[k]
  {
    forall k | 0 <= k < |t.T| ensures t'.T[k][..|t.E|] == t.T[k] {
      forall j | 0 <= j < |t.E| ensures t'.T[k][j] == t.T[k][j] {
        assert t'.E[j] == t.E[j];
      }
    }
  }

  /** The suffix scan over word has examined its n shortest suffixes: t is a
      valid table that differs from t0 only by the new ones among them as
      columns. */
  ghost predicate Scanned(A: seq<string>, mem: string -> bool, t0: Snapshot, word: string, n: nat, t: Snapshot) {
    && n <= |word|
    && Invariant(A, mem, t)
    && t.S == t0.S && t.rowPointer == t0.rowPointer && t.mainEnd == t0.mainEnd
    && t.E == t0.E + Unseen(t0.E, SuffixesShortestFirst(word)[..n])
  }

  /** A scan step at a suffix that is already a column changes nothing. */
  lemma KnownSuffixStep(A: seq<string>, mem: string -> bool, t0: Snapshot, word: string, n: nat, t: Snapshot)
    requires Scanned(A, mem, t0, word, n, t) && n < |word| && word[|word| - 1 - n..] in t.E
    ensures Scanned(A, mem, t0, word, n + 1, t)
  {
    UnseenStep(t0.E, word, n);
  }

  /** A scan step at a new suffix appends it as a column whose cells are
      the oracle's answers. */
  lemma NewSuffixStep(A: seq<string>, mem: string -> bool, t0: Snapshot, word: string, n: nat, t: Snapshot, T': seq<seq<bool>>)
    requires Scanned(A, mem, t0, word, n, t) && n < |word| && word[|word| - 1 - n..] !in t.E
    requires |T'| == |t.T| && forall k :: 0 <= k < |T'| ==> T'[k] == t.T[k] + [mem(t.S[k] + word[|word| - 1 - n..])]
    ensures Scanned(A, mem, t0, word, n + 1, t.(E := t.E + [word[|word| - 1 - n..]], T := T'))
  {
    UnseenStep(t0.E, word, n);
    NewColumnKeepsInvariant(A, mem, t, word[|word| - 1 - n..], T');
  }

  /** The table after the suffixes of word are added: the new suffixes are
      appended as columns, and every row gets the oracle's answers for its
      prefix followed by each of them. */
  function WithSuffixes(mem: string -> bool, t: Snapshot, word: string): (t': Snapshot)
    requires |t.S| == |t.T|
    ensures t'.S == t.S && |t'.T| == |t.T| && t'.E == t.E + NewSuffixes(t.E, word)
    ensures t'.rowPointer == t.rowPointer && t'.mainEnd == t.mainEnd
  {
    var N := NewSuffixes(t.E, word);
    t.(E := t.E + N, T := seq(|t.T|, k requires 0 <= k < |t.T| => t.T[k] + Cells(mem, t.S[k], N)))
  }

  /** Adding the new suffixes of word as columns, with the oracle's answers
      as cells, keeps the invariant. */
  lemma SuffixesKeepInvariant(A: seq<string>, mem: string -> bool, t: Snapshot, word: string)
    requires Invariant(A, mem, t)
    ensures Invariant(A, mem, WithSuffixes(mem, t, word))
  {
    NewSuffixesProperties(t.E, word);
    WithSuffixesRows(mem, t, word);
    ColumnsKeepInvariant(A, mem, t, WithSuffixes(mem, t, word));
  }

  /** Each row of WithSuffixes is the old row followed by the oracle's
      answers for the new suffixes. */
  lemma WithSuffixesRows(mem: string -> bool, t: Snapshot, word: string)
    requires |t.S| == |t.T| && forall k :: 0 <= k < |t.T| ==> |t.T[k]| == |t.E|
    ensures forall k :: 0 <= k < |t.T| ==>
      var row := WithSuffixes(mem, t, word).T[k];
      && |row| == |t.E| + |NewSuffixes(t.E, word)| && row[..|t.E|] == t.T[k]
      && forall j :: |t.E| <= j < |row| ==> row[j] == mem(t.S[k] + WithSuffixes(mem, t, word).E[j])
  {
    forall k | 0 <= k < |t.T| {
      WithSuffixesRow(mem, t, word, k);
    }
  }

  /** Row k of WithSuffixes: the old row, then one oracle answer per new
      suffix. */
  lemma WithSuffixesRow(mem: string -> bool, t: Snapshot, word: string, k: nat)
    requires |t.S| == |t.T| && k < |t.T| && |t.T[k]| == |t.E|
    ensures var t' := WithSuffixes(mem, t, word);
      && |t'.T[k]| == |t'.E| && t'.T[k][..|t.E|] == t.T[k]
      && forall j :: |t.E| <= j < |t'.T[k]| ==> t'.T[k][j] == mem(t.S[k] + t'.E[j])
  {
    var t', N := WithSuffixes(mem, t, word), NewSuffixes(t.E, word);
    var row := t'.T[k];
    assert row == t.T[k] + Cells(mem, t.S[k], N);
    assert row[..|t.E|] == t.T[k];
    forall j | |t.E| <= j < |row| ensures row[j] == mem(t.S[k] + t'.E[j]) {
      assert row[j] == Cells(mem, t.S[k], N)[j - |t.E|];
      assert t'.E[j] == N[j - |t.E|];
    }
  }

  /** New columns appended to a valid table, with the old cells kept and the
      oracle's answers as new cells, keep the invariant when no suffix is
      listed twice. */
  lemma ColumnsKeepInvariant(A: seq<string>, mem: string -> bool, t: Snapshot, t': Snapshot)
    requires Invariant(A, mem, t) && NoDuplicates(t'.E)
    requires t'.S == t.S && t'.rowPointer == t.rowPointer && t'.mainEnd == t.mainEnd
    requires |t.E| <= |t'.E| && t'.E[..|t.E|] == t.E && |t'.T| == |t.T|
    requires forall k :: 0 <= k < |t.T| ==>
      && |t'.T[k]| == |t'.E| && t'.T[k][..|t.E|] == t.T[k]
      && forall j :: |t.E| <= j < |t'.T[k]| ==> t'.T[k][j] == mem(t.S[k] + t'.E[j])
    ensures Invariant(A, mem, t')
  {
    forall i, j | 0 <= i < j < t.mainEnd ensures t'.T[i] != t'.T[j] {
      assert t'.T[i][..|t.E|] == t.T[i] && t'.T[j][..|t.E|] == t.T[j];
    }
    assert CellsAgree(mem, t') by {
      assert t'.T[0][0] == t'.T[0][..|t.E|][0];
      forall k, j | 0 <= k < |t'.T| && 0 <= j < |t'.E| && (0 < k || 0 < j)
        ensures t'.T[k][j] == mem(t.S[k] + t'.E[j])
      {
        if j < |t.E| {
          assert t'.T[k][j] == t'.T[k][..|t.E|][j] && t'.E[j] == t'.E[..|t.E|][j];
        }
      }
    }
    assert Expanded(A, t') by {
      forall i, a | 0 <= i < t'.rowPointer && 0 <= a < |A| ensures HasExtension(t'.S, i, A, a) {
        assert HasExtension(t.S, i, A, a);
      }
    }
  }

  /** When the scan has examined every suffix of word, the suffix list is
      extended by exactly the new suffixes, old cells are kept and new cells
      are the oracle's answers. */
  lemma ScanDone(A: seq<string>, mem: string -> bool, t0: Snapshot, word: string, t: Snapshot)
    requires Invariant(A, mem, t0) && Scanned(A, mem, t0, word, |word|, t)
    ensures Invariant(A, mem, t) && t.E == t0.E + NewSuffixes(t0.E, word)
    ensures t.S == t0.S && |t.T| == |t0.T| && t.rowPointer == t0.rowPointer && t.mainEnd == t0.mainEnd
    ensures forall k :: 0 <= k < |t.T| ==> t.T[k][..|t0.E|] == t0.T[k]
    ensures forall k, j :: 0 <= k < |t.T| && |t0.E| <= j < |t.E| ==> t.T[k][j] == mem(t.S[k] + t.E[j])
  {
    assert SuffixesShortestFirst(word)[..|word|] == SuffixesShortestFirst(word);
    OldCellsKept(A, mem, t0, t);
  }

  /** A table whose suffix list is extended by the new suffixes of word,
      whose rows keep their old cells and whose new cells are the oracle's
      answers, is WithSuffixes of the old table. */
  lemma SuffixCellsTable(mem: string -> bool, t0: Snapshot, word: string, t: Snapshot)
    requires |t0.S| == |t0.T| && t.S == t0.S && |t.T| == |t0.T|
    requires t.E == t0.E + NewSuffixes(t0.E, word)
    requires t.rowPointer == t0.rowPointer && t.mainEnd == t0.mainEnd
    requires forall k :: 0 <= k < |t.T| ==> |t.T[k]| == |t.E| && t.T[k][..|t0.E|] == t0.T[k]
    requires forall k, j :: 0 <= k < |t.T| && |t0.E| <= j < |t.E| ==> t.T[k][j] == mem(t.S[k] + t.E[j])
    ensures t == WithSuffixes(mem, t0, word)
  {
    var t' := WithSuffixes(mem, t0, word);
    var N := NewSuffixes(t0.E, word);
    forall k | 0 <= k < |t.T| ensures t.T[k] == t'.T[k] {
      assert t'.T[k] == t0.T[k] + Cells(mem, t0.S[k], N);
      assert |t0.T[k]| == |t.T[k][..|t0.E|]| == |t0.E|;
      forall j | 0 <= j < |t.E| ensures t.T[k][j] == t'.T[k][j] {
        if j < |t0.E| {
          assert t.T[k][j] == t.T[k][..|t0.E|][j] == t0.T[k][j];
        } else {
          assert t.E[j] == N[j - |t0.E|];
          assert t'.T[k][j] == Cells(mem, t0.S[k], N)[j - |t0.E|];
        }
      }
    }
    assert t.T == t'.T;
  }

  /** What adding the suffixes of word achieves, for a suffix list E0
      extended by the new suffixes of word and rows that keep their old
      cells: every suffix of word is a column, the new ones come shortest
      first, and when none was new the suffixes and the rows are as before. */
  lemma SuffixesAdded(E0: seq<string>, T0: seq<seq<bool>>, word: string, E: seq<string>, T: seq<seq<bool>>)
    requires NoDuplicates(E0) && E == E0 + NewSuffixes(E0, word)
    requires |T| == |T0| && forall k :: 0 <= k < |T| ==> |T[k]| == |E| && T[k][..|E0|] == T0[k]
    ensures NoDuplicates(E) && AllSuffixesIn(E, word) && ShortestFirst(E[|E0|..])
    ensures AllSuffixesIn(E0, word) ==> E == E0 && T == T0
  {
    NewSuffixesProperties(E0, word);
    assert E[|E0|..] == NewSuffixes(E0, word);
    NoNewSuffixes(E0, word);
    if AllSuffixesIn(E0, word) {
      forall k | 0 <= k < |T| ensures T[k] == T0[k] {
        assert T[k] == T[k][..|E0|];
      }
    }
  }

  /** Promoting a pending row that differs from every main row (rotating
      it into slot mainEnd) keeps the invariant. */
  lemma PromotionKeepsInvariant(A: seq<string>, mem: string -> bool, t: Snapshot, r: nat)
    requires Invariant(A, mem, t) && t.mainEnd <= r < |t.S|
    requires forall m :: 0 <= m < t.mainEnd ==> t.T[m] != t.T[r]
    ensures Invariant(A, mem, Promoted(t, r))
  {
    var t' := Promoted(t, r);
    PromotedShape(t, r);
    PromotedCells(mem, t, r);
    PromotedDistinct(t, r);
    PromotedExpanded(A, t, r);
  }

  /** The table after promoting pending row r. */
  function Promoted(t: Snapshot, r: nat): (t': Snapshot)
    requires t.mainEnd <= r < |t.S| == |t.T|
    ensures t'.mainEnd == t.mainEnd + 1 && t'.E == t.E && t'.rowPointer == t.rowPointer
    ensures |t'.S| == |t.S| && |t'.T| == |t.T|
  {
    t.(S := Rotate(t.S, t.mainEnd, r), T := Rotate(t.T, t.mainEnd, r), mainEnd := t.mainEnd + 1)
  }

  /** Promotion keeps the shape. */
  lemma PromotedShape(t: Snapshot, r: nat)
    requires Shape(t) && t.mainEnd <= r < |t.S|
    ensures Shape(Promoted(t, r))
  {
  }

  /** Promotion moves each row with its prefix, so every cell still answers its word. */
  lemma PromotedCells(mem: string -> bool, t: Snapshot, r: nat)
    requires Shape(t) && CellsAgree(mem, t) && t.mainEnd <= r < |t.S|
    ensures Shape(Promoted(t, r)) && CellsAgree(mem, Promoted(t, r))
  {
  }

  /** Promoting a row unlike every main row keeps the main rows distinct. */
  lemma PromotedDistinct(t: Snapshot, r: nat)
    requires Shape(t) && MainDistinct(t) && t.mainEnd <= r < |t.S|
    requires forall m :: 0 <= m < t.mainEnd ==> t.T[m] != t.T[r]
    ensures Shape(Promoted(t, r)) && MainDistinct(Promoted(t, r))
  {
  }

  /** Promotion loses no prefix, so present extensions stay present. */
  lemma PromotedExpanded(A: seq<string>, t: Snapshot, r: nat)
    requires Shape(t) && Expanded(A, t) && t.mainEnd <= r < |t.S|
    ensures Shape(Promoted(t, r)) && Expanded(A, Promoted(t, r))
  {
    PromotedShape(t, r);
    RotatePermutes(t.S, t.mainEnd, r);
    var t' := Promoted(t, r);
    forall i, a | 0 <= i < t'.rowPointer && 0 <= a < |A| ensures HasExtension(t'.S, i, A, a) {
      assert HasExtension(t.S, i, A, a);
      assert t'.S[i] == t.S[i];
      assert t.S[i] + A[a] in multiset(t.S);
    }
  }

  /** t is t0 with its pending rows reordered and some of them promoted:
      the same prefixes and rows, main rows of t0 in place, suffixes and
      cursor unchanged. */
  ghost predicate Reordered(t0: Snapshot, t: Snapshot) {
    && |t.S| == |t0.S| && |t.T| == |t0.T|
    && multiset(t.S) == multiset(t0.S) && multiset(t.T) == multiset(t0.T)
    && t0.mainEnd <= t.mainEnd <= |t.S| && t0.mainEnd <= |t0.T|
    && (forall k :: 0 <= k < t0.mainEnd ==> t.S[k] == t0.S[k] && t.T[k] == t0.T[k])
    && t.E == t0.E && t.rowPointer == t0.rowPointer
  }

  /** Promotion reorders; reorderings compose. */
  lemma PromotionReorders(t0: Snapshot, t: Snapshot, r: nat)
    requires Reordered(t0, t) && t.mainEnd <= r < |t.S| == |t.T|
    ensures Reordered(t0, Promoted(t, r))
  {
    RotatePermutes(t.S, t.mainEnd, r);
    RotatePermutes(t.T, t.mainEnd, r);
  }

  /** t grew from t0 without touching what expansion relies on: same
      suffixes, the main region and the cursor only advanced, the main rows
      of t0 in place, and every prefix of t0 still present. */
  ghost predicate Grown(t0: Snapshot, t: Snapshot) {
    && t.E == t0.E
    && t0.mainEnd <= t.mainEnd && t0.rowPointer <= t.rowPointer
    && t0.mainEnd <= |t0.S| && t0.mainEnd <= |t0.T| && t0.mainEnd <= |t.S| && t0.mainEnd <= |t.T|
    && (forall k :: 0 <= k < t0.mainEnd ==> t.S[k] == t0.S[k] && t.T[k] == t0.T[k])
    && (forall p {:trigger Known(t0.S, p)} :: Known(t0.S, p) ==> Known(t.S, p))
  }

  lemma GrownTransitive(t0: Snapshot, t1: Snapshot, t2: Snapshot)
    requires Grown(t0, t1) && Grown(t1, t2)
    ensures Grown(t0, t2)
  {
  }

  /** Appending a pending row is growth. */
  lemma NewRowIsGrown(t: Snapshot, p: string, row: seq<bool>)
    requires t.mainEnd <= |t.S| && t.mainEnd <= |t.T|
    ensures Grown(t, t.(S := t.S + [p], T := t.T + [row]))
  {
  }

  lemma ReorderedIsGrown(t0: Snapshot, t: Snapshot)
    requires Reordered(t0, t)
    ensures Grown(t0, t)
  {
    forall p | Known(t0.S, p) ensures Known(t.S, p) {
      assert p in multiset(t0.S);
    }
  }

  /** p is the extension of a main row of t by one symbol. */
  ghost predicate ExtendsMain(A: seq<string>, t: Snapshot, p: string) {
    exists i, a :: 0 <= i < t.mainEnd && i < |t.S| && 0 <= a < |A| && p == t.S[i] + A[a]
  }

  /** Every prefix of t that t0 lacks extends a main row of t by one symbol. */
  ghost predicate AddsOnlyExtensions(A: seq<string>, t0: Snapshot, t: Snapshot) {
    forall p {:trigger Known(t.S, p)} :: Known(t.S, p) ==> Known(t0.S, p) || ExtendsMain(A, t, p)
  }

  /** Growth keeps the extensions of main rows, so adding only extensions
      composes. */
  lemma OnlyExtensionsTransitive(A: seq<string>, t0: Snapshot, t1: Snapshot, t2: Snapshot)
    requires AddsOnlyExtensions(A, t0, t1) && AddsOnlyExtensions(A, t1, t2) && Grown(t1, t2)
    ensures AddsOnlyExtensions(A, t0, t2)
  {
    forall p | Known(t2.S, p) && !Known(t0.S, p) && Known(t1.S, p) ensures ExtendsMain(A, t2, p) {
      var i, a :| 0 <= i < t1.mainEnd && i < |t1.S| && 0 <= a < |A| && p == t1.S[i] + A[a];
      assert t2.S[i] == t1.S[i];
    }
  }

  /** The prefixes of t that t0 lacks, stated without the trigger wrappers. */
  lemma OnlyExtensionsAdded(A: seq<string>, t0: Snapshot, t: Snapshot)
    requires AddsOnlyExtensions(A, t0, t)
    ensures forall k :: 0 <= k < |t.S| ==>
      t.S[k] in t0.S || exists i, a :: 0 <= i < t.mainEnd && i < |t.S| && 0 <= a < |A| && t.S[k] == t.S[i] + A[a]
  {
    forall k | 0 <= k < |t.S| && t.S[k] !in t0.S
      ensures exists i, a :: 0 <= i < t.mainEnd && i < |t.S| && 0 <= a < |A| && t.S[k] == t.S[i] + A[a]
    {
      assert Known(t.S, t.S[k]);
    }
  }

  /** The loop facts of one expansion round that started at t1 on the main
      row w under the cursor: t grew from t1, w is still that row, and the
      extensions of w by the first a symbols are prefixes of t, and no
      other prefix was added. */
  ghost predicate ExtendedUpTo(A: seq<string>, t1: Snapshot, w: string, a: nat, t: Snapshot) {
    && Grown(t1, t) && t1.rowPointer < t1.mainEnd && t1.S[t1.rowPointer] == w
    && AddsOnlyExtensions(A, t1, t)
    && a <= |A|
    && forall b :: 0 <= b < a ==> Known(t.S, w + A[b])
  }

  lemma ExtendedUpToStart(A: seq<string>, t: Snapshot)
    requires Shape(t) && t.rowPointer < t.mainEnd
    ensures ExtendedUpTo(A, t, t.S[t.rowPointer], 0, t)
  {
  }

  /** Appending the extension by symbol a of the row under the cursor and
      then reordering adds no prefix other than that extension. */
  lemma ExtensionAddsOnlyExtensions(A: seq<string>, t1: Snapshot, w: string, a: nat, t2: Snapshot, t3: Snapshot, t4: Snapshot)
    requires AddsOnlyExtensions(A, t1, t2) && Grown(t1, t4) && Grown(t2, t4)
    requires t1.rowPointer < t1.mainEnd && t1.S[t1.rowPointer] == w && a < |A|
    requires |t3.S| == |t2.S| + 1 && t3.S[..|t2.S|] == t2.S && t3.S[|t2.S|] == w + A[a]
    requires multiset(t4.S) == multiset(t3.S)
    ensures AddsOnlyExtensions(A, t1, t4)
  {
    forall p | Known(t4.S, p) && !Known(t1.S, p) ensures ExtendsMain(A, t4, p) {
      assert p in multiset(t4.S);
      assert p in t3.S;
      if p == w + A[a] {
        assert t4.S[t1.rowPointer] == w;
      } else {
        var k :| 0 <= k < |t3.S| && t3.S[k] == p;
        assert t2.S[k] == p;
        assert Known(t2.S, p);
        var i, b :| 0 <= i < t2.mainEnd && i < |t2.S| && 0 <= b < |A| && p == t2.S[i] + A[b];
        assert t4.S[i] == t2.S[i];
      }
    }
  }

  /** Appending the extension by symbol a of the row under the cursor and
      then reordering keeps the loop facts, now for a + 1 symbols. */
  lemma ExtensionStep(A: seq<string>, t1: Snapshot, w: string, a: nat, t2: Snapshot, row: seq<bool>, t3: Snapshot, t4: Snapshot)
    requires Shape(t2) && ExtendedUpTo(A, t1, w, a, t2) && a < |A| && t2.rowPointer == t1.rowPointer
    requires t3 == t2.(S := t2.S + [t2.S[t2.rowPointer] + A[a]], T := t2.T + [row])
    requires Reordered(t3, t4)
    ensures ExtendedUpTo(A, t1, w, a + 1, t4) && t4.rowPointer == t1.rowPointer
  {
    assert t2.S[t2.rowPointer] == w;
    NewRowIsGrown(t2, w + A[a], row);
    ReorderedIsGrown(t3, t4);
    GrownTransitive(t2, t3, t4);
    forall b | 0 <= b < a + 1 ensures Known(t4.S, w + A[b]) {
      if b < a {
        assert Known(t2.S, w + A[b]);
      } else {
        assert Known(t3.S, w + A[a]);
      }
    }
    GrownTransitive(t1, t2, t4);
    ExtensionAddsOnlyExtensions(A, t1, w, a, t2, t3, t4);
  }

  /** Once every symbol has been tried, the cursor row has all of its
      one-symbol extensions among the prefixes. */
  lemma CursorRowExtended(A: seq<string>, t0: Snapshot, w: string, t: Snapshot)
    requires ExtendedUpTo(A, t0, w, |A|, t) && t.rowPointer == t0.rowPointer
    ensures t.rowPointer < t.mainEnd && t.rowPointer < |t.S|
    ensures forall a :: 0 <= a < |A| ==> Known(t.S, t.S[t.rowPointer] + A[a])
  {
    assert t.S[t.rowPointer] == w;
  }

  /** The end of an expansion round that started at t1: t2 is t1 with the
      extensions of its cursor row added, and t3 is t2 with the cursor moved
      on. Then t3 is valid and grew from t1 by extensions only. */
  lemma CursorRowDone(A: seq<string>, mem: string -> bool, t1: Snapshot, w: string, t2: Snapshot, t3: Snapshot)
    requires Invariant(A, mem, t2) && ExtendedUpTo(A, t1, w, |A|, t2)
    requires t2.rowPointer == t1.rowPointer
    requires t3 == t2.(rowPointer := t2.rowPointer + 1)
    ensures Invariant(A, mem, t3) && Grown(t1, t3) && AddsOnlyExtensions(A, t1, t3)
    ensures Closed(t2) ==> Closed(t3)
  {
    CursorRowExtended(A, t1, w, t2);
    CursorStepKeepsInvariant(A, mem, t2);
    GrownTransitive(t1, t2, t3);
  }

  /** Advancing the cursor past a main row whose extensions are all present
      keeps the invariant, and is growth. */
  lemma CursorStepKeepsInvariant(A: seq<string>, mem: string -> bool, t: Snapshot)
    requires Invariant(A, mem, t) && t.rowPointer < t.mainEnd
    requires forall a :: 0 <= a < |A| ==> Known(t.S, t.S[t.rowPointer] + A[a])
    ensures Invariant(A, mem, t.(rowPointer := t.rowPointer + 1))
    ensures Grown(t, t.(rowPointer := t.rowPointer + 1))
  {
    var t' := t.(rowPointer := t.rowPointer + 1);
    assert Shape(t');
    assert CellsAgree(mem, t') && MainDistinct(t');
    CursorStepExpanded(A, t);
  }

  /** The expansion part of CursorStepKeepsInvariant: the rows before the
      cursor keep their extensions, and the cursor row has all of its own. */
  lemma CursorStepExpanded(A: seq<string>, t: Snapshot)
    requires Shape(t) && Expanded(A, t) && t.rowPointer < t.mainEnd
    requires forall a :: 0 <= a < |A| ==> Known(t.S, t.S[t.rowPointer] + A[a])
    ensures Shape(t.(rowPointer := t.rowPointer + 1)) && Expanded(A, t.(rowPointer := t.rowPointer + 1))
  {
    var t' := t.(rowPointer := t.rowPointer + 1);
    forall i, a | 0 <= i < t'.rowPointer && 0 <= a < |A| ensures HasExtension(t'.S, i, A, a) {
      if i < t.rowPointer {
        assert HasExtension(t.S, i, A, a);
      }
    }
  }

  /** A scan step of promotion: promoting row index, which follows the rows
      already known to match main rows, keeps every row up to and including
      its old position matched (those rows moved one place later and the
      main rows they match stayed put). */
  lemma PromotionKeepsMatched(t: Snapshot, index: nat)
    requires Shape(t) && t.mainEnd <= index < |t.S| && MatchedBelow(t, index)
    ensures Shape(Promoted(t, index)) && MatchedBelow(Promoted(t, index), index + 1)
  {
    RotateEntries(t.T, t.mainEnd, index);
  }

  /** The table after the alignment scan from row index to the end: each
      row, in order, is promoted when it differs from every main row at the
      moment it is reached, and is left in place otherwise. */
  function Align(t: Snapshot, index: nat): (t': Snapshot)
    requires t.mainEnd <= index <= |t.S| == |t.T|
    ensures |t'.S| == |t.S| && |t'.T| == |t.T| && t'.E == t.E && t'.rowPointer == t.rowPointer
    ensures t.mainEnd <= t'.mainEnd <= |t'.S|
    decreases |t.S| - index
  {
    if index == |t.S| then t
    else if DiffersFromAll(t.T[index], t.T, t.mainEnd) then Align(Promoted(t, index), index + 1)
    else Align(t, index + 1)
  }

  /** Aligning a valid table gives a valid table in which every pending row
      equals a main row, with the same prefixes and rows and the old main
      rows in place. */
  lemma AlignedTable(A: seq<string>, mem: string -> bool, t: Snapshot, t': Snapshot)
    requires Invariant(A, mem, t) && t' == Align(t, t.mainEnd)
    ensures Invariant(A, mem, t') && Closed(t') && Reordered(t, t')
  {
    AlignKeepsInvariant(A, mem, t, t.mainEnd);
    AlignCloses(t, t.mainEnd, t');
    AlignReorders(t, t, t.mainEnd);
  }

  /** Each promotion of the scan keeps the invariant. */
  lemma {:induction false} AlignKeepsInvariant(A: seq<string>, mem: string -> bool, t: Snapshot, index: nat)
    requires Invariant(A, mem, t) && t.mainEnd <= index <= |t.S|
    ensures Invariant(A, mem, Align(t, index))
    decreases |t.S| - index
  {
    if index < |t.S| {
      var next := ScanStepKeepsInvariant(A, mem, t, index);
      AlignKeepsInvariant(A, mem, next, index + 1);
    }
  }

  /** One step of the scan keeps the invariant. */
  lemma ScanStepKeepsInvariant(A: seq<string>, mem: string -> bool, t: Snapshot, index: nat) returns (next: Snapshot)
    requires Invariant(A, mem, t) && t.mainEnd <= index < |t.S|
    ensures Invariant(A, mem, next) && next.mainEnd <= index + 1 <= |next.S|
    ensures |next.S| == |t.S| && Align(t, index) == Align(next, index + 1)
  {
    if DiffersFromAll(t.T[index], t.T, t.mainEnd) {
      PromotionKeepsInvariant(A, mem, t, index);
      next := Promoted(t, index);
    } else {
      next := t;
    }
  }

  /** The scan leaves every pending row equal to some main row: a row it
      reaches is either promoted or already matches, and later promotions
      only move matched rows one place on. */
  lemma {:induction false} AlignCloses(t: Snapshot, index: nat, t': Snapshot)
    requires Shape(t) && t.mainEnd <= index <= |t.S| && MatchedBelow(t, index)
    requires t' == Align(t, index)
    ensures Shape(t') && Closed(t')
    decreases |t.S| - index
  {
    if index < |t.S| {
      var next := ScanStepMatches(t, index);
      AlignCloses(next, index + 1, t');
    }
  }

  /** One step of the scan keeps the rows up to the next index matched. */
  lemma ScanStepMatches(t: Snapshot, index: nat) returns (next: Snapshot)
    requires Shape(t) && t.mainEnd <= index < |t.S| && MatchedBelow(t, index)
    ensures Shape(next) && next.mainEnd <= index + 1 <= |next.S| && MatchedBelow(next, index + 1)
    ensures |next.S| == |t.S| && Align(t, index) == Align(next, index + 1)
  {
    if DiffersFromAll(t.T[index], t.T, t.mainEnd) {
      PromotionKeepsMatched(t, index);
      next := Promoted(t, index);
    } else {
      next := t;
    }
  }

  /** The scan only reorders the pending rows. */
  lemma {:induction false} AlignReorders(t0: Snapshot, t: Snapshot, index: nat)
    requires Reordered(t0, t) && t.mainEnd <= index <= |t.S| == |t.T|
    ensures Reordered(t0, Align(t, index))
    decreases |t.S| - index
  {
    if index < |t.S| {
      var next := ScanStepReorders(t0, t, index);
      AlignReorders(t0, next, index + 1);
    }
  }

  /** One step of the scan only reorders. */
  lemma ScanStepReorders(t0: Snapshot, t: Snapshot, index: nat) returns (next: Snapshot)
    requires Reordered(t0, t) && t.mainEnd <= index < |t.S| == |t.T|
    ensures Reordered(t0, next) && next.mainEnd <= index + 1 <= |next.S| == |next.T|
    ensures |next.S| == |t.S| && Align(t, index) == Align(next, index + 1)
  {
    if DiffersFromAll(t.T[index], t.T, t.mainEnd) {
      PromotionReorders(t0, t, index);
      next := Promoted(t, index);
    } else {
      next := t;
    }
  }

  /** A scan over rows that all match main rows promotes nothing. */
  lemma {:induction false} MatchedRowsStay(t: Snapshot, index: nat)
    requires Shape(t) && t.mainEnd <= index <= |t.S| && Closed(t)
    ensures Align(t, index) == t
    decreases |t.S| - index
  {
    if index < |t.S| {
      MatchedRowsStay(t, index + 1);
    }
  }

  /** Aligning is idempotent: a second scan over an aligned table changes
      nothing. */
  lemma AlignIdempotent(A: seq<string>, mem: string -> bool, t: Snapshot)
    requires Invariant(A, mem, t)
    ensures var t' := Align(t, t.mainEnd); Align(t', t'.mainEnd) == t'
  {
    var t' := Align(t, t.mainEnd);
    AlignedTable(A, mem, t, t');
    MatchedRowsStay(t', t'.mainEnd);
  }

  /** The L* closedness of a fully expanded, closed table: the one-symbol
      extension of every main prefix is a row of the table equal to some
      main row. */
  lemma ExpandedClosedTable(A: seq<string>, mem: string -> bool, t: Snapshot)
    requires Invariant(A, mem, t) && Closed(t) && t.rowPointer == t.mainEnd
    ensures forall i, a :: 0 <= i < t.mainEnd && 0 <= a < |A| ==>
      exists k, m :: 0 <= k < |t.S| && 0 <= m < t.mainEnd && t.S[k] == t.S[i] + A[a] && t.T[m] == t.T[k]
  {
    forall i, a | 0 <= i < t.mainEnd && 0 <= a < |A|
      ensures exists k, m :: 0 <= k < |t.S| && 0 <= m < t.mainEnd && t.S[k] == t.S[i] + A[a] && t.T[m] == t.T[k]
    {
      assert HasExtension(t.S, i, A, a);
      var k :| 0 <= k < |t.S| && t.S[k] == t.S[i] + A[a];
      // The main row matching row k: k itself when it is a main row, and
      // otherwise the one Closed provides.
      var m: nat := k;
      if t.mainEnd <= k {
        m :| 0 <= m < t.mainEnd && t.T[m] == t.T[k];
      }
      assert m < t.mainEnd && t.S[k] == t.S[i] + A[a];
    }
  }

  /** Every one-symbol extension of a main row the cursor has passed is a
      prefix of the table. */
  lemma ExtensionsPresent(A: seq<string>, mem: string -> bool, t: Snapshot)
    requires Invariant(A, mem, t)
    ensures forall i, a :: 0 <= i < t.rowPointer && 0 <= a < |A| ==> t.S[i] + A[a] in t.S
  {
    forall i, a | 0 <= i < t.rowPointer && 0 <= a < |A| ensures t.S[i] + A[a] in t.S {
      assert HasExtension(t.S, i, A, a);
    }
  }

  /** Main rows are pairwise distinct vectors of |E| cells, so there are at
      most 2^|E| of them. */
  lemma MainRowsBounded(A: seq<string>, mem: string -> bool, t: Snapshot)
    requires Invariant(A, mem, t)
    ensures t.mainEnd <= RowCount.Pow2(|t.E|)
  {
    RowCount.DistinctRowsBound(t.T[..t.mainEnd], |t.E|);
  }

  /** The table after appending prefix p with its row of oracle answers. */
  function WithPrefix(mem: string -> bool, t: Snapshot, p: string): (t': Snapshot)
    ensures |t'.S| == |t.S| + 1 && t'.S[..|t.S|] == t.S && t'.S[|t.S|] == p
    ensures |t'.T| == |t.T| + 1 && t'.T[..|t.T|] == t.T
    ensures |t'.T[|t.T|]| == |t.E| && forall j :: 0 <= j < |t.E| ==> t'.T[|t.T|][j] == mem(p + t.E[j])
    ensures t'.E == t.E && t'.rowPointer == t.rowPointer && t'.mainEnd == t.mainEnd
  {
    t.(S := t.S + [p], T := t.T + [Cells(mem, p, t.E)])
  }

  /** One step of the inner loop of an expansion round: the extension by
      symbol a of the row under the cursor is appended, and the rows are
      re-aligned at once. */
  function ExtendBy(A: seq<string>, mem: string -> bool, t: Snapshot, a: nat): (t': Snapshot)
    requires t.mainEnd <= |t.S| == |t.T| && t.rowPointer < |t.S| && a < |A|
    ensures |t'.S| == |t.S| + 1 && t.mainEnd <= t'.mainEnd <= |t'.S| == |t'.T|
    ensures t'.E == t.E && t'.rowPointer == t.rowPointer
  {
    var t1 := WithPrefix(mem, t, t.S[t.rowPointer] + A[a]);
    Align(t1, t1.mainEnd)
  }

  /** The inner loop of one expansion round after its first n symbols:
      each symbol, in alphabet order, is an ExtendBy step. */
  function ExtendUpTo(A: seq<string>, mem: string -> bool, t: Snapshot, n: nat): (t': Snapshot)
    requires t.mainEnd <= |t.S| == |t.T| && t.rowPointer < |t.S| && n <= |A|
    ensures |t'.S| == |t.S| + n && t.mainEnd <= t'.mainEnd <= |t'.S| == |t'.T|
    ensures t'.E == t.E && t'.rowPointer == t.rowPointer
  {
    if n == 0 then t else ExtendBy(A, mem, ExtendUpTo(A, mem, t, n - 1), n - 1)
  }

  /** One round of the expansion loop: every symbol extends the row under
      the cursor, then the cursor moves on. */
  function ExpandRound(A: seq<string>, mem: string -> bool, t: Snapshot): (t': Snapshot)
    requires t.mainEnd <= |t.S| == |t.T| && t.rowPointer < |t.S|
    ensures |t'.S| == |t.S| + |A| && t.mainEnd <= t'.mainEnd <= |t'.S| == |t'.T|
    ensures t'.E == t.E && t'.rowPointer == t.rowPointer + 1
  {
    var t1 := ExtendUpTo(A, mem, t, |A|);
    t1.(rowPointer := t1.rowPointer + 1)
  }

  /** The expansion loop: rounds run while the cursor is inside the main
      region. A valid table never has more than 2^|E| main rows
      (MainRowsBounded), so the cap on the main region in the loop condition
      never stops a table the class reaches (ExpandTable); it only lets the
      definition terminate on arbitrary snapshots, as every round moves the
      cursor on. */
  function Expand(A: seq<string>, mem: string -> bool, t: Snapshot): (t': Snapshot)
    requires t.mainEnd <= |t.S| == |t.T|
    ensures t'.E == t.E
    decreases RowCount.Pow2(|t.E|) - t.rowPointer
  {
    if t.rowPointer < t.mainEnd <= RowCount.Pow2(|t.E|) then
      Expand(A, mem, ExpandRound(A, mem, t))
    else
      t
  }

  /** Once the cursor has reached the end of the main region, expansion
      changes nothing. */
  lemma ExpandDone(A: seq<string>, mem: string -> bool, t: Snapshot)
    requires t.mainEnd <= |t.S| == |t.T| && t.mainEnd <= t.rowPointer
    ensures Expand(A, mem, t) == t
  {
  }

  /** An expansion step keeps the invariant. */
  lemma ExtendByKeepsInvariant(A: seq<string>, mem: string -> bool, t: Snapshot, a: nat, t': Snapshot)
    requires Invariant(A, mem, t) && t.rowPointer < t.mainEnd && a < |A|
    requires t' == ExtendBy(A, mem, t, a)
    ensures Invariant(A, mem, t')
  {
    var p := t.S[t.rowPointer] + A[a];
    NewRowKeepsInvariant(A, mem, t, p);
    AlignedTable(A, mem, WithPrefix(mem, t, p), t');
  }

  /** An expansion step is growth, and afterwards the extension it appended
      is among the prefixes. */
  lemma ExtendByGrows(A: seq<string>, mem: string -> bool, t: Snapshot, a: nat, t': Snapshot)
    requires t.mainEnd <= |t.S| == |t.T| && t.rowPointer < |t.S| && a < |A|
    requires t' == ExtendBy(A, mem, t, a)
    ensures Grown(t, t')
    ensures Known(t'.S, t.S[t.rowPointer] + A[a])
  {
    var p := t.S[t.rowPointer] + A[a];
    var t3 := WithPrefix(mem, t, p);
    NewRowIsGrown(t, p, Cells(mem, p, t.E));
    AlignReorders(t3, t3, t3.mainEnd);
    ReorderedIsGrown(t3, t');
    GrownTransitive(t, t3, t');
    assert Known(t3.S, p);
  }

  /** Cells are determined by the prefixes and the suffixes: two tables with
      the same prefixes and suffixes whose cells all answer the same oracle
      have the same rows. */
  lemma CellsDetermined(mem: string -> bool, t: Snapshot, t': Snapshot)
    requires Shape(t) && Shape(t') && CellsAgree(mem, t) && CellsAgree(mem, t')
    requires t.S == t'.S && t.E == t'.E
    ensures t.T == t'.T
  {
    forall k | 0 <= k < |t.T| ensures t.T[k] == t'.T[k] {
      assert |t.T[k]| == |t.E| == |t'.T[k]|;
      forall j | 0 <= j < |t.E| ensures t.T[k][j] == t'.T[k][j] {
        if k == 0 && j == 0 {
          assert !t.T[0][0] && !t'.T[0][0];
        } else {
          assert t.T[k][j] == mem(t.S[k] + t.E[j]) == t'.T[k][j];
        }
      }
    }
  }

  /** One refinement round on the table's values: the new suffixes of the
      counterexample w become columns, the rows are aligned, and the table
      is expanded. */
  function Refined(A: seq<string>, mem: string -> bool, t: Snapshot, w: string): (t': Snapshot)
    requires t.mainEnd <= |t.S| == |t.T|
    ensures t'.E == t.E + NewSuffixes(t.E, w)
  {
    var t1 := WithSuffixes(mem, t, w);
    Expand(A, mem, Align(t1, t1.mainEnd))
  }

  /** The prefixes after a refinement round: t1 has the prefixes of t0, t2
      reorders t1 and t3 is grown from t2 by extensions only. Then every
      prefix of t0 is still there, and every prefix t0 lacks extends a main
      row of t3 by one symbol. */
  lemma RoundPrefixes(A: seq<string>, t0: Snapshot, t1: Snapshot, t2: Snapshot, t3: Snapshot)
    requires t1.S == t0.S && Reordered(t1, t2) && Grown(t2, t3) && AddsOnlyExtensions(A, t2, t3)
    ensures forall p :: p in t0.S ==> p in t3.S
    ensures AddsOnlyExtensions(A, t0, t3)
  {
    forall p | p in t0.S ensures p in t3.S {
      assert p in multiset(t2.S);
      assert Known(t2.S, p);
    }
    forall p | Known(t3.S, p) && Known(t2.S, p) ensures Known(t0.S, p) {
      assert p in multiset(t2.S);
    }
  }
}
