/** How many pairwise distinct rows of cells an observation table can hold.
    A row over |E| suffixes is a vector of |E| booleans, so at most 2^|E| rows
    can be pairwise distinct; this bound is what makes the frontier expansion
    of the observation table terminate. */
module RowCount {

  function Pow2(n: nat): (r: nat)
    ensures r >= 1
  {
    if n == 0 then 1 else 2 * Pow2(n - 1)
  }

  /** The number a row spells when its cells are read as binary digits,
      least significant cell first. */
  function Code(row: seq<bool>): (c: nat)
    ensures c < Pow2(|row|)
  {
    if row == [] then 0 else (if row[0] then 1 else 0) + 2 * Code(row[1..])
  }

  /** Two rows of the same width with the same code are the same row. */
  lemma {:induction false} CodeInjective(a: seq<bool>, b: seq<bool>)
    requires |a| == |b|
    ensures Code(a) == Code(b) ==> a == b
  {
    if a != [] && Code(a) == Code(b) {
      var x, y := if a[0] then 1 else 0, if b[0] then 1 else 0;
      assert Code(a) == x + 2 * Code(a[1..]);
      assert Code(b) == y + 2 * Code(b[1..]);
      assert x == y;
      CodeInjective(a[1..], b[1..]);
      assert a == [a[0]] + a[1..] && b == [b[0]] + b[1..];
    }
  }

  /** The set of codes of the given rows. */
  function Codes(rows: seq<seq<bool>>): (cs: set<nat>)
    ensures forall c :: c in cs <==> exists i :: 0 <= i < |rows| && Code(rows[i]) == c
  {
    if rows == [] then {}
    else
      var init := rows[..|rows| - 1];
      assert forall i :: 0 <= i < |init| ==> init[i] == rows[i];
      Codes(init) + {Code(rows[|rows| - 1])}
  }

  /** The natural numbers below n. */
  function Below(n: nat): (r: set<nat>)
    ensures |r| == n
    ensures forall c: nat :: c in r <==> c < n
  {
    if n == 0 then {} else Below(n - 1) + {n - 1}
  }

  /** Pairwise distinct rows have pairwise distinct codes. */
  lemma {:induction false} CodesOfDistinctRows(rows: seq<seq<bool>>, n: nat)
    requires forall i :: 0 <= i < |rows| ==> |rows[i]| == n
    requires forall i, j :: 0 <= i < j < |rows| ==> rows[i] != rows[j]
    ensures |Codes(rows)| == |rows|
  {
    if rows != [] {
      var k := |rows| - 1;
      var init, c := rows[..k], Code(rows[k]);
      CodesOfDistinctRows(init, n);
      assert c !in Codes(init) by {
        forall i | 0 <= i < k ensures Code(init[i]) != c {
          assert init[i] == rows[i];
          CodeInjective(rows[i], rows[k]);
        }
      }
      assert Codes(rows) == Codes(init) + {c};
    }
  }

  /** Pigeonhole: at most 2^n rows of width n are pairwise distinct. */
  lemma DistinctRowsBound(rows: seq<seq<bool>>, n: nat)
    requires forall i :: 0 <= i < |rows| ==> |rows[i]| == n
    requires forall i, j :: 0 <= i < j < |rows| ==> rows[i] != rows[j]
    ensures |rows| <= Pow2(n)
  {
    CodesOfDistinctRows(rows, n);
    var cs, all := Codes(rows), Below(Pow2(n));
    assert cs <= all;
    assert all == cs + (all - cs);
  }
}
