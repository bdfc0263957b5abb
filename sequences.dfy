/** Sequence operations the observation table is specified with: the one-step
    rotation that promotion performs on the prefix array and on the rows, and
    the list of suffixes that a counterexample contributes as new columns. */
module Sequences {

  ghost predicate NoDuplicates<X>(s: seq<X>) {
    forall i, j :: 0 <= i < j < |s| ==> s[i] != s[j]
  }

  /** The position whose entry Rotate(_, lo, hi) moves to position k. */
  function Origin(lo: nat, hi: nat, k: nat): (o: nat)
    requires lo <= hi
    ensures k <= hi ==> o <= hi
    ensures k < lo || hi < k ==> o == k
  {
    if k == lo then hi else if lo < k <= hi then k - 1 else k
  }

  /** The segment s[lo..hi] rotated one step towards the end: s[hi] lands at
      lo and s[lo..hi] moves up by one; everything outside is untouched. */
  function Rotate<X>(s: seq<X>, lo: nat, hi: nat): (r: seq<X>)
    requires lo <= hi < |s|
    ensures |r| == |s|
  {
    seq(|s|, k requires 0 <= k < |s| => s[Origin(lo, hi, k)])
  }

  /** Entry by entry: s[hi] lands at lo, s[lo..hi) moves up by one, and
      everything outside [lo, hi] stays. */
  lemma RotateEntries<X>(s: seq<X>, lo: nat, hi: nat)
    requires lo <= hi < |s|
    ensures Rotate(s, lo, hi)[lo] == s[hi]
    ensures forall k :: lo < k <= hi ==> Rotate(s, lo, hi)[k] == s[k - 1]
    ensures forall k :: 0 <= k < |s| && (k < lo || hi < k) ==> Rotate(s, lo, hi)[k] == s[k]
  {
  }

  /** Rotation only reorders. */
  lemma RotatePermutes<X>(s: seq<X>, lo: nat, hi: nat)
    requires lo <= hi < |s|
    ensures multiset(Rotate(s, lo, hi)) == multiset(s)
  {
    assert s == s[..lo] + s[lo..hi] + [s[hi]] + s[hi + 1..];
    assert Rotate(s, lo, hi) == s[..lo] + [s[hi]] + s[lo..hi] + s[hi + 1..];
  }

  /** Shifting s[lo..r) one place later and then writing s[r] into slot lo
      is the rotation of s[lo..r]. */
  lemma ShiftThenWriteIsRotation<X>(s: seq<X>, shifted: seq<X>, lo: nat, r: nat)
    requires lo <= r < |s| == |shifted|
    requires forall k :: 0 <= k < |s| ==> shifted[k] == s[ShiftSource(lo, r, k)]
    ensures shifted[lo := s[r]] == Rotate(s, lo, r)
  {
  }

  /** The position whose entry lands at k when s[lo..r) is shifted one place
      later, leaving slot lo as it was. */
  function ShiftSource(lo: nat, r: nat, k: nat): (o: nat)
    ensures lo < k <= r ==> o == k - 1
    ensures !(lo < k <= r) ==> o == k
  {
    if lo < k <= r then k - 1 else k
  }

  /** The non-empty suffixes of w, shortest first: w[|w|-1..], ..., w[0..]. */
  function SuffixesShortestFirst(w: string): (r: seq<string>)
    ensures |r| == |w|
    ensures forall k :: 0 <= k < |r| ==> r[k] == w[|w| - 1 - k..]
  {
    if w == [] then [] else SuffixesShortestFirst(w[1..]) + [w]
  }

  /** The elements of xs that are not in known, in their order in xs. */
  function Unseen(known: seq<string>, xs: seq<string>): seq<string> {
    if xs == [] then []
    else
      var last := xs[|xs| - 1];
      Unseen(known, xs[..|xs| - 1]) + (if last in known then [] else [last])
  }

  /** Unseen keeps at most the listed words. */
  lemma {:induction false} UnseenLength(known: seq<string>, xs: seq<string>)
    ensures |Unseen(known, xs)| <= |xs|
  {
    if xs != [] {
      UnseenLength(known, xs[..|xs| - 1]);
      assert xs == xs[..|xs| - 1] + [xs[|xs| - 1]];
    }
  }

  /** Unseen keeps exactly the listed words that are not known. */
  lemma {:induction false} UnseenMembers(known: seq<string>, xs: seq<string>)
    ensures forall x :: x in Unseen(known, xs) <==> x in xs && x !in known
  {
    if xs != [] {
      var init, last := xs[..|xs| - 1], xs[|xs| - 1];
      UnseenMembers(known, init);
      assert xs == init + [last];
    }
  }

  /** The suffixes a counterexample w adds to the suffix list E:
      its non-empty suffixes that E lacks, shortest first. */
  function NewSuffixes(E: seq<string>, w: string): (r: seq<string>)
    ensures |r| <= |w|
  {
    UnseenLength(E, SuffixesShortestFirst(w));
    Unseen(E, SuffixesShortestFirst(w))
  }

  /** One step of the scan over the suffixes of w, shortest first: the n-th
      suffix is new exactly when the original list lacks it, because every
      suffix added before it is shorter. */
  lemma UnseenStep(E: seq<string>, w: string, n: nat)
    requires n < |w|
    ensures Unseen(E, SuffixesShortestFirst(w)[..n + 1])
      == Unseen(E, SuffixesShortestFirst(w)[..n]) + (if w[|w| - 1 - n..] in E then [] else [w[|w| - 1 - n..]])
    ensures w[|w| - 1 - n..] in E + Unseen(E, SuffixesShortestFirst(w)[..n]) <==> w[|w| - 1 - n..] in E
  {
    var xs := SuffixesShortestFirst(w);
    var ys, s := xs[..n + 1], w[|w| - 1 - n..];
    assert Unseen(E, ys) == Unseen(E, xs[..n]) + (if s in E then [] else [s]) by {
      assert ys[n] == s && ys[..n] == xs[..n];
    }
    var u := Unseen(E, xs[..n]);
    assert s !in u by {
      UnseenMembers(E, xs[..n]);
      forall x | x in u ensures |x| <= n {
        assert x in xs[..n];
        var k :| 0 <= k < n && xs[..n][k] == x;
        assert x == xs[k];
      }
    }
  }

  /** Lengths strictly increase along s. */
  ghost predicate ShortestFirst(s: seq<string>) {
    forall i, j :: 0 <= i < j < |s| ==> |s[i]| < |s[j]|
  }

  /** Dropping elements keeps a shortest-first list shortest-first. */
  lemma {:induction false} UnseenKeepsOrder(known: seq<string>, xs: seq<string>)
    requires ShortestFirst(xs)
    ensures ShortestFirst(Unseen(known, xs))
  {
    if xs != [] {
      var n := |xs| - 1;
      var init := xs[..n];
      UnseenKeepsOrder(known, init);
      UnseenMembers(known, init);
      var u := Unseen(known, init);
      forall x | x in u ensures |x| < |xs[n]| {
        var i :| 0 <= i < n && init[i] == x;
      }
    }
  }

  /** Every non-empty suffix of w is in the suffix list after the new
      suffixes are appended. */
  ghost predicate AllSuffixesIn(E: seq<string>, w: string) {
    forall k :: 0 <= k < |w| ==> w[k..] in E
  }

  /** The new suffixes are appended shortest-first, and afterwards every
      non-empty suffix of w is in the suffix list exactly once. */
  lemma NewSuffixesProperties(E: seq<string>, w: string)
    requires NoDuplicates(E)
    ensures ShortestFirst(NewSuffixes(E, w))
    ensures NoDuplicates(E + NewSuffixes(E, w))
    ensures AllSuffixesIn(E + NewSuffixes(E, w), w)
  {
    var xs, ns := SuffixesShortestFirst(w), NewSuffixes(E, w);
    UnseenKeepsOrder(E, xs);
    UnseenMembers(E, xs);
    forall i, j | 0 <= i < j < |E + ns| ensures (E + ns)[i] != (E + ns)[j] {
      if j >= |E| && i < |E| {
        assert (E + ns)[j] in ns;
      } else if i >= |E| {
        assert |ns[i - |E|]| < |ns[j - |E|]|;
      }
    }
    forall k | 0 <= k < |w| ensures w[k..] in E + ns {
      assert w[k..] == xs[|w| - 1 - k];
    }
  }

  /** A counterexample adds no suffix exactly when all of its non-empty
      suffixes are already known (in particular when it is empty). */
  lemma {:induction false} NoNewSuffixes(E: seq<string>, w: string)
    ensures NewSuffixes(E, w) == [] <==> AllSuffixesIn(E, w)
  {
    var xs, ns := SuffixesShortestFirst(w), NewSuffixes(E, w);
    UnseenMembers(E, xs);
    assert ns == Unseen(E, xs);
    if ns == [] {
      forall k | 0 <= k < |w| ensures w[k..] in E {
        assert w[k..] == xs[|w| - 1 - k];
        assert w[k..] in xs && w[k..] !in ns;
      }
    } else {
      var x := ns[0];
      assert x in xs && x !in E;
      var k :| 0 <= k < |xs| && xs[k] == x;
      assert w[|w| - 1 - k..] !in E;
    }
  }
}
