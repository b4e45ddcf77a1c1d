/** Cutting a reply into consecutive fragments of bounded length, as the
    comprehension `[s[i:i+n] for i in range(0, len(s), n)]` does with Python's
    clamped slices. */
module Chunks {
  import opened Text

  function Min(a: int, b: int): int {
    if a <= b then a else b
  }

  /** The fragments of `s` of at most `n` code points each. Joined in order they
      give back `s`; none is empty; every one but the last is exactly `n` long. */
  function Split(s: String, n: nat): (r: seq<String>)
    requires n > 0
    ensures Concat(r) == s
    ensures forall k :: 0 <= k < |r| ==> 0 < |r[k]| <= n
    ensures forall k :: 0 <= k < |r| - 1 ==> |r[k]| == n
    decreases |s|
  {
    if s == [] then []
    else if |s| <= n then [s]
    else [s[..n]] + Split(s[n..], n)
  }

  /** What remains to be sent from index `i` on is the slice `s[i:i+n]`
      followed by what remains from `i + n` on. */
  lemma SplitStep(s: String, n: nat, i: nat)
    requires n > 0 && i < |s|
    ensures Split(s[i..], n) == [s[i..Min(i + n, |s|)]] + Split(s[Min(i + n, |s|)..], n)
  {
    var rest := s[i..];
    if |rest| > n {
      assert rest[..n] == s[i..i + n];
      assert rest[n..] == s[i + n..];
    } else {
      assert rest == s[i..|s|];
      assert s[|s|..] == [];
    }
  }

  /** Posting the fragment at `i` after messages `sent` leaves the fragments
      from `i + n` on to be posted. */
  lemma SplitStepAfter(sent: seq<String>, s: String, n: nat, i: nat)
    requires n > 0 && i < |s|
    ensures sent + Split(s[i..], n)
         == (sent + [s[i..Min(i + n, |s|)]]) + Split(s[Min(i + n, |s|)..], n)
  {
    SplitStep(s, n, i);
  }

  /** There are ceil(|s| / n) fragments: the fewest fragments of at most `n`
      code points that hold all of `s`. */
  lemma {:induction false} SplitCount(s: String, n: nat)
    requires n > 0
    ensures s == [] ==> Split(s, n) == []
    ensures s != [] ==> (|Split(s, n)| - 1) * n < |s| <= |Split(s, n)| * n
    decreases |s|
  {
    if |s| > n {
      SplitCount(s[n..], n);
      var k := |Split(s[n..], n)|;
      assert |Split(s, n)| == k + 1;
      assert (k + 1) * n == k * n + n;
    }
  }

  /** The fragments are determined by their three properties: any list of
      non-empty texts of at most `n` code points, all but the last exactly `n`
      long, that joins to `s` is `Split(s, n)`. */
  lemma {:induction false} SplitUnique(ps: seq<String>, s: String, n: nat)
    requires n > 0
    requires Concat(ps) == s
    requires forall k :: 0 <= k < |ps| ==> 0 < |ps[k]| <= n
    requires forall k :: 0 <= k < |ps| - 1 ==> |ps[k]| == n
    ensures ps == Split(s, n)
    decreases |ps|
  {
    if |ps| == 0 {
    } else if |ps| == 1 {
      assert Concat(ps[1..]) == [];
      assert s == ps[0];
      assert ps == [s];
    } else {
      var rest := Concat(ps[1..]);
      assert s == ps[0] + rest;
      assert |ps[1]| > 0 && rest == ps[1] + Concat(ps[2..]);
      assert s[..n] == ps[0] && s[n..] == rest;
      SplitUnique(ps[1..], rest, n);
    }
  }
}
