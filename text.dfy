/** Python string semantics used by the message handler: `str.isspace`,
    `str.strip()`, `str.replace(token, '')`, `str.split(token)` and `str(n)`
    for a non-negative integer. A Python `str` is a sequence of code points,
    modelled as `seq<char>`. */
module Text {

  type String = seq<char>

  // ---------------------------------------------------------------------------
  // Whitespace and str.strip()
  // ---------------------------------------------------------------------------

  /** The code points Python's `str.isspace` (and so `str.strip()` without
      arguments) treats as whitespace. */
  predicate IsSpace(c: char) {
    var k := c as int;
    (0x09 <= k <= 0x0D) || (0x1C <= k <= 0x20) || k == 0x85 || k == 0xA0 ||
    k == 0x1680 || (0x2000 <= k <= 0x200A) || k == 0x2028 || k == 0x2029 ||
    k == 0x202F || k == 0x205F || k == 0x3000
  }

  predicate AllSpace(s: String) {
    forall k :: 0 <= k < |s| ==> IsSpace(s[k])
  }

  /** The scan `strip()` makes from the left: from index `i`, the index of the
      first code point that is not whitespace, or the end of the text. */
  function StripStart(s: String, i: nat): (k: nat)
    requires i <= |s|
    ensures i <= k <= |s|
    ensures forall m :: i <= m < k ==> IsSpace(s[m])
    ensures k == |s| || !IsSpace(s[k])
    decreases |s| - i
  {
    if i < |s| && IsSpace(s[i]) then StripStart(s, i + 1) else i
  }

  /** The scan `strip()` makes from the right, never passing `lo`: from the end
      index `j`, the end of the last code point that is not whitespace, or
      `lo`. */
  function StripEnd(s: String, lo: nat, j: nat): (k: nat)
    requires lo <= j <= |s|
    ensures lo <= k <= j
    ensures forall m :: k <= m < j ==> IsSpace(s[m])
    ensures k == lo || !IsSpace(s[k - 1])
    decreases j
  {
    if lo < j && IsSpace(s[j - 1]) then StripEnd(s, lo, j - 1) else j
  }

  /** `s.strip()`: the result is the contiguous part of `s` left between a run
      of leading and a run of trailing whitespace, and it neither starts nor
      ends with whitespace. */
  function Strip(s: String): (r: String)
    ensures r == [] || (!IsSpace(r[0]) && !IsSpace(r[|r| - 1]))
    ensures exists i, j ::
              && 0 <= i <= j <= |s| && r == s[i..j]
              && (forall k :: 0 <= k < i ==> IsSpace(s[k]))
              && (forall k :: j <= k < |s| ==> IsSpace(s[k]))
  {
    var i := StripStart(s, 0);
    var j := StripEnd(s, i, |s|);
    s[i..j]
  }

  /** Stripping never changes a text that is already stripped. */
  lemma StripIdempotent(s: String)
    ensures Strip(Strip(s)) == Strip(s)
  {
  }

  /** Stripping yields the empty text exactly when the text is all whitespace. */
  lemma StripEmptyIff(s: String)
    ensures Strip(s) == [] <==> AllSpace(s)
  {
  }

  // ---------------------------------------------------------------------------
  // Occurrences of a token
  // ---------------------------------------------------------------------------

  /** The token `t` occurs in `s` starting at index `i`. */
  predicate MatchAt(s: String, t: String, i: nat) {
    i + |t| <= |s| && s[i..i + |t|] == t
  }

  predicate Occurs(s: String, t: String) {
    exists i: nat :: i <= |s| && MatchAt(s, t, i)
  }

  /** The concatenation of a list of texts, `''.join(ps)`. */
  function Concat(ps: seq<String>): String {
    if ps == [] then [] else ps[0] + Concat(ps[1..])
  }

  /** `sep.join(ps)`. */
  function Join(ps: seq<String>, sep: String): String {
    if ps == [] then []
    else if |ps| == 1 then ps[0]
    else ps[0] + sep + Join(ps[1..], sep)
  }

  // ---------------------------------------------------------------------------
  // str.replace(t, '') and str.split(t)
  // ---------------------------------------------------------------------------

  /** `s.replace(t, '')` for a non-empty token: scanning left to right, every
      occurrence that starts where the scan stands is dropped and the scan
      resumes after it, so the occurrences removed never overlap. */
  function RemoveAll(s: String, t: String): (r: String)
    requires t != []
    ensures |r| <= |s|
  {
    if |s| < |t| then s
    else if s[..|t|] == t then RemoveAll(s[|t|..], t)
    else [s[0]] + RemoveAll(s[1..], t)
  }

  /** `s.split(t)` for a non-empty token, with `cur` the piece collected so far. */
  function PiecesFrom(s: String, t: String, cur: String): (ps: seq<String>)
    requires t != []
    ensures |ps| > 0
  {
    if |s| < |t| then [cur + s]
    else if s[..|t|] == t then [cur] + PiecesFrom(s[|t|..], t, [])
    else PiecesFrom(s[1..], t, cur + [s[0]])
  }

  /** `s.split(t)`: the pieces of `s` between the occurrences of `t` that a
      left-to-right scan finds. */
  function Pieces(s: String, t: String): (ps: seq<String>)
    requires t != []
    ensures |ps| > 0
  {
    PiecesFrom(s, t, [])
  }

  lemma {:induction false} PiecesFromJoin(s: String, t: String, cur: String)
    requires t != []
    ensures Join(PiecesFrom(s, t, cur), t) == cur + s
    decreases |s|
  {
    if |s| < |t| {
    } else if s[..|t|] == t {
      PiecesFromJoin(s[|t|..], t, []);
      assert s == t + s[|t|..];
    } else {
      PiecesFromJoin(s[1..], t, cur + [s[0]]);
      assert cur + [s[0]] + s[1..] == cur + s;
    }
  }

  /** Putting the token back between the pieces rebuilds the original text. */
  lemma PiecesJoin(s: String, t: String)
    requires t != []
    ensures Join(Pieces(s, t), t) == s
  {
    PiecesFromJoin(s, t, []);
  }

  lemma {:induction false} PiecesFromConcat(s: String, t: String, cur: String)
    requires t != []
    ensures Concat(PiecesFrom(s, t, cur)) == cur + RemoveAll(s, t)
    decreases |s|
  {
    if |s| < |t| {
      assert Concat([cur + s]) == cur + s + Concat([]);
    } else if s[..|t|] == t {
      PiecesFromConcat(s[|t|..], t, []);
    } else {
      PiecesFromConcat(s[1..], t, cur + [s[0]]);
      assert cur + [s[0]] + RemoveAll(s[1..], t) == cur + ([s[0]] + RemoveAll(s[1..], t));
    }
  }

  /** `s.replace(t, '') == ''.join(s.split(t))`: removing the token keeps
      exactly the pieces between the removed occurrences, in order. */
  lemma RemoveAllIsConcatOfPieces(s: String, t: String)
    requires t != []
    ensures RemoveAll(s, t) == Concat(Pieces(s, t))
  {
    PiecesFromConcat(s, t, []);
  }

  lemma {:induction false} PiecesFromTokenFree(s: String, t: String, cur: String)
    requires t != []
    requires forall j: nat :: j < |cur| ==> !MatchAt(cur + s, t, j)
    ensures forall p :: p in PiecesFrom(s, t, cur) ==> !Occurs(p, t)
    decreases |s|
  {
    var u := cur + s;
    if |s| < |t| {
      forall j: nat | j <= |u| ensures !MatchAt(u, t, j) {
        if j < |cur| {
        }
      }
    } else if s[..|t|] == t {
      forall j: nat | j <= |cur| ensures !MatchAt(cur, t, j) {
        if j + |t| <= |cur| {
          assert u[j..j + |t|] == cur[j..j + |t|];
          assert !MatchAt(u, t, j);
        }
      }
      PiecesFromTokenFree(s[|t|..], t, []);
    } else {
      var cur' := cur + [s[0]];
      assert cur' + s[1..] == u;
      forall j: nat | j < |cur'| ensures !MatchAt(cur' + s[1..], t, j) {
        if j == |cur| {
          assert u[|cur|..] == s;
          assert u[j..j + |t|] == u[|cur|..][..|t|];
        }
      }
      PiecesFromTokenFree(s[1..], t, cur');
    }
  }

  /** No piece of `s.split(t)` contains the token: every occurrence of `t` in
      `s` lies in, or overlaps, one of the occurrences the scan removed. */
  lemma PiecesTokenFree(s: String, t: String)
    requires t != []
    ensures forall p :: p in Pieces(s, t) ==> !Occurs(p, t)
  {
    PiecesFromTokenFree(s, t, []);
  }

  /** An occurrence in the tail of a text is an occurrence one place further
      on in the text. */
  lemma MatchAtTail(s: String, t: String, i: nat)
    requires s != []
    ensures MatchAt(s[1..], t, i) <==> MatchAt(s, t, i + 1)
  {
  }

  lemma {:induction false} RemoveAllWithout(s: String, t: String)
    requires t != []
    requires !Occurs(s, t)
    ensures RemoveAll(s, t) == s
    decreases |s|
  {
    if |s| >= |t| {
      assert !MatchAt(s, t, 0);
      forall i: nat | i <= |s| - 1 ensures !MatchAt(s[1..], t, i) {
        MatchAtTail(s, t, i);
      }
      RemoveAllWithout(s[1..], t);
      assert s == [s[0]] + s[1..];
    }
  }

  lemma {:induction false} RemoveAllShortens(s: String, t: String, i: nat)
    requires t != []
    requires MatchAt(s, t, i)
    ensures |RemoveAll(s, t)| < |s|
    decreases i
  {
    if !MatchAt(s, t, 0) {
      MatchAtTail(s, t, i - 1);
      RemoveAllShortens(s[1..], t, i - 1);
    }
  }

  /** `s.replace(t, '')` leaves `s` unchanged exactly when `t` does not occur
      in `s`; otherwise the result is strictly shorter. */
  lemma RemoveAllUnchangedIff(s: String, t: String)
    requires t != []
    ensures RemoveAll(s, t) == s <==> !Occurs(s, t)
    ensures Occurs(s, t) ==> |RemoveAll(s, t)| < |s|
  {
    if Occurs(s, t) {
      var i: nat :| i <= |s| && MatchAt(s, t, i);
      RemoveAllShortens(s, t, i);
    } else {
      RemoveAllWithout(s, t);
    }
  }

  lemma {:induction false} JoinLength(ps: seq<String>, sep: String)
    requires |ps| > 0
    ensures |Join(ps, sep)| == |Concat(ps)| + |sep| * (|ps| - 1)
  {
    if |ps| > 1 {
      JoinLength(ps[1..], sep);
    }
  }

  /** Each occurrence the scan removes takes exactly `|t|` code points away:
      the result is `|t|` shorter per occurrence removed, and `len(s.split(t)) - 1`
      occurrences are removed. */
  lemma RemoveAllLength(s: String, t: String)
    requires t != []
    ensures |RemoveAll(s, t)| == |s| - |t| * (|Pieces(s, t)| - 1)
  {
    PiecesJoin(s, t);
    RemoveAllIsConcatOfPieces(s, t);
    JoinLength(Pieces(s, t), t);
  }

  // ---------------------------------------------------------------------------
  // Which occurrences str.replace removes
  // ---------------------------------------------------------------------------

  /** No proper suffix of `t` is also a prefix of it, so two occurrences of
      `t` in a text never overlap. */
  predicate NoSelfOverlap(t: String) {
    forall k :: 0 < k < |t| ==> t[k..] != t[..|t| - k]
  }

  /** The start indices of the separators in `sep.join(ps)`, for a separator
      of length `w`. */
  function SeparatorStarts(ps: seq<String>, w: nat): set<nat> {
    if |ps| <= 1 then {}
    else {|ps[0]|} + set x | x in SeparatorStarts(ps[1..], w) :: x + |ps[0]| + w
  }

  /** The start indices of the occurrences `s.replace(t, '')` removes. */
  function RemovedStarts(s: String, t: String): set<nat>
    requires t != []
  {
    SeparatorStarts(Pieces(s, t), |t|)
  }

  /** Two occurrences of a token that cannot overlap itself never overlap. */
  lemma OverlapImpossible(u: String, t: String, i: nat, m: nat)
    requires NoSelfOverlap(t)
    requires i < m < i + |t|
    ensures !(MatchAt(u, t, i) && MatchAt(u, t, m))
  {
    if MatchAt(u, t, i) && MatchAt(u, t, m) {
      OverlapShift(u, t, i, m);
    }
  }

  /** Two overlapping occurrences of `t` make a proper suffix of `t` equal to
      a prefix of it. */
  lemma OverlapShift(u: String, t: String, i: nat, m: nat)
    requires i < m < i + |t|
    requires MatchAt(u, t, i) && MatchAt(u, t, m)
    ensures t[m - i..] == t[..|t| - (m - i)]
  {
    var k := m - i;
    assert u[i..i + |t|][k..] == u[m..i + |t|];
    assert u[m..m + |t|][..|t| - k] == u[m..i + |t|];
  }

  /** Every separator start of `sep.join(ps)` is an occurrence of `sep`. */
  lemma {:induction false} SeparatorsMatch(ps: seq<String>, t: String, i: nat)
    requires i in SeparatorStarts(ps, |t|)
    ensures MatchAt(Join(ps, t), t, i)
    decreases |ps|
  {
    var u := Join(ps, t);
    var rest := Join(ps[1..], t);
    var m := |ps[0]|;
    assert u == ps[0] + t + rest;
    if i != m {
      var x :| x in SeparatorStarts(ps[1..], |t|) && i == x + m + |t|;
      SeparatorsMatch(ps[1..], t, x);
      assert u[i..i + |t|] == rest[x..x + |t|];
    } else {
      assert u[m..m + |t|] == t;
    }
  }

  /** An occurrence of `t` in `a + sep + b` that lies wholly in `a`, or wholly
      in `b`, is an occurrence there. */
  lemma MatchInParts(a: String, sep: String, b: String, i: nat)
    requires MatchAt(a + sep + b, sep, i)
    ensures i + |sep| <= |a| ==> MatchAt(a, sep, i)
    ensures i >= |a| + |sep| ==> MatchAt(b, sep, i - |a| - |sep|)
  {
    var u := a + sep + b;
    if i + |sep| <= |a| {
      assert u[i..i + |sep|] == a[i..i + |sep|];
    } else if i >= |a| + |sep| {
      var x := i - |a| - |sep|;
      assert u[i..i + |sep|] == b[x..x + |sep|];
    }
  }

  /** When no piece contains `t` and `t` cannot overlap itself, every
      occurrence of `t` in `t.join(ps)` is one of the separators. */
  lemma {:induction false} MatchesAreSeparators(ps: seq<String>, t: String, i: nat)
    requires t != [] && NoSelfOverlap(t)
    requires forall p :: p in ps ==> !Occurs(p, t)
    ensures MatchAt(Join(ps, t), t, i) ==> i in SeparatorStarts(ps, |t|)
    decreases |ps|
  {
    var u := Join(ps, t);
    if |ps| == 1 {
      assert ps[0] in ps && u == ps[0];
      assert !MatchAt(ps[0], t, i);
    } else if |ps| > 1 && MatchAt(u, t, i) {
      var rest := Join(ps[1..], t);
      var m := |ps[0]|;
      assert u == ps[0] + t + rest;
      assert u[m..m + |t|] == t;
      assert ps[0] in ps;
      MatchInParts(ps[0], t, rest, i);
      if i < m < i + |t| {
        OverlapImpossible(u, t, i, m);
      } else if m < i < m + |t| {
        OverlapImpossible(u, t, m, i);
      } else if i >= m + |t| {
        var x := i - m - |t|;
        forall p | p in ps[1..] ensures !Occurs(p, t) {
          assert p in ps;
        }
        MatchesAreSeparators(ps[1..], t, x);
        assert i == x + |ps[0]| + |t|;
      }
    }
  }

  /** For a token that cannot overlap itself, `s.replace(t, '')` removes every
      occurrence of `t` in `s`: the occurrences are exactly the removed ones. */
  lemma RemovesEveryOccurrence(s: String, t: String)
    requires t != [] && NoSelfOverlap(t)
    ensures forall i: nat :: MatchAt(s, t, i) <==> i in RemovedStarts(s, t)
  {
    PiecesJoin(s, t);
    PiecesTokenFree(s, t);
    forall i: nat | MatchAt(s, t, i) ensures i in RemovedStarts(s, t) {
      MatchesAreSeparators(Pieces(s, t), t, i);
    }
    forall i: nat | i in RemovedStarts(s, t) ensures MatchAt(s, t, i) {
      SeparatorsMatch(Pieces(s, t), t, i);
    }
  }

  // ---------------------------------------------------------------------------
  // str(n) for a non-negative integer
  // ---------------------------------------------------------------------------

  predicate IsDigit(c: char) {
    '0' as int <= c as int <= '9' as int
  }

  function DigitChar(d: nat): (c: char)
    requires d < 10
    ensures IsDigit(c) && c as int - '0' as int == d
  {
    ('0' as int + d) as char
  }

  /** The value of a string of decimal digits. */
  function DigitsValue(s: String): nat
    requires forall k :: 0 <= k < |s| ==> IsDigit(s[k])
  {
    if s == [] then 0
    else
      assert IsDigit(s[|s| - 1]);
      10 * DigitsValue(s[..|s| - 1]) + (s[|s| - 1] as int - '0' as int)
  }

  /** `str(n)`: the decimal digits of `n`, without leading zeros, which read
      back as `n`. */
  function Decimal(n: nat): (r: String)
    ensures |r| > 0
    ensures |r| == 1 || r[0] != '0'
    ensures forall k :: 0 <= k < |r| ==> IsDigit(r[k])
    ensures DigitsValue(r) == n
  {
    if n < 10 then [DigitChar(n)]
    else
      var p := Decimal(n / 10);
      var r := p + [DigitChar(n % 10)];
      assert r[..|r| - 1] == p && r[0] == p[0];
      r
  }

  /** Distinct numbers are written differently. */
  lemma DecimalInjective(m: nat, n: nat)
    requires Decimal(m) == Decimal(n)
    ensures m == n
  {
  }
}
