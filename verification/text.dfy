/** String helpers shared by the message pipeline: ASCII digits, the decimal
    rendering of a citation index, literal occurrences of a pattern, and the
    global literal replacement that `String.prototype.replace` performs with a
    `g` regex whose pattern has no metacharacters. */
module Text {

  predicate IsDigit(c: char) {
    '0' <= c <= '9'
  }

  function DigitChar(d: nat): (c: char)
    requires d < 10
    ensures IsDigit(c)
  {
    (48 + d) as char
  }

  /** The decimal rendering of `n` that a JavaScript template literal produces
      for a non-negative integer: digits only, no leading zero. */
  function Decimal(n: nat): (r: string)
    ensures |r| > 0 && forall i :: 0 <= i < |r| ==> IsDigit(r[i])
    ensures r[0] == '0' ==> n == 0
    ensures |r| == 1 <==> n < 10
    decreases n
  {
    if n < 10 then [DigitChar(n)] else Decimal(n / 10) + [DigitChar(n % 10)]
  }

  /** The value of one decimal digit. */
  function DigitValue(c: char): (d: nat)
    requires IsDigit(c)
    ensures d < 10 && DigitChar(d) == c
  {
    c as int - '0' as int
  }

  /** The number a string of decimal digits denotes, read left to right. */
  function DigitsValue(s: string): nat
    requires forall i :: 0 <= i < |s| ==> IsDigit(s[i])
  {
    if s == [] then 0
    else 10 * DigitsValue(s[..|s| - 1]) + DigitValue(s[|s| - 1])
  }

  /** Reading the rendering of `n` back gives `n`: the digits are the value. */
  lemma {:induction false} DecimalValue(n: nat)
    ensures DigitsValue(Decimal(n)) == n
    decreases n
  {
    if n >= 10 {
      var r := Decimal(n);
      assert r[..|r| - 1] == Decimal(n / 10);
      DecimalValue(n / 10);
    }
  }

  /** Different indices are written differently, so a `[k]` pattern never
      matches the marker of another index. */
  lemma DecimalInjective(a: nat, b: nat)
    requires Decimal(a) == Decimal(b)
    ensures a == b
  {
    DecimalValue(a);
    DecimalValue(b);
  }

  /** `pat` occurs in `s` at index `j`. */
  predicate OccursAt(s: string, pat: string, j: nat) {
    j + |pat| <= |s| && s[j..j + |pat|] == pat
  }

  predicate Contains(s: string, pat: string) {
    exists j: nat | j <= |s| :: OccursAt(s, pat, j)
  }

  /** Leftmost, non-overlapping replacement of every occurrence of `pat`;
      the text a replacement inserts is not scanned again. */
  function ReplaceAll(s: string, pat: string, rep: string): string
    requires pat != []
    decreases |s|
  {
    if OccursAt(s, pat, 0) then rep + ReplaceAll(s[|pat|..], pat, rep)
    else if s == [] then []
    else [s[0]] + ReplaceAll(s[1..], pat, rep)
  }

  /** No string in `ps` contains `pat`. */
  predicate NoneContains(ps: seq<string>, pat: string) {
    forall i :: 0 <= i < |ps| ==> !Contains(ps[i], pat)
  }

  /** An occurrence at the head is replaced and the scan resumes after it. */
  lemma ReplaceAllAtHead(pat: string, rest: string, rep: string)
    requires pat != []
    ensures ReplaceAll(pat + rest, pat, rep) == rep + ReplaceAll(rest, pat, rep)
  {
    var s := pat + rest;
    assert s[..|pat|] == pat;
    assert s[|pat|..] == rest;
  }

  /** `pieces` glued back together with `sep` between consecutive pieces. */
  function Join(pieces: seq<string>, sep: string): string
    requires |pieces| > 0
  {
    if |pieces| == 1 then pieces[0] else pieces[0] + sep + Join(pieces[1..], sep)
  }

  /** The stretches of `s` between the occurrences of `pat` that a leftmost
      scan finds (what `s.split(pat)` returns). */
  ghost function Pieces(s: string, pat: string): (pieces: seq<string>)
    requires pat != []
    ensures |pieces| > 0 && pieces[0] <= s
    decreases |s|
  {
    if OccursAt(s, pat, 0) then [[]] + Pieces(s[|pat|..], pat)
    else if s == [] then [[]]
    else
      var p := Pieces(s[1..], pat);
      assert [s[0]] + p[0] <= s by { assert s == [s[0]] + s[1..]; }
      [[s[0]] + p[0]] + p[1..]
  }

  lemma JoinCons(x: string, p: seq<string>, sep: string)
    requires |p| > 0
    ensures Join([x] + p, sep) == x + sep + Join(p, sep)
  {
    assert ([x] + p)[1..] == p;
  }

  lemma {:induction false} JoinConsHead(c: char, p: seq<string>, sep: string)
    requires |p| > 0
    ensures Join([[c] + p[0]] + p[1..], sep) == [c] + Join(p, sep)
  {
    var q := [[c] + p[0]] + p[1..];
    if |p| > 1 {
      assert q[1..] == p[1..];
    }
  }

  /** A string that starts with one character and then continues with a piece
      free of `pat` is free of `pat`, unless `pat` sits at the very start. */
  lemma NotContainsCons(s: string, c: char, t: string, pat: string)
    requires pat != [] && [c] + t <= s && !OccursAt(s, pat, 0) && !Contains(t, pat)
    ensures !Contains([c] + t, pat)
  {
    var u := [c] + t;
    if j: nat :| OccursAt(u, pat, j) {
      if j == 0 {
        assert false;
      } else {
        assert u[j..j + |pat|] == t[j - 1..j - 1 + |pat|];
        assert OccursAt(t, pat, j - 1);
        assert false;
      }
    }
  }

  lemma EmptyContainsNothing(pat: string)
    requires pat != []
    ensures !Contains([], pat)
  {
  }

  /** Replacing every occurrence: `s` is its pieces joined by `pat`, the
      result is the same pieces joined by `rep`, and no piece contains `pat`,
      so every occurrence was replaced and every other character kept in
      order. */
  lemma ReplaceAllIsSplitJoin(s: string, pat: string, rep: string)
    requires pat != []
    ensures Join(Pieces(s, pat), pat) == s
    ensures Join(Pieces(s, pat), rep) == ReplaceAll(s, pat, rep)
    ensures NoneContains(Pieces(s, pat), pat)
  {
    PiecesJoin(s, pat, rep);
    PiecesJoin(s, pat, pat);
    ReplaceAllSelf(s, pat);
    PiecesFree(s, pat);
  }

  lemma {:induction false} PiecesJoin(s: string, pat: string, rep: string)
    requires pat != []
    ensures Join(Pieces(s, pat), rep) == ReplaceAll(s, pat, rep)
    decreases |s|
  {
    if OccursAt(s, pat, 0) {
      var rest := s[|pat|..];
      var p := Pieces(rest, pat);
      assert Pieces(s, pat) == [[]] + p;
      assert ReplaceAll(s, pat, rep) == rep + ReplaceAll(rest, pat, rep);
      PiecesJoin(rest, pat, rep);
      JoinCons([], p, rep);
      assert [] + rep == rep;
    } else if s != [] {
      var p := Pieces(s[1..], pat);
      assert Pieces(s, pat) == [[s[0]] + p[0]] + p[1..];
      assert ReplaceAll(s, pat, rep) == [s[0]] + ReplaceAll(s[1..], pat, rep);
      PiecesJoin(s[1..], pat, rep);
      JoinConsHead(s[0], p, rep);
    }
  }

  /** Replacing a pattern by itself changes nothing. */
  lemma {:induction false} ReplaceAllSelf(s: string, pat: string)
    requires pat != []
    ensures ReplaceAll(s, pat, pat) == s
    decreases |s|
  {
    if OccursAt(s, pat, 0) {
      ReplaceAllSelf(s[|pat|..], pat);
      assert s == pat + s[|pat|..];
    } else if s != [] {
      ReplaceAllSelf(s[1..], pat);
      assert s == [s[0]] + s[1..];
    }
  }

  lemma {:induction false} PiecesFree(s: string, pat: string)
    requires pat != []
    ensures NoneContains(Pieces(s, pat), pat)
    decreases |s|
  {
    var ps := Pieces(s, pat);
    EmptyContainsNothing(pat);
    if OccursAt(s, pat, 0) {
      var p := Pieces(s[|pat|..], pat);
      PiecesFree(s[|pat|..], pat);
      assert ps == [[]] + p;
      forall i | 0 < i < |ps| ensures !Contains(ps[i], pat) {
        assert ps[i] == p[i - 1];
      }
    } else if s != [] {
      var p := Pieces(s[1..], pat);
      PiecesFree(s[1..], pat);
      assert ps == [[s[0]] + p[0]] + p[1..];
      NotContainsCons(s, s[0], p[0], pat);
      forall i | 0 < i < |ps| ensures !Contains(ps[i], pat) {
        assert ps[i] == p[i];
      }
    }
  }

  /** Text in which `pat` never occurs comes back unchanged. */
  lemma {:induction false} ReplaceAllAbsent(s: string, pat: string, rep: string)
    requires pat != [] && !Contains(s, pat)
    ensures ReplaceAll(s, pat, rep) == s
    decreases |s|
  {
    assert !OccursAt(s, pat, 0);
    if s != [] {
      assert !Contains(s[1..], pat) by {
        if j: nat :| OccursAt(s[1..], pat, j) {
          assert s[j + 1..j + 1 + |pat|] == s[1..][j..j + |pat|];
          assert OccursAt(s, pat, j + 1);
        }
      }
      ReplaceAllAbsent(s[1..], pat, rep);
      assert s == [s[0]] + s[1..];
    }
  }

  /** A pattern that starts with a character `s` never holds cannot occur in `s`. */
  lemma MissingFirstChar(s: string, pat: string)
    requires pat != [] && pat[0] !in s
    ensures !Contains(s, pat)
  {
    if j: nat :| OccursAt(s, pat, j) {
      assert false;
    }
  }

  /** A prefix that lacks the pattern's first character is copied through. */
  lemma {:induction false} ReplaceAllFreePrefix(a: string, b: string, pat: string, rep: string)
    requires pat != [] && pat[0] !in a
    ensures ReplaceAll(a + b, pat, rep) == a + ReplaceAll(b, pat, rep)
    decreases |a|
  {
    if a != [] {
      var s := a + b;
      assert s[0] == a[0];
      assert !OccursAt(s, pat, 0);
      assert s[1..] == a[1..] + b;
      assert pat[0] !in a[1..];
      ReplaceAllFreePrefix(a[1..], b, pat, rep);
      calc {
        ReplaceAll(s, pat, rep);
        [s[0]] + ReplaceAll(s[1..], pat, rep);
        [a[0]] + (a[1..] + ReplaceAll(b, pat, rep));
        { assert a == [a[0]] + a[1..]; }
        a + ReplaceAll(b, pat, rep);
      }
    } else {
      assert a + b == b;
    }
  }
}
