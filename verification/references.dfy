/** `removeNumericReferences`: one global pass of the regular expression
    `/\[\d+\]/g`, each match replaced by the empty string. */
module References {
  import opened Text

  /** A numeric reference marker: `[`, one or more ASCII digits, `]`. */
  predicate IsMarker(m: string) {
    |m| >= 3 && m[0] == '[' && m[|m| - 1] == ']' &&
    forall i :: 0 < i < |m| - 1 ==> IsDigit(m[i])
  }

  /** Some stretch of `s` is a marker. */
  predicate HasMarker(s: string) {
    exists i, k | 0 <= i <= k <= |s| :: IsMarker(s[i..k])
  }

  /** Number of leading ASCII digits of `s`. */
  function DigitRun(s: string): (n: nat)
    ensures n <= |s|
    ensures forall i :: 0 <= i < n ==> IsDigit(s[i])
    ensures n < |s| ==> !IsDigit(s[n])
  {
    if s != [] && IsDigit(s[0]) then 1 + DigitRun(s[1..]) else 0
  }

  /** Length of the regex match that starts at the head of `s`, 0 if none.
      `\d+` is greedy, and giving digits back cannot help since `]` is not a
      digit, so the match is `[`, the whole digit run, `]`. A marker prefix of
      `s` exists exactly when the result is positive, and it is unique. */
  function MatchLength(s: string): (n: nat)
    ensures n <= |s|
    ensures forall k :: 0 <= k <= |s| ==> (IsMarker(s[..k]) <==> 0 < n == k)
  {
    if |s| >= 3 && s[0] == '[' then
      var d := DigitRun(s[1..]);
      if d > 0 && d + 1 < |s| && s[d + 1] == ']' then
        var m := s[..d + 2];
        assert IsMarker(m) by {
          forall i | 0 < i < d + 1 ensures IsDigit(m[i]) {
            assert m[i] == s[1..][i - 1];
          }
        }
        MarkerPrefixDigits(s, d);
        d + 2
      else
        MarkerPrefixDigits(s, d);
        0
    else 0
  }

  /** A marker prefix `s[..k]` must close right after the digit run `d`. */
  lemma MarkerPrefixDigits(s: string, d: nat)
    requires |s| >= 1 && d == DigitRun(s[1..])
    ensures forall k :: 0 <= k <= |s| && IsMarker(s[..k]) ==> k == d + 2
  {
    forall k | 0 <= k <= |s| && IsMarker(s[..k]) ensures k == d + 2 {
      var m := s[..k];
      forall i | 0 <= i < k - 2 ensures IsDigit(s[1..][i]) {
        assert s[1..][i] == m[i + 1];
      }
    }
  }

  /** The JavaScript `text.replace(/\[\d+\]/g, '')`: scan left to right;
      where a match starts it is dropped and scanning resumes after it,
      otherwise the character is kept and scanning moves on by one. */
  function RemoveNumericReferences(s: string): (r: string)
    ensures |r| <= |s|
    decreases |s|
  {
    if s == [] then []
    else
      var n := MatchLength(s);
      if n > 0 then RemoveNumericReferences(s[n..])
      else [s[0]] + RemoveNumericReferences(s[1..])
  }

  /** `a` can be obtained from `b` by deleting characters. */
  ghost predicate IsSubsequence(a: string, b: string)
    decreases |b|
  {
    a == [] || (b != [] && ((a[0] == b[0] && IsSubsequence(a[1..], b[1..])) || IsSubsequence(a, b[1..])))
  }

  lemma {:induction false} SubsequenceOfLonger(a: string, u: string, b: string)
    requires IsSubsequence(a, b)
    ensures IsSubsequence(a, u + b)
    decreases |u|
  {
    if u != [] {
      SubsequenceOfLonger(a, u[1..], b);
      assert (u + b)[1..] == u[1..] + b;
      assert IsSubsequence(a, (u + b)[1..]);
    } else {
      assert u + b == b;
    }
  }

  /** The stripped text is the input with characters deleted, in original
      order, and never longer. */
  lemma {:induction false} StrippedIsSubsequence(s: string)
    ensures IsSubsequence(RemoveNumericReferences(s), s)
    decreases |s|
  {
    var r := RemoveNumericReferences(s);
    if s != [] {
      var n := MatchLength(s);
      if n > 0 {
        StrippedIsSubsequence(s[n..]);
        SubsequenceOfLonger(r, s[..n], s[n..]);
        assert s[..n] + s[n..] == s;
      } else {
        StrippedIsSubsequence(s[1..]);
        assert r[0] == s[0] && r[1..] == RemoveNumericReferences(s[1..]);
      }
    }
  }

  /** The characters a marker can be made of. */
  predicate IsMarkerChar(c: char) {
    c == '[' || c == ']' || IsDigit(c)
  }

  /** `s` with every `[`, `]` and digit deleted. */
  function Plain(s: string): (r: string)
    ensures forall i :: 0 <= i < |r| ==> !IsMarkerChar(r[i])
  {
    if s == [] then []
    else (if IsMarkerChar(s[0]) then [] else [s[0]]) + Plain(s[1..])
  }

  lemma {:induction false} PlainConcat(a: string, b: string)
    ensures Plain(a + b) == Plain(a) + Plain(b)
    decreases |a|
  {
    if a != [] {
      assert (a + b)[1..] == a[1..] + b;
      PlainConcat(a[1..], b);
    } else {
      assert a + b == b;
    }
  }

  lemma {:induction false} PlainOfMarkerChars(s: string)
    requires forall i :: 0 <= i < |s| ==> IsMarkerChar(s[i])
    ensures Plain(s) == []
    decreases |s|
  {
    if s != [] {
      PlainOfMarkerChars(s[1..]);
    }
  }

  /** Every character other than a bracket or a digit survives stripping, in
      its original order: only marker text is ever removed. */
  lemma {:induction false} StripKeepsPlainText(s: string)
    ensures Plain(RemoveNumericReferences(s)) == Plain(s)
    decreases |s|
  {
    if s != [] {
      var n := MatchLength(s);
      if n > 0 {
        StripKeepsPlainText(s[n..]);
        PlainDropsMarker(s, n);
      } else {
        StripKeepsPlainText(s[1..]);
        PlainConcat([s[0]], RemoveNumericReferences(s[1..]));
        PlainConcat([s[0]], s[1..]);
        assert [s[0]] + s[1..] == s;
      }
    }
  }

  lemma PlainDropsMarker(s: string, n: nat)
    requires n <= |s| && IsMarker(s[..n])
    ensures Plain(s) == Plain(s[n..])
  {
    PlainOfMarkerChars(s[..n]);
    PlainConcat(s[..n], s[n..]);
    assert s[..n] + s[n..] == s;
  }

  /** A marker anywhere in `s` makes stripping remove something. */
  lemma {:induction false} MarkerShortens(s: string)
    requires HasMarker(s)
    ensures |RemoveNumericReferences(s)| < |s|
    decreases |s|
  {
    var i, k :| 0 <= i <= k <= |s| && IsMarker(s[i..k]);
    var n := MatchLength(s);
    if n == 0 {
      if i == 0 {
        assert false;
      }
      assert s[1..][i - 1..k - 1] == s[i..k];
      MarkerShortens(s[1..]);
    }
  }

  /** Text without a marker passes through stripping unchanged. */
  lemma {:induction false} NoMarkerUnchanged(s: string)
    requires !HasMarker(s)
    ensures RemoveNumericReferences(s) == s
    decreases |s|
  {
    if s != [] {
      MarkerAtHead(s);
      MarkerInTail(s);
      NoMarkerUnchanged(s[1..]);
      assert [s[0]] + s[1..] == s;
    }
  }

  lemma MarkerAtHead(s: string)
    ensures MatchLength(s) > 0 ==> HasMarker(s)
  {
    var n := MatchLength(s);
    if n > 0 {
      assert s[0..n] == s[..n];
    }
  }

  lemma MarkerInTail(s: string)
    requires s != []
    ensures HasMarker(s[1..]) ==> HasMarker(s)
  {
    if HasMarker(s[1..]) {
      var t := s[1..];
      var i, k :| 0 <= i <= k <= |t| && IsMarker(t[i..k]);
      var u := s[i + 1..k + 1];
      assert |u| == k - i;
      forall x | 0 <= x < |u| ensures u[x] == t[i..k][x] {
        assert u[x] == s[i + 1 + x] == t[i + x];
      }
      assert u == t[i..k];
      assert IsMarker(u);
    }
  }

  /** Stripping changes the text exactly when the text holds a marker. */
  lemma StripUnchangedIff(s: string)
    ensures RemoveNumericReferences(s) == s <==> !HasMarker(s)
  {
    if HasMarker(s) {
      MarkerShortens(s);
    } else {
      NoMarkerUnchanged(s);
    }
  }

  /** Text with no `[` at all is returned unchanged. */
  lemma NoBracketUnchanged(s: string)
    requires '[' !in s
    ensures RemoveNumericReferences(s) == s
  {
    assert !HasMarker(s);
    NoMarkerUnchanged(s);
  }

  /** A prefix with no `[` is copied through, and stripping goes on after it. */
  lemma {:induction false} StripFreePrefix(a: string, b: string)
    requires '[' !in a
    ensures RemoveNumericReferences(a + b) == a + RemoveNumericReferences(b)
    decreases |a|
  {
    if a == [] {
      assert a + b == b;
    } else {
      var s := a + b;
      assert s[0] == a[0] != '[';
      assert s[1..] == a[1..] + b;
      calc {
        RemoveNumericReferences(s);
        { assert MatchLength(s) == 0; }
        [a[0]] + RemoveNumericReferences(a[1..] + b);
        { StripFreePrefix(a[1..], b); }
        [a[0]] + (a[1..] + RemoveNumericReferences(b));
        { assert a == [a[0]] + a[1..]; }
        a + RemoveNumericReferences(b);
      }
    }
  }

  /** A marker at the head of the text is dropped and the scan resumes
      right after it. */
  lemma StripLeadingMarker(m: string, b: string)
    requires IsMarker(m)
    ensures RemoveNumericReferences(m + b) == RemoveNumericReferences(b)
  {
    var s := m + b;
    assert s[..|m|] == m;
    assert MatchLength(s) == |m|;
    assert s[|m|..] == b;
  }

  /** Where no marker starts at the head, the head character is kept,
      whatever it is (a `[`, a `]` or a digit included), and the scan moves on
      by one: `[x[1]` strips to `[x`. */
  lemma StripUnmatchedHead(s: string)
    requires s != [] && forall k :: 0 <= k <= |s| ==> !IsMarker(s[..k])
    ensures RemoveNumericReferences(s) == [s[0]] + RemoveNumericReferences(s[1..])
  {
    assert !IsMarker(s[..MatchLength(s)]);
  }

  /** A non-digit at position `i` after the opening `[` keeps every prefix
      that reaches past it from being a marker. */
  lemma NoMarkerAtHead(s: string, i: nat)
    requires 0 < i < |s| && !IsDigit(s[i]) && s[i] != ']'
    requires forall j :: 0 < j < i ==> s[j] != ']'
    ensures forall k :: 0 <= k <= |s| ==> !IsMarker(s[..k])
  {
    forall k | 0 <= k <= |s| ensures !IsMarker(s[..k]) {
      if k > i + 1 {
        assert s[..k][i] == s[i];
      } else if k >= 3 {
        assert s[..k][k - 1] == s[k - 1];
      }
    }
  }

  /** A `[` that opens no marker is kept even when a marker follows it:
      `[x[1]` strips to `[x`. */
  lemma StripKeepsOpenBracket()
    ensures RemoveNumericReferences("[x[1]") == "[x"
  {
    var s := "[x[1]";
    NoMarkerAtHead(s, 1);
    calc {
      RemoveNumericReferences(s);
      { StripUnmatchedHead(s); }
      "[" + RemoveNumericReferences(s[1..]);
      { assert s[1..] == "x" + "[1]"; StripFreePrefix("x", "[1]"); }
      "[x" + RemoveNumericReferences("[1]");
      { StripLeadingMarker("[1]", ""); assert "[1]" + "" == "[1]"; }
      "[x" + RemoveNumericReferences("");
    }
  }

  /** A marker removed from inside brackets leaves them behind as a new
      marker: `[1[2]]` strips to `[1]`. */
  lemma StripUncoversMarker()
    ensures RemoveNumericReferences("[1[2]]") == "[1]"
  {
    var t := "[1[2]]";
    NoMarkerAtHead(t, 2);
    calc {
      RemoveNumericReferences(t);
      { StripUnmatchedHead(t); }
      "[" + RemoveNumericReferences(t[1..]);
      { assert t[1..] == "1" + "[2]]"; StripFreePrefix("1", "[2]]"); }
      "[1" + RemoveNumericReferences("[2]]");
      { assert "[2]]" == "[2]" + "]"; StripLeadingMarker("[2]", "]"); }
      "[1" + RemoveNumericReferences("]");
      { NoBracketUnchanged("]"); }
      "[1]";
    }
  }

  /** One pass is not idempotent: `[[1]1]` strips to `[1]`, itself a marker,
      which a second pass removes. */
  lemma StripIsSinglePass()
    ensures RemoveNumericReferences("[[1]1]") == "[1]"
    ensures IsMarker(RemoveNumericReferences("[[1]1]"))
    ensures RemoveNumericReferences(RemoveNumericReferences("[[1]1]")) == ""
  {
    var s := "[[1]1]";
    assert MatchLength(s) == 0 by {
      assert DigitRun(s[1..]) == 0;
    }
    assert s[1..] == "[1]" + "1]";
    StripLeadingMarker("[1]", "1]");
    NoBracketUnchanged("1]");
    StripLeadingMarker("[1]", "");
    assert "[1]" + "" == "[1]";
    assert RemoveNumericReferences("") == "";
  }
}
