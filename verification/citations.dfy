/** `linkifyCitations`: for each citation in list order, every literal
    `[index]` in the current text becomes an anchor to the citation's URL. */
module Citations {
  import opened Text

  /** A citation as the backend supplies it: a non-negative integer index and
      a URL. */
  datatype Citation = Citation(index: nat, url: string)

  /** The literal text `[k]` that the regex built for index `k` matches. */
  function Marker(k: nat): (m: string)
    ensures |m| >= 3 && m[0] == '[' && m[|m| - 1] == ']'
    ensures forall i :: 0 < i < |m| - 1 ==> IsDigit(m[i])
  {
    "[" + Decimal(k) + "]"
  }

  /** The opening tag of the anchor for `url`. */
  function AnchorOpen(url: string): string {
    "<a href=\"" + url + "\" target=\"_blank\">"
  }

  /** The anchor a citation's marker is replaced with. */
  function Anchor(c: Citation): string {
    AnchorOpen(c.url) + Marker(c.index) + "</a>"
  }

  /** The anchor is handed to `String.prototype.replace` as a replacement
      string, where `$` starts a substitution pattern; URLs are taken to be
      free of it. */
  predicate DollarFreeUrls(citations: seq<Citation>) {
    forall i :: 0 <= i < |citations| ==> '$' !in citations[i].url
  }

  /** One step of the loop: replace every `[index]` with the anchor. */
  function LinkifyOne(text: string, c: Citation): string
    requires '$' !in c.url
  {
    ReplaceAll(text, Marker(c.index), Anchor(c))
  }

  /** The text after the citations have been applied one after another, in
      list order, each to the previous result. */
  function Linkified(text: string, citations: seq<Citation>): string
    requires DollarFreeUrls(citations)
    decreases |citations|
  {
    if citations == [] then text
    else
      var n := |citations| - 1;
      LinkifyOne(Linkified(text, citations[..n]), citations[n])
  }

  /** The `forEach` loop over `citations`, reassigning the text each time. */
  method LinkifyCitations(text: string, citations: seq<Citation>) returns (r: string)
    requires DollarFreeUrls(citations)
    ensures r == Linkified(text, citations)
  {
    r := text;
    for i := 0 to |citations|
      invariant r == Linkified(text, citations[..i])
    {
      assert citations[..i + 1][..i] == citations[..i];
      r := LinkifyOne(r, citations[i]);
    }
    assert citations[..|citations|] == citations;
  }

  /** What one citation does: the text is a list of pieces free of `[k]`
      glued together by `[k]`, and the result is the same pieces glued
      together by the anchor. Every occurrence is replaced, nothing else
      changes. */
  lemma LinkifyOneReplacesEveryMarker(text: string, c: Citation)
    requires '$' !in c.url
    ensures var pieces := Pieces(text, Marker(c.index));
      && Join(pieces, Marker(c.index)) == text
      && Join(pieces, Anchor(c)) == LinkifyOne(text, c)
      && NoneContains(pieces, Marker(c.index))
  {
    ReplaceAllIsSplitJoin(text, Marker(c.index), Anchor(c));
  }

  /** `[` followed by digits and `]` holds the marker of `k` exactly when the
      digits are the decimal rendering of `k`: `[10]` and `[01]` do not hold
      `[1]`. */
  lemma BracketedDigitsMatch(d: string, k: nat)
    requires forall i :: 0 <= i < |d| ==> IsDigit(d[i])
    ensures Contains("[" + d + "]", Marker(k)) <==> d == Decimal(k)
  {
    var s := "[" + d + "]";
    var m := Marker(k);
    if Contains(s, m) {
      var j: nat :| j <= |s| && OccursAt(s, m, j);
      assert s[j] == m[0];
      assert j == 0;
      assert s[|m| - 1] == m[|m| - 1];
      assert |m| == |s|;
      assert s == m;
      assert d == s[1..|s| - 1] == m[1..|m| - 1] == Decimal(k);
    }
    if d == Decimal(k) {
      assert OccursAt(s, m, 0);
    }
  }

  /** A citation leaves the marker of a different index alone. */
  lemma OtherMarkerUntouched(j: nat, c: Citation)
    requires '$' !in c.url && j != c.index
    ensures LinkifyOne(Marker(j), c) == Marker(j)
  {
    BracketedDigitsMatch(Decimal(j), c.index);
    if Decimal(j) == Decimal(c.index) {
      DecimalInjective(j, c.index);
    }
    ReplaceAllAbsent(Marker(j), Marker(c.index), Anchor(c));
  }

  /** With index 1, `[10]` and `[01]` stay as they are. */
  lemma NoPartialMatch(url: string)
    requires '$' !in url
    ensures LinkifyOne("[10]", Citation(1, url)) == "[10]"
    ensures LinkifyOne("[01]", Citation(1, url)) == "[01]"
  {
    assert Decimal(1) == "1";
    BracketedDigitsMatch("10", 1);
    BracketedDigitsMatch("01", 1);
    ReplaceAllAbsent("[10]", Marker(1), Anchor(Citation(1, url)));
    ReplaceAllAbsent("[01]", Marker(1), Anchor(Citation(1, url)));
  }

  /** Text with no `[` is left unchanged by any list of citations. */
  lemma {:induction false} NoBracketUntouched(text: string, citations: seq<Citation>)
    requires DollarFreeUrls(citations) && '[' !in text
    ensures Linkified(text, citations) == text
    decreases |citations|
  {
    if citations != [] {
      var n := |citations| - 1;
      NoBracketUntouched(text, citations[..n]);
      MissingFirstChar(text, Marker(citations[n].index));
      ReplaceAllAbsent(text, Marker(citations[n].index), Anchor(citations[n]));
    }
  }

  /** Applying two lists in a row is applying their concatenation: the
      second list works on everything the first produced. */
  lemma {:induction false} LinkifiedConcat(text: string, a: seq<Citation>, b: seq<Citation>)
    requires DollarFreeUrls(a) && DollarFreeUrls(b)
    ensures DollarFreeUrls(a + b)
    ensures Linkified(text, a + b) == Linkified(Linkified(text, a), b)
    decreases |b|
  {
    if b == [] {
      assert a + b == a;
    } else {
      var n := |b| - 1;
      LinkifiedConcat(text, a, b[..n]);
      assert (a + b)[..|a + b| - 1] == a + b[..n];
      assert (a + b)[|a + b| - 1] == b[n];
    }
  }

  /** The head citation acts first, on the original text. */
  lemma LinkifiedHeadFirst(text: string, c: Citation, rest: seq<Citation>)
    requires '$' !in c.url && DollarFreeUrls(rest)
    ensures DollarFreeUrls([c] + rest)
    ensures Linkified(text, [c] + rest) == Linkified(LinkifyOne(text, c), rest)
  {
    LinkifiedConcat(text, [c], rest);
    assert [c][..0] == [];
  }

  /** Two citations: the second works on the first one's result. */
  lemma LinkifiedPair(text: string, c1: Citation, c2: Citation)
    requires '$' !in c1.url && '$' !in c2.url
    ensures DollarFreeUrls([c1, c2])
    ensures Linkified(text, [c1, c2]) == LinkifyOne(LinkifyOne(text, c1), c2)
  {
    var cs := [c1, c2];
    assert DollarFreeUrls(cs) by {
      forall i | 0 <= i < 2 ensures '$' !in cs[i].url {
      }
    }
    assert [c1][..0] == [];
    assert Linkified(text, [c1]) == LinkifyOne(text, c1);
    assert cs[..1] == [c1];
  }

  /** A bare marker becomes exactly the citation's anchor. */
  lemma OwnMarkerLinked(c: Citation)
    requires '$' !in c.url
    ensures LinkifyOne(Marker(c.index), c) == Anchor(c)
  {
    var m := Marker(c.index);
    ReplaceAllAtHead(m, [], Anchor(c));
    assert m + [] == m;
    assert ReplaceAll([], m, Anchor(c)) == [];
  }

  /** Two citations sharing an index nest their anchors: the second rewrites
      the marker inside the first anchor, so the first URL stays outermost
      and the later citation does not replace it. */
  lemma SharedIndexNests(k: nat, u: string, v: string)
    requires '$' !in u && '$' !in v && '[' !in u
    ensures Linkified(Marker(k), [Citation(k, u), Citation(k, v)])
         == AnchorOpen(u) + AnchorOpen(v) + Marker(k) + "</a></a>"
    ensures Linkified(Marker(k), [Citation(k, u), Citation(k, v)]) != Anchor(Citation(k, v))
  {
    var c1, c2 := Citation(k, u), Citation(k, v);
    var m, a2 := Marker(k), Anchor(Citation(k, v));
    var open := AnchorOpen(u);
    calc {
      Linkified(m, [c1, c2]);
      { LinkifiedPair(m, c1, c2); }
      LinkifyOne(LinkifyOne(m, c1), c2);
      { OwnMarkerLinked(c1); }
      ReplaceAll(Anchor(c1), m, a2);
      { assert Anchor(c1) == open + (m + "</a>"); }
      ReplaceAll(open + (m + "</a>"), m, a2);
      { assert '[' !in open; ReplaceAllFreePrefix(open, m + "</a>", m, a2); }
      open + ReplaceAll(m + "</a>", m, a2);
      { ReplaceAllAtHead(m, "</a>", a2); }
      open + (a2 + ReplaceAll("</a>", m, a2));
      { MissingFirstChar("</a>", m); ReplaceAllAbsent("</a>", m, a2); }
      open + (a2 + "</a>");
    }
  }

  /** A marker followed by bracket-free text holds the marker of another
      index nowhere. */
  lemma OtherMarkerAbsent(j: nat, k: nat, t: string)
    requires j != k && '[' !in t && ']' !in t
    ensures !Contains(Marker(j) + t, Marker(k))
  {
    var s, mj, mk := Marker(j) + t, Marker(j), Marker(k);
    if i: nat :| i <= |s| && OccursAt(s, mk, i) {
      assert s[i] == mk[0];
      assert i == 0;
      assert s[|mk| - 1] == mk[|mk| - 1];
      assert |mk| == |mj|;
      assert mk == s[..|mj|] == mj;
      assert Decimal(j) == mj[1..|mj| - 1] == mk[1..|mk| - 1] == Decimal(k);
      DecimalInjective(j, k);
      assert false;
    }
  }

  /** A later citation also rewrites a marker that appears inside an
      earlier citation's URL. */
  lemma LaterCitationRewritesUrl(j: nat, p: string, k: nat, q: string, v: string)
    requires j != k && '$' !in p + q && '$' !in v && '[' !in p && '[' !in q
    ensures Linkified(Marker(j), [Citation(j, p + Marker(k) + q), Citation(k, v)])
         == AnchorOpen(p + Anchor(Citation(k, v)) + q) + Marker(j) + "</a>"
  {
    var mj, mk := Marker(j), Marker(k);
    assert '$' !in p + mk + q;
    var c1, c2 := Citation(j, p + mk + q), Citation(k, v);
    calc {
      Linkified(mj, [c1, c2]);
      { LinkifiedPair(mj, c1, c2); }
      LinkifyOne(LinkifyOne(mj, c1), c2);
      { OwnMarkerLinked(c1); }
      ReplaceAll(Anchor(c1), mk, Anchor(c2));
      { RewriteMarkerInUrl(j, p, k, q, v); }
      AnchorOpen(p + Anchor(c2) + q) + mj + "</a>";
    }
  }

  lemma AnchorAround(p: string, x: string, q: string, rest: string)
    ensures ("<a href=\"" + p) + (x + ((q + "\" target=\"_blank\">") + rest))
         == AnchorOpen(p + x + q) + rest
  {
  }

  lemma RewriteMarkerInUrl(j: nat, p: string, k: nat, q: string, v: string)
    requires j != k && '$' !in p + q && '$' !in v && '[' !in p && '[' !in q
    ensures var mk := Marker(k);
      ReplaceAll(Anchor(Citation(j, p + mk + q)), mk, Anchor(Citation(k, v)))
      == AnchorOpen(p + Anchor(Citation(k, v)) + q) + Marker(j) + "</a>"
  {
    var mj, mk := Marker(j), Marker(k);
    var c1, a2 := Citation(j, p + mk + q), Anchor(Citation(k, v));
    var pre := "<a href=\"" + p;
    var mid := q + "\" target=\"_blank\">";
    var close := mj + "</a>";
    calc {
      ReplaceAll(Anchor(c1), mk, a2);
      { assert Anchor(c1) == pre + (mk + (mid + close)); }
      ReplaceAll(pre + (mk + (mid + close)), mk, a2);
      { assert '[' !in pre; ReplaceAllFreePrefix(pre, mk + (mid + close), mk, a2); }
      pre + ReplaceAll(mk + (mid + close), mk, a2);
      { ReplaceAllAtHead(mk, mid + close, a2); }
      pre + (a2 + ReplaceAll(mid + close, mk, a2));
      { assert '[' !in mid; ReplaceAllFreePrefix(mid, close, mk, a2); }
      pre + (a2 + (mid + ReplaceAll(close, mk, a2)));
      { OtherMarkerAbsent(j, k, "</a>"); ReplaceAllAbsent(close, mk, a2); }
      pre + (a2 + (mid + close));
      { AnchorAround(p, a2, q, close); }
      AnchorOpen(p + a2 + q) + close;
    }
  }
}
