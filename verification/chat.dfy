/** The chat page: the string part of `appendMessage` and the empty-input
    guard of the chat form's submit handler. The Markdown converter is a
    parameter about which nothing is assumed. */
module Chat {
  import opened Text
  import opened References
  import opened Citations

  datatype Option<T> = None | Some(value: T)

  /** The HTML that `appendMessage` puts into the message's `innerHTML`.
      User text is inserted as it is, with no escaping. Assistant text is
      stripped of numeric references, converted, and then linkified when
      the citation list is non-empty. */
  function Render(text: string, isUser: bool, citations: seq<Citation>,
                  convert: string -> string): string
    requires DollarFreeUrls(citations)
  {
    if isUser then text
    else
      var html := convert(RemoveNumericReferences(text));
      if |citations| > 0 then Linkified(html, citations) else html
  }

  /** User text reaches the page verbatim, markup included. */
  lemma UserTextVerbatim(text: string, citations: seq<Citation>, convert: string -> string)
    requires DollarFreeUrls(citations)
    ensures Render(text, true, citations, convert) == text
  {
  }

  /** The `citations.length > 0` guard does not change the result: every
      assistant message is strip, then convert, then linkify. */
  lemma AssistantPipeline(text: string, citations: seq<Citation>, convert: string -> string)
    requires DollarFreeUrls(citations)
    ensures Render(text, false, citations, convert)
         == Linkified(convert(RemoveNumericReferences(text)), citations)
  {
  }

  /** When the converter's output holds no `[`, the citations leave no
      trace: markers in the text were stripped before linking. */
  lemma CitationsUnusedWithoutBrackets(text: string, citations: seq<Citation>, convert: string -> string)
    requires DollarFreeUrls(citations) && '[' !in convert(RemoveNumericReferences(text))
    ensures Render(text, false, citations, convert) == convert(RemoveNumericReferences(text))
  {
    NoBracketUntouched(convert(RemoveNumericReferences(text)), citations);
  }

  /** Assistant text with no `[` whose conversion adds none comes out as
      the converter's output, whatever the citations. */
  lemma PlainAssistantText(text: string, citations: seq<Citation>, convert: string -> string)
    requires DollarFreeUrls(citations) && '[' !in text && '[' !in convert(text)
    ensures Render(text, false, citations, convert) == convert(text)
  {
    NoBracketUnchanged(text);
    CitationsUnusedWithoutBrackets(text, citations, convert);
  }

  /** With a converter that returns its input, a marker between
      bracket-free text is deleted even when a citation has its index: the
      citation produces no link. */
  lemma CitedMarkerDropped(a: string, k: nat, b: string, citations: seq<Citation>)
    requires DollarFreeUrls(citations) && '[' !in a && '[' !in b
    ensures Render(a + Marker(k) + b, false, citations, (x: string) => x) == a + b
  {
    StripFreePrefix(a, Marker(k) + b);
    assert a + Marker(k) + b == a + (Marker(k) + b);
    StripLeadingMarker(Marker(k), b);
    NoBracketUnchanged(b);
    assert '[' !in a + b;
    CitationsUnusedWithoutBrackets(a + Marker(k) + b, citations, (x: string) => x);
  }

  /** The sentence "The sky is blue [1]." with a citation for index 1 and a
      converter that returns its input renders without any anchor. */
  lemma CitedSentenceExample()
    ensures Render("The sky is blue [1].", false, [Citation(1, "https://example.com")], (x: string) => x)
         == "The sky is blue ."
  {
    assert Marker(1) == "[1]";
    assert "The sky is blue [1]." == "The sky is blue " + Marker(1) + ".";
    assert DollarFreeUrls([Citation(1, "https://example.com")]);
    CitedMarkerDropped("The sky is blue ", 1, ".", [Citation(1, "https://example.com")]);
  }

  /** A marker uncovered by stripping survives to the linking step and is
      linked: `[[1]1]` becomes the anchor for index 1. */
  lemma UncoveredMarkerLinked(url: string)
    requires '$' !in url
    ensures Render("[[1]1]", false, [Citation(1, url)], (x: string) => x) == Anchor(Citation(1, url))
  {
    var c, id := Citation(1, url), (x: string) => x;
    calc {
      Render("[[1]1]", false, [c], id);
      Linkified(id(RemoveNumericReferences("[[1]1]")), [c]);
      { StripIsSinglePass(); }
      Linkified("[1]", [c]);
      { assert [c][..0] == []; }
      LinkifyOne("[1]", c);
      { assert Marker(1) == "[1]"; OwnMarkerLinked(c); }
      Anchor(c);
    }
  }

  /** The whitespace `String.prototype.trim` removes, restricted to ASCII. */
  predicate IsSpace(c: char) {
    c == ' ' || c == '\t' || c == '\n' || c == '\r' || c == '\U{000B}' || c == '\U{000C}'
  }

  predicate AllSpace(s: string) {
    forall i :: 0 <= i < |s| ==> IsSpace(s[i])
  }

  /** `r` sits at `lo` in `s` with only whitespace before and after it. */
  predicate Surrounded(s: string, lo: nat, r: string) {
    lo + |r| <= |s| && r == s[lo..lo + |r|] && AllSpace(s[..lo]) && AllSpace(s[lo + |r|..])
  }

  /** `s` without its leading whitespace. */
  function TrimStart(s: string): (r: string)
    ensures |r| <= |s| && r == s[|s| - |r|..]
    ensures forall i :: 0 <= i < |s| - |r| ==> IsSpace(s[i])
    ensures r == [] || !IsSpace(r[0])
  {
    if s != [] && IsSpace(s[0]) then TrimStart(s[1..]) else s
  }

  /** `s` without its trailing whitespace. */
  function TrimEnd(s: string): (r: string)
    ensures |r| <= |s| && r == s[..|r|]
    ensures forall i :: |r| <= i < |s| ==> IsSpace(s[i])
    ensures r == [] || !IsSpace(r[|r| - 1])
  {
    if s != [] && IsSpace(s[|s| - 1]) then TrimEnd(s[..|s| - 1]) else s
  }

  /** `messageInput.value.trim()`: the stretch of `s` between its leading and
      its trailing whitespace. */
  function Trim(s: string): (r: string)
    ensures exists lo :: Surrounded(s, lo, r)
    ensures r == [] || (!IsSpace(r[0]) && !IsSpace(r[|r| - 1]))
    ensures r == [] <==> AllSpace(s)
  {
    var t := TrimStart(s);
    var r := TrimEnd(t);
    var lo := |s| - |t|;
    assert r == s[lo..lo + |r|];
    assert AllSpace(s[..lo]) by {
      forall i | 0 <= i < lo ensures IsSpace(s[..lo][i]) {
        assert s[..lo][i] == s[i];
      }
    }
    var after := s[lo + |r|..];
    assert AllSpace(after) by {
      forall i | 0 <= i < |after| ensures IsSpace(after[i]) {
        assert after[i] == t[|r| + i];
      }
    }
    assert Surrounded(s, lo, r);
    r
  }

  /** The page: the transcript of rendered messages (the `innerHTML` of each
      message element, in order) and the chat input box. */
  class ChatView {
    var transcript: seq<string>
    var input: string
    const convert: string -> string

    constructor (convert: string -> string)
      ensures transcript == [] && input == [] && this.convert == convert
    {
      transcript := [];
      input := [];
      this.convert := convert;
    }

    /** `appendMessage`: the message is rewritten step by step and the
        result appended to the transcript. */
    method AppendMessage(message: string, isUser: bool, citations: seq<Citation>)
      requires DollarFreeUrls(citations)
      modifies this
      ensures transcript == old(transcript) + [Render(message, isUser, citations, convert)]
      ensures input == old(input)
    {
      var html := message;
      if !isUser {
        html := RemoveNumericReferences(html);
        html := convert(html);
        if |citations| > 0 {
          html := LinkifyCitations(html, citations);
        }
      }
      transcript := transcript + [html];
    }

    /** The chat form's submit handler up to the request: input that is
        empty after trimming is ignored; otherwise the trimmed text is
        shown as a user message, the box is cleared, and the text is what
        gets sent. */
    method SubmitChat() returns (request: Option<string>)
      modifies this
      ensures request == if Trim(old(input)) == [] then None else Some(Trim(old(input)))
      ensures request.None? ==> transcript == old(transcript) && input == old(input)
      ensures request.Some? ==> transcript == old(transcript) + [request.value] && input == []
    {
      var message := Trim(input);
      if message == [] {
        return None;
      }
      AppendMessage(message, true, []);
      input := [];
      request := Some(message);
    }
  }
}
