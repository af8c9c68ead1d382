/**
 * The parser against the replies a status endpoint writes: a reply built in
 * either tag dialect from a result and an optional message element parses
 * back to that result and message, and the short dialect wins when both
 * dialects appear.
 */
module ParserReplies {
  import opened Text
  import opened Status
  import opened Parser

  /** The word an endpoint writes for a recognised result. */
  function ResultWord(r: ApiResult): (w: string)
    requires r == Success || r == Fail
  {
    if r == Success then "success" else "fail"
  }

  function MessageElement(m: Option<string>): string {
    match m
    case None => ""
    case Some(body) => "<message>" + body + "</message>"
  }

  /** `<r>word</r>`: the result in the short dialect. */
  function ShortHead(word: string): string {
    "<r>" + word + "</r>"
  }

  /** `<result attrs>word</result>`: the result in the long dialect. */
  function LongHead(attrs: string, word: string): string {
    "<result" + attrs + ">" + word + "</result>"
  }

  /** A short-dialect result followed by the optional message element. */
  function ShortReply(word: string, m: Option<string>): string {
    ShortHead(word) + MessageElement(m)
  }

  /** A long-dialect result followed by the optional message element. */
  function LongReply(attrs: string, word: string, m: Option<string>): string {
    LongHead(attrs, word) + MessageElement(m)
  }

  /** The message the parser reports for an optional message element. */
  function ExpectedMessage(m: Option<string>): string {
    match m
    case None => DefaultMessage
    case Some(body) => body
  }

  /** A message body that survives the parser unchanged: no tag in it, short
      enough for the buffer, and no trailing whitespace to strip. */
  ghost predicate PlainMessage(body: string) {
    '<' !in body && |body| <= MessageMax && (body == [] || !IsSpace(body[|body| - 1]))
  }

  // ---------------------------------------------------------------------
  // Occurrence helpers

  lemma NotAtIfDiffers(s: string, pat: string, i: nat, j: nat)
    requires j < |pat| && i + j < |s| && s[i + j] != pat[j]
    ensures !IsAt(s, pat, i)
  {
    if i + |pat| <= |s| {
      assert s[i..i + |pat|][j] == s[i + j];
    }
  }

  lemma AtOfPrefix(s: string, pat: string, i: nat)
    requires i + |pat| <= |s| && s[i..i + |pat|] == pat
    ensures IsAt(s, pat, i)
  {
  }

  lemma LowerOfLowerCase(w: string)
    requires forall i :: 0 <= i < |w| ==> 'a' <= w[i] <= 'z'
    ensures Lower(w) == w
  {
  }

  /** The parser's normalization leaves a short lower-case word as it is. */
  lemma {:induction false} NormalizedWord(w: string)
    requires 0 < |w| <= ResultValueMax && forall i :: 0 <= i < |w| ==> 'a' <= w[i] <= 'z'
    ensures NormalizedValue(w) == w
  {
    assert Truncate(w, ResultValueMax) == w;
    assert !IsSpace(w[0]) && !IsSpace(w[|w| - 1]);
    TrimOfPadded([], w, []);
    assert [] + w + [] == w;
    LowerOfLowerCase(w);
  }

  /** The result words parse back to their results. */
  lemma ResultOfWord(res: ApiResult)
    requires res == Success || res == Fail
    ensures ResultOf(ResultWord(res)) == res
  {
    NormalizedWord(ResultWord(res));
  }

  /** No `<` of `head` is followed by `m`, so `<message>` cannot start in it. */
  ghost predicate NoMessageTagStart(head: string) {
    forall i :: 0 <= i < |head| && head[i] == '<' ==> i + 1 < |head| && head[i + 1] != 'm'
  }

  lemma NoMessageTagInHead(s: string, head: string)
    requires |head| <= |s| && s[..|head|] == head && NoMessageTagStart(head)
    ensures forall i: nat :: i < |head| ==> !IsAt(s, "<message>", i)
  {
    forall i: nat | i < |head| ensures !IsAt(s, "<message>", i) {
      assert s[i] == head[i];
      if head[i] == '<' {
        assert s[i + 1] == head[i + 1];
        NotAtIfDiffers(s, "<message>", i, 1);
      } else {
        NotAtIfDiffers(s, "<message>", i, 0);
      }
    }
  }

  /** Where the tags of a message element after `head` lie. */
  lemma ElementTags(s: string, head: string, body: string)
    requires s == head + "<message>" + body + "</message>" && '<' !in body
    ensures IsAt(s, "<message>", |head|)
    ensures IsAt(s, "</message>", |head| + 9 + |body|)
    ensures forall i: nat :: |head| <= i < |head| + 9 + |body| ==> !IsAt(s, "</message>", i)
    ensures s[|head| + 9..|head| + 9 + |body|] == body
  {
    var open := |head|;
    var close := open + 9 + |body|;
    assert s[open..open + 9] == "<message>";
    assert s[close..close + 10] == "</message>";
    forall i: nat | open <= i < close ensures !IsAt(s, "</message>", i) {
      if i == open {
        NotAtIfDiffers(s, "</message>", i, 1);
      } else if i < open + 9 {
        assert s[i] == "<message>"[i - open];
        NotAtIfDiffers(s, "</message>", i, 0);
      } else {
        assert s[i] == body[i - open - 9];
        NotAtIfDiffers(s, "</message>", i, 0);
      }
    }
  }

  /** A plain message element after a prefix in which no `<` is followed by
      `m` is what the parser reports as the message. */
  lemma MessageOfElement(head: string, m: Option<string>)
    requires NoMessageTagStart(head)
    requires m.Some? ==> PlainMessage(m.value)
    ensures MessageOf(head + MessageElement(m)) == ExpectedMessage(m)
  {
    match m
    case None =>
      assert head + MessageElement(m) == head;
      MessageOfNoElement(head);
    case Some(body) =>
      assert head + MessageElement(m) == head + "<message>" + body + "</message>";
      MessageOfPlainElement(head, body);
  }

  lemma MessageOfNoElement(head: string)
    requires NoMessageTagStart(head)
    ensures MessageOf(head) == DefaultMessage
  {
    assert head[..|head|] == head;
    NoMessageTagInHead(head, head);
    FindFromStart(head, "<message>");
  }

  lemma MessageOfPlainElement(head: string, body: string)
    requires NoMessageTagStart(head) && PlainMessage(body)
    ensures MessageOf(head + "<message>" + body + "</message>") == body
  {
    var s := head + "<message>" + body + "</message>";
    assert s[..|head|] == head;
    NoMessageTagInHead(s, head);
    ElementTags(s, head, body);
    MessagePresent(s, |head|, |head| + 9 + |body|);
    if !AllSpace(body) {
      TrimRightUnique(body, |body|);
    }
  }

  /** A concatenation in which no `<` of either part is followed by `m`. */
  lemma NoMessageTagStartAppend(a: string, b: string)
    requires NoMessageTagStart(a) && NoMessageTagStart(b)
    ensures NoMessageTagStart(a + b)
  {
    var s := a + b;
    forall i | 0 <= i < |s| && s[i] == '<' ensures i + 1 < |s| && s[i + 1] != 'm' {
      if i < |a| {
        assert s[i] == a[i] && s[i + 1] == a[i + 1];
      } else {
        assert s[i] == b[i - |a|] && s[i + 1] == b[i + 1 - |a|];
      }
    }
  }

  lemma ShortHeadHasNoMessageTag(w: string)
    requires '<' !in w
    ensures NoMessageTagStart(ShortHead(w))
  {
    var head := ShortHead(w);
    forall i | 0 <= i < |head| && head[i] == '<' ensures i + 1 < |head| && head[i + 1] != 'm' {
      assert i == 0 || i == 3 + |w|;
    }
  }

  lemma LongHeadHasNoMessageTag(attrs: string, w: string)
    requires '<' !in attrs && '<' !in w
    ensures NoMessageTagStart(LongHead(attrs, w))
  {
    var head := LongHead(attrs, w);
    forall i | 0 <= i < |head| && head[i] == '<' ensures i + 1 < |head| && head[i + 1] != 'm' {
      assert i == 0 || i == 8 + |attrs| + |w|;
    }
  }

  /** No `<r>` starts inside a plain message element. */
  lemma NoShortTagInElement(s: string, head: string, m: Option<string>, i: nat)
    requires s == head + MessageElement(m) && |head| <= i && i + 3 <= |s|
    requires m.Some? ==> PlainMessage(m.value)
    ensures !IsAt(s, "<r>", i)
  {
    var body := m.value;
    var k := i - |head|;
    var el := MessageElement(m);
    assert el == "<message>" + body + "</message>";
    assert s[i] == el[k] && s[i + 1] == el[k + 1];
    if el[k] == '<' {
      assert k == 0 || k == 9 + |body|;
      NotAtIfDiffers(s, "<r>", i, 1);
    } else {
      NotAtIfDiffers(s, "<r>", i, 0);
    }
  }

  /** No `<r>` starts inside a long-dialect head at the front of `s`. */
  lemma NoShortTagInLongHead(s: string, attrs: string, w: string)
    requires '<' !in attrs && '<' !in w
    requires |LongHead(attrs, w)| <= |s| && s[..|LongHead(attrs, w)|] == LongHead(attrs, w)
    ensures forall i: nat :: i < |LongHead(attrs, w)| ==> !IsAt(s, "<r>", i)
  {
    var head := LongHead(attrs, w);
    var e := 8 + |attrs| + |w|;
    forall i: nat | i < |head| ensures !IsAt(s, "<r>", i) {
      assert s[i] == head[i];
      if i == 0 {
        assert s[2] == head[2];
        NotAtIfDiffers(s, "<r>", i, 2);
      } else if i == e {
        assert s[i + 1] == head[i + 1];
        NotAtIfDiffers(s, "<r>", i, 1);
      } else {
        assert head[i] != '<';
        NotAtIfDiffers(s, "<r>", i, 0);
      }
    }
  }

  // ---------------------------------------------------------------------
  // Where the result tags lie

  /** A slice of the window `s[o..o + n]` is a slice of `s`. */
  lemma SliceOfWindow(s: string, o: nat, n: nat, a: nat, b: nat)
    requires o + n <= |s| && a <= b <= n
    ensures s[o + a..o + b] == s[o..o + n][a..b]
  {
    var x := s[o + a..o + b];
    var y := s[o..o + n][a..b];
    forall k | 0 <= k < |x| ensures x[k] == y[k] {
      assert y[k] == s[o + a + k];
    }
  }

  /** The tags of a short-dialect head that starts at `o` in `s`. */
  lemma ShortHeadTags(s: string, o: nat, w: string)
    requires '<' !in w
    requires o + |ShortHead(w)| <= |s| && s[o..o + |ShortHead(w)|] == ShortHead(w)
    ensures IsAt(s, "<r>", o)
    ensures IsAt(s, "</r>", o + 3 + |w|)
    ensures forall i: nat :: o <= i < o + 3 + |w| ==> !IsAt(s, "</r>", i)
    ensures s[o + 3..o + 3 + |w|] == w
  {
    var head := ShortHead(w);
    var n := |head|;
    assert head[0..3] == "<r>" && head[3..3 + |w|] == w && head[3 + |w|..n] == "</r>";
    SliceOfWindow(s, o, n, 0, 3);
    SliceOfWindow(s, o, n, 3, 3 + |w|);
    SliceOfWindow(s, o, n, 3 + |w|, n);
    assert n == |w| + 7;
    assert IsAt(s, "<r>", o);
    assert IsAt(s, "</r>", o + 3 + |w|);
    ShortHeadNoClose(s, o, w);
  }

  /** No `</r>` starts inside a short-dialect head before its own. */
  lemma ShortHeadNoClose(s: string, o: nat, w: string)
    requires '<' !in w
    requires o + |ShortHead(w)| <= |s| && s[o..o + |ShortHead(w)|] == ShortHead(w)
    ensures forall i: nat :: o <= i < o + 3 + |w| ==> !IsAt(s, "</r>", i)
  {
    var head := ShortHead(w);
    forall i: nat | o <= i < o + 3 + |w| ensures !IsAt(s, "</r>", i) {
      assert s[i] == head[i - o];
      if i == o {
        assert s[i + 1] == head[1];
        NotAtIfDiffers(s, "</r>", i, 1);
      } else if i < o + 3 {
        NotAtIfDiffers(s, "</r>", i, 0);
      } else {
        assert head[i - o] == w[i - o - 3];
        NotAtIfDiffers(s, "</r>", i, 0);
      }
    }
  }

  /** A short-dialect head at `o`, with no `<r>` before it, gives the result. */
  lemma ShortHeadParses(s: string, o: nat, w: string)
    requires '<' !in w
    requires o + |ShortHead(w)| <= |s| && s[o..o + |ShortHead(w)|] == ShortHead(w)
    requires forall i: nat :: i < o ==> !IsAt(s, "<r>", i)
    ensures ParseXmlResponse(s) == ApiResponse(ResultOf(w), MessageOf(s))
  {
    var e := o + 3 + |w|;
    ShortHeadTags(s, o, w);
    assert FirstAt(s, "<r>", o);
    ParseShortTag(s, o, e);
    assert s[o + 3..e] == w;
  }

  /** The tags of a long-dialect head at the front of `s`. */
  lemma LongHeadTags(s: string, attrs: string, w: string)
    requires '<' !in attrs && '>' !in attrs && '<' !in w
    requires |LongHead(attrs, w)| <= |s| && s[..|LongHead(attrs, w)|] == LongHead(attrs, w)
    ensures FirstAt(s, "<result", 0)
    ensures IsAt(s, "</result>", 8 + |attrs| + |w|)
    ensures forall i: nat :: i < 8 + |attrs| + |w| ==> !IsAt(s, "</result>", i)
    ensures IsAt(s, ">", 7 + |attrs|) && forall i: nat :: i < 7 + |attrs| ==> !IsAt(s, ">", i)
    ensures s[8 + |attrs|..8 + |attrs| + |w|] == w
  {
    var head := LongHead(attrs, w);
    var b := 7 + |attrs|;
    var e := b + 1 + |w|;
    assert s[0..7] == head[..7] == "<result";
    assert s[b..b + 1] == head[b..b + 1] == ">";
    assert s[e..e + 9] == head[e..] == "</result>";
    assert s[b + 1..e] == head[b + 1..e] == w;
    forall i: nat | i < e ensures !IsAt(s, "</result>", i) {
      assert s[i] == head[i];
      if i == 0 {
        assert s[1] == head[1];
        NotAtIfDiffers(s, "</result>", i, 1);
      } else {
        assert head[i] != '<';
        NotAtIfDiffers(s, "</result>", i, 0);
      }
    }
    forall i: nat | i < b ensures !IsAt(s, ">", i) {
      assert s[i] == head[i] != '>';
      NotAtIfDiffers(s, ">", i, 0);
    }
  }

  /** A long-dialect head at the front of a text without `<r>` gives the result. */
  lemma LongHeadParses(s: string, attrs: string, w: string)
    requires '<' !in attrs && '>' !in attrs && '<' !in w
    requires |LongHead(attrs, w)| <= |s| && s[..|LongHead(attrs, w)|] == LongHead(attrs, w)
    requires !Contains(s, "<r>")
    ensures ParseXmlResponse(s) == ApiResponse(ResultOf(w), MessageOf(s))
  {
    var bracket, end := 7 + |attrs|, 8 + |attrs| + |w|;
    LongHeadTags(s, attrs, w);
    ParseLongTag(s, 0, bracket, end);
    assert s[bracket + 1..end] == w;
  }

  // ---------------------------------------------------------------------
  // Round trips

  /** `<r>success</r>` or `<r>fail</r>` with an optional plain message
      element parses back to that result and message; without the element
      the message is `"Invalid XML"`. */
  lemma ShortReplyRoundTrip(res: ApiResult, m: Option<string>)
    requires res == Success || res == Fail
    requires m.Some? ==> PlainMessage(m.value)
    ensures ParseXmlResponse(ShortReply(ResultWord(res), m)) == ApiResponse(res, ExpectedMessage(m))
  {
    var w := ResultWord(res);
    var s := ShortReply(w, m);
    assert s[0..|ShortHead(w)|] == ShortHead(w);
    ShortHeadParses(s, 0, w);
    ResultOfWord(res);
    ShortHeadHasNoMessageTag(w);
    MessageOfElement(ShortHead(w), m);
  }

  /** `<result attrs>success</result>` or `<result attrs>fail</result>`,
      with attribute text free of `<` and `>`, and an optional plain message
      element parses back to that result and message. */
  lemma LongReplyRoundTrip(res: ApiResult, attrs: string, m: Option<string>)
    requires res == Success || res == Fail
    requires '<' !in attrs && '>' !in attrs
    requires m.Some? ==> PlainMessage(m.value)
    ensures ParseXmlResponse(LongReply(attrs, ResultWord(res), m)) == ApiResponse(res, ExpectedMessage(m))
  {
    var w := ResultWord(res);
    var head := LongHead(attrs, w);
    var s := LongReply(attrs, w, m);
    assert s[..|head|] == head;
    assert !Contains(s, "<r>") by {
      NoShortTagInLongHead(s, attrs, w);
      forall i: nat | |head| <= i && i + 3 <= |s| ensures !IsAt(s, "<r>", i) {
        NoShortTagInElement(s, head, m, i);
      }
    }
    LongHeadParses(s, attrs, w);
    ResultOfWord(res);
    LongHeadHasNoMessageTag(attrs, w);
    MessageOfElement(head, m);
  }

  /** The short dialect is preferred wherever it occurs: a reply that puts a
      long-dialect result before a short-dialect one is read by the short
      one, whatever the long one says. */
  lemma ShortTagPreferred(other: ApiResult, attrs: string, res: ApiResult, m: Option<string>)
    requires other == Success || other == Fail
    requires res == Success || res == Fail
    requires '<' !in attrs
    requires m.Some? ==> PlainMessage(m.value)
    ensures ParseXmlResponse(LongHead(attrs, ResultWord(other)) + ShortReply(ResultWord(res), m))
         == ApiResponse(res, ExpectedMessage(m))
  {
    var pre := LongHead(attrs, ResultWord(other));
    var w := ResultWord(res);
    var s := pre + ShortReply(w, m);
    assert s == pre + ShortHead(w) + MessageElement(m);
    PreferredResult(s, pre, attrs, ResultWord(other), w, MessageElement(m));
    ResultOfWord(res);
    LongHeadHasNoMessageTag(attrs, ResultWord(other));
    PreferredMessage(pre, w, m);
  }

  /** The message element after both heads is still found. */
  lemma PreferredMessage(pre: string, w: string, m: Option<string>)
    requires NoMessageTagStart(pre) && '<' !in w
    requires m.Some? ==> PlainMessage(m.value)
    ensures MessageOf(pre + ShortReply(w, m)) == ExpectedMessage(m)
  {
    ShortHeadHasNoMessageTag(w);
    NoMessageTagStartAppend(pre, ShortHead(w));
    assert pre + ShortReply(w, m) == (pre + ShortHead(w)) + MessageElement(m);
    MessageOfElement(pre + ShortHead(w), m);
  }

  lemma PreferredResult(s: string, pre: string, attrs: string, other: string, w: string, tail: string)
    requires '<' !in attrs && '<' !in other && '<' !in w
    requires pre == LongHead(attrs, other) && s == pre + ShortHead(w) + tail
    ensures ParseXmlResponse(s) == ApiResponse(ResultOf(w), MessageOf(s))
  {
    assert s[..|pre|] == pre;
    NoShortTagInLongHead(s, attrs, other);
    assert s[|pre|..|pre| + |ShortHead(w)|] == ShortHead(w);
    ShortHeadParses(s, |pre|, w);
  }
}
