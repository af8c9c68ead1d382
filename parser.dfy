/**
 * The response parser: raw body text to a result and a message.
 *
 * Two tag dialects carry the result: the short `<r>...</r>` pair, tried
 * first and anywhere in the text, and the long `<result ...>...</result>`
 * element, whose opening tag may carry attributes up to its first `>`.
 * An optional `<message>...</message>` element supplies the message.
 * Every failure yields `Invalid` with its own diagnostic; the parser never
 * yields `Error`.
 */
module Parser {
  import opened Text
  import opened Status

  datatype ApiResponse = ApiResponse(result: ApiResult, message: string)

  /** The result text is copied into a 32-byte buffer. */
  const ResultValueMax: nat := 31

  /** The message before any message element is found. */
  const DefaultMessage := "Invalid XML"

  /** The result text as compared: cut to 31 characters, trimmed at both
      ends, lower-cased. */
  function NormalizedValue(raw: string): string {
    Lower(Trim(Truncate(raw, ResultValueMax)))
  }

  /** The result a result text reads as; the parser never reports Error,
      and a blank text (within its first 31 characters) is Invalid. */
  function ResultOf(raw: string): (r: ApiResult)
    ensures r != Error
    ensures AllSpace(Truncate(raw, ResultValueMax)) ==> r == Invalid
  {
    TrimEmptyIffAllSpace(Truncate(raw, ResultValueMax));
    var v := NormalizedValue(raw);
    if v == "success" then Success
    else if v == "fail" then Fail
    else Invalid
  }

  /** The message's whitespace handling: trailing whitespace is removed, but
      never past the first non-blank character, and leading whitespace stays.
      A message that is all whitespace is therefore kept as it is. */
  function TrimMessage(s: string): (r: string)
    ensures |r| <= |s| && r == s[..|r|]
    ensures AllSpace(s) ==> r == s
    ensures !AllSpace(s) ==> r == TrimRight(s)
  {
    var lead := |s| - |TrimLeft(s)|;
    TrimMessageShape(s, lead);
    s[..lead] + TrimRight(s[lead..])
  }

  lemma TrimMessageShape(s: string, lead: nat)
    requires lead == |s| - |TrimLeft(s)|
    ensures AllSpace(s) ==> s[..lead] + TrimRight(s[lead..]) == s
    ensures !AllSpace(s) ==> s[..lead] + TrimRight(s[lead..]) == TrimRight(s)
  {
    TrimEmptyIffAllSpace(s);
    var l := TrimLeft(s);
    if AllSpace(s) {
      assert lead == |s| && s[..lead] == s;
      assert TrimRight(s[lead..]) == [];
    } else {
      assert s[lead] == l[0];
      TrimRightAfterLead(s, lead);
    }
  }

  /** Right-trimming from the first non-blank on and putting the leading
      whitespace back is right-trimming the whole text. */
  lemma {:induction false} TrimRightAfterLead(s: string, lead: nat)
    requires lead < |s| && !IsSpace(s[lead])
    ensures s[..lead] + TrimRight(s[lead..]) == TrimRight(s)
  {
    var l := s[lead..];
    var r := TrimRight(l);
    TrimRightKeepsFirst(l);
    LeadAndWord(s, lead, l, r);
    TrimRightUnique(s, lead + |r|);
  }

  /** Right-trimming a text that starts with a non-blank leaves something. */
  lemma TrimRightKeepsFirst(l: string)
    requires l != [] && !IsSpace(l[0])
    ensures TrimRight(l) != []
  {
  }

  lemma LeadAndWord(s: string, lead: nat, l: string, r: string)
    requires lead <= |s| && l == s[lead..] && |r| <= |l| && r == l[..|r|]
    requires r != [] && !IsSpace(r[|r| - 1])
    requires forall i :: |r| <= i < |l| ==> IsSpace(l[i])
    ensures s[..lead] + r == s[..lead + |r|]
    ensures !IsSpace(s[lead + |r| - 1])
    ensures forall i :: lead + |r| <= i < |s| ==> IsSpace(s[i])
  {
    var k := lead + |r|;
    assert r == s[lead..k];
    assert s[k - 1] == r[|r| - 1];
    forall i | k <= i < |s| ensures IsSpace(s[i]) {
      assert s[i] == l[i - lead];
    }
  }

  /** A closing tag that starts like its opening tag but differs in its second
      character, where the opening tag has no other `<`, cannot begin inside
      the opening tag: the search for it from the opening tag lands after it. */
  lemma CloseTagAfterOpen(s: string, open: string, close: string, t: nat, e: nat)
    requires IsAt(s, open, t) && IsAt(s, close, e) && t <= e
    requires |open| >= 2 && |close| >= 2 && open[0] == close[0] && open[1] != close[1]
    requires close[0] !in open[1..]
    ensures t + |open| <= e
  {
  }

  /** The message: the body of the first `<message>` element, cut to 255
      characters and passed through `TrimMessage`; `"Invalid XML"` when there
      is no complete message element. */
  function MessageOf(xml: string): (m: string)
    ensures |m| <= MessageMax
  {
    match FindFrom(xml, "<message>", 0)
    case None => DefaultMessage
    case Some(open) =>
      match FindFrom(xml, "</message>", open)
      case None => DefaultMessage
      case Some(close) =>
        CloseTagAfterOpen(xml, "<message>", "</message>", open, close);
        TrimMessage(Truncate(xml[open + 9..close], MessageMax))
  }

  /** Result value between `start` and `end`, message from the whole text. */
  function Extract(xml: string, start: nat, end: nat): ApiResponse
    requires start <= end <= |xml|
  {
    ApiResponse(ResultOf(xml[start..end]), MessageOf(xml))
  }

  function ParseXmlResponse(xml: string): (r: ApiResponse)
    ensures r.result != Error
    ensures |r.message| <= MessageMax
  {
    if |xml| == 0 then ApiResponse(Invalid, "Empty response")
    else match FindFrom(xml, "<r>", 0)
      case Some(tag) =>
        (match FindFrom(xml, "</r>", tag)
         case None => ApiResponse(Invalid, "Unclosed <r> tag")
         case Some(end) =>
           CloseTagAfterOpen(xml, "<r>", "</r>", tag, end);
           Extract(xml, tag + 3, end))
      case None =>
        match FindFrom(xml, "<result", 0)
        case None => ApiResponse(Invalid, "No result tag")
        case Some(tag) =>
          match FindFrom(xml, "</result>", tag)
          case None => ApiResponse(Invalid, "Unclosed <result> tag")
          case Some(end) =>
            match FindFrom(xml, ">", tag)
            case None => ApiResponse(Invalid, "Malformed <result> tag")
            case Some(bracket) =>
              if bracket >= end then ApiResponse(Invalid, "Malformed <result> tag")
              else Extract(xml, bracket + 1, end)
  }

  // ---------------------------------------------------------------------
  // Failure paths

  /** `pat` first occurs at `k`. */
  ghost predicate FirstAt(s: string, pat: string, k: nat) {
    IsAt(s, pat, k) && forall i: nat :: i < k ==> !IsAt(s, pat, i)
  }

  /** No occurrence of `pat` starts at or after `from`. */
  ghost predicate NoneFrom(s: string, pat: string, from: nat) {
    forall i: nat :: from <= i ==> !IsAt(s, pat, i)
  }

  lemma ParseEmpty()
    ensures ParseXmlResponse("") == ApiResponse(Invalid, "Empty response")
  {
  }

  lemma ParseNoResultTag(xml: string)
    requires xml != [] && !Contains(xml, "<r>") && !Contains(xml, "<result")
    ensures ParseXmlResponse(xml) == ApiResponse(Invalid, "No result tag")
  {
    FindFromStart(xml, "<r>");
    FindFromStart(xml, "<result");
  }

  lemma ParseUnclosedShortTag(xml: string, tag: nat)
    requires FirstAt(xml, "<r>", tag) && NoneFrom(xml, "</r>", tag)
    ensures ParseXmlResponse(xml) == ApiResponse(Invalid, "Unclosed <r> tag")
  {
    FindFirstAt(xml, "<r>", 0, tag);
  }

  lemma ParseUnclosedLongTag(xml: string, tag: nat)
    requires !Contains(xml, "<r>")
    requires FirstAt(xml, "<result", tag) && NoneFrom(xml, "</result>", tag)
    ensures ParseXmlResponse(xml) == ApiResponse(Invalid, "Unclosed <result> tag")
  {
    FindFromStart(xml, "<r>");
    FindFirstAt(xml, "<result", 0, tag);
  }

  /** The long tag is malformed when no `>` follows `<result` before the
      first `</result>` after it. */
  lemma ParseMalformedLongTag(xml: string, tag: nat, end: nat)
    requires !Contains(xml, "<r>")
    requires FirstAt(xml, "<result", tag)
    requires tag <= end && IsAt(xml, "</result>", end) && forall i: nat :: tag <= i < end ==> !IsAt(xml, "</result>", i)
    requires forall i: nat :: tag <= i < end ==> xml[i] != '>'
    ensures ParseXmlResponse(xml) == ApiResponse(Invalid, "Malformed <result> tag")
  {
    FindFromStart(xml, "<r>");
    FindFirstAt(xml, "<result", 0, tag);
    FindFirstAt(xml, "</result>", tag, end);
    var b := FindFrom(xml, ">", tag);
    if b.Some? {
      assert xml[b.value] == xml[b.value..b.value + 1][0] == '>';
      assert b.value >= end;
    }
  }

  /** Every failure path yields `Invalid`, and the only way to a result other
      than `Invalid` is a complete tag pair whose normalized text is
      `success` or `fail`. */
  lemma ParseRecognisedNeedsTag(xml: string)
    requires ParseXmlResponse(xml).result != Invalid
    ensures Contains(xml, "<r>") ==> Contains(xml, "</r>")
    ensures !Contains(xml, "<r>") ==> Contains(xml, "<result") && Contains(xml, "</result>")
    ensures Contains(xml, "<r>") ==>
      var s := FindFrom(xml, "<r>", 0);
      s.Some? && FindFrom(xml, "</r>", s.value).Some? &&
      s.value + 3 <= FindFrom(xml, "</r>", s.value).value
    ensures !Contains(xml, "<r>") ==>
      var t := FindFrom(xml, "<result", 0);
      t.Some? && FindFrom(xml, "</result>", t.value).Some? && FindFrom(xml, ">", t.value).Some? &&
      t.value < FindFrom(xml, ">", t.value).value < FindFrom(xml, "</result>", t.value).value
  {
    FindFromStart(xml, "<r>");
    if Contains(xml, "<r>") {
      ShortPathClosed(xml);
    } else {
      LongPathClosed(xml);
    }
  }

  /** A recognised result on the short path had its `</r>` after the `<r>`. */
  lemma ShortPathClosed(xml: string)
    requires ParseXmlResponse(xml).result != Invalid && FindFrom(xml, "<r>", 0).Some?
    ensures var s := FindFrom(xml, "<r>", 0).value;
      FindFrom(xml, "</r>", s).Some? && s + 3 <= FindFrom(xml, "</r>", s).value
  {
    ShortPathOpen(xml);
    var s := FindFrom(xml, "<r>", 0).value;
    CloseTagAfterOpen(xml, "<r>", "</r>", s, FindFrom(xml, "</r>", s).value);
  }

  /** A `<r>` with no `</r>` after it ends the parse in Invalid. */
  lemma ShortPathOpen(xml: string)
    requires FindFrom(xml, "<r>", 0).Some?
    ensures FindFrom(xml, "</r>", FindFrom(xml, "<r>", 0).value).None? ==> ParseXmlResponse(xml).result == Invalid
  {
  }

  /** A recognised result on the long path had a `>` and then a `</result>`
      after the `<result`. */
  lemma LongPathClosed(xml: string)
    requires ParseXmlResponse(xml).result != Invalid && FindFrom(xml, "<r>", 0).None?
    ensures var t := FindFrom(xml, "<result", 0);
      t.Some? && FindFrom(xml, "</result>", t.value).Some? && FindFrom(xml, ">", t.value).Some? &&
      t.value < FindFrom(xml, ">", t.value).value < FindFrom(xml, "</result>", t.value).value
  {
    LongPathOpen(xml);
    var t := FindFrom(xml, "<result", 0).value;
    OpenIsNotBracket(xml, t, FindFrom(xml, ">", t).value);
  }

  /** `<result` and `>` cannot start at the same index. */
  lemma OpenIsNotBracket(xml: string, t: nat, b: nat)
    requires IsAt(xml, "<result", t) && IsAt(xml, ">", b)
    ensures t != b
  {
    assert xml[t] == xml[t..t + 7][0] == '<';
    assert xml[b] == xml[b..b + 1][0] == '>';
  }

  /** Without `<r>`, a missing `<result`, `</result>` or `>`, or a `>` only
      at or after the `</result>`, ends the parse in Invalid. */
  lemma LongPathOpen(xml: string)
    requires FindFrom(xml, "<r>", 0).None?
    ensures var t := FindFrom(xml, "<result", 0);
      (t.None? || FindFrom(xml, "</result>", t.value).None? || FindFrom(xml, ">", t.value).None? ||
       FindFrom(xml, ">", t.value).value >= FindFrom(xml, "</result>", t.value).value) ==>
      ParseXmlResponse(xml).result == Invalid
  {
    var t := FindFrom(xml, "<result", 0);
    if t.Some? {
      var e := FindFrom(xml, "</result>", t.value);
      var b := FindFrom(xml, ">", t.value);
    }
  }

  /** On the short-tag path the result text is what lies between the first
      `<r>` and the first `</r>` after it. */
  lemma ParseShortTag(xml: string, tag: nat, end: nat)
    requires FirstAt(xml, "<r>", tag)
    requires tag <= end && IsAt(xml, "</r>", end) && forall i: nat :: tag <= i < end ==> !IsAt(xml, "</r>", i)
    ensures tag + 3 <= end
    ensures ParseXmlResponse(xml) == ApiResponse(ResultOf(xml[tag + 3..end]), MessageOf(xml))
  {
    CloseTagAfterOpen(xml, "<r>", "</r>", tag, end);
    FindFirstAt(xml, "<r>", 0, tag);
    FindFirstAt(xml, "</r>", tag, end);
  }

  /** On the long-tag path the result text is what lies between the first `>`
      after `<result` and the first `</result>` after `<result`. */
  lemma ParseLongTag(xml: string, tag: nat, bracket: nat, end: nat)
    requires !Contains(xml, "<r>")
    requires FirstAt(xml, "<result", tag)
    requires tag <= end && IsAt(xml, "</result>", end) && forall i: nat :: tag <= i < end ==> !IsAt(xml, "</result>", i)
    requires tag <= bracket < end && IsAt(xml, ">", bracket) && forall i: nat :: tag <= i < bracket ==> !IsAt(xml, ">", i)
    ensures ParseXmlResponse(xml) == ApiResponse(ResultOf(xml[bracket + 1..end]), MessageOf(xml))
  {
    FindFromStart(xml, "<r>");
    FindFirstAt(xml, "<result", 0, tag);
    FindFirstAt(xml, "</result>", tag, end);
    FindFirstAt(xml, ">", tag, bracket);
  }

  // ---------------------------------------------------------------------
  // Result value

  /** `v` is a case variant of `word` padded with whitespace on both sides. */
  ghost predicate PaddedWord(v: string, word: string) {
    exists i: nat, j: nat :: i <= j <= |v| && AllSpace(v[..i]) && AllSpace(v[j..]) && Lower(v[i..j]) == word
  }

  lemma LowerOfWordNotSpace(c: char, w: char)
    requires LowerChar(c) == w && 'a' <= w <= 'z'
    ensures !IsSpace(c)
  {
  }

  /** A case variant of a lower-case word, whose first and last letters are
      therefore not blank, is what trimming its padding gives. */
  lemma {:induction false} PaddedWordTrims(v: string, word: string, i: nat, j: nat)
    requires |word| > 0 && 'a' <= word[0] <= 'z' && 'a' <= word[|word| - 1] <= 'z'
    requires i <= j <= |v| && AllSpace(v[..i]) && AllSpace(v[j..]) && Lower(v[i..j]) == word
    ensures Lower(Trim(v)) == word
  {
    var w := v[i..j];
    assert Lower(w)[0] == LowerChar(w[0]);
    assert Lower(w)[|w| - 1] == LowerChar(w[|w| - 1]);
    LowerOfWordNotSpace(w[0], word[0]);
    LowerOfWordNotSpace(w[|w| - 1], word[|word| - 1]);
    assert v == v[..i] + w + v[j..];
    TrimOfPadded(v[..i], w, v[j..]);
  }

  /** `Success` exactly when the first 31 characters of the result text are
      a whitespace-padded, case-insensitive `success`; `Fail` likewise for
      `fail`; `Invalid` otherwise (including an empty value). */
  lemma {:induction false} ResultOfCharacterized(raw: string)
    ensures ResultOf(raw) == Success <==> PaddedWord(Truncate(raw, ResultValueMax), "success")
    ensures ResultOf(raw) == Fail <==> PaddedWord(Truncate(raw, ResultValueMax), "fail")
    ensures ResultOf(raw) == Invalid <==>
      !PaddedWord(Truncate(raw, ResultValueMax), "success") && !PaddedWord(Truncate(raw, ResultValueMax), "fail")
  {
    var v := Truncate(raw, ResultValueMax);
    var i, j := TrimSplits(v);
    assert NormalizedValue(raw) == Lower(v[i..j]);
    forall word | word == "success" || word == "fail"
      ensures PaddedWord(v, word) <==> NormalizedValue(raw) == word
    {
      if PaddedWord(v, word) {
        var i': nat, j': nat :| i' <= j' <= |v| && AllSpace(v[..i']) && AllSpace(v[j'..]) && Lower(v[i'..j']) == word;
        PaddedWordTrims(v, word, i', j');
      }
    }
  }

  // ---------------------------------------------------------------------
  // Message

  /** Without a complete message element the message stays `"Invalid XML"`,
      also when the result is recognised. */
  lemma MessageAbsent(xml: string)
    requires !Contains(xml, "<message>") || NoneFrom(xml, "</message>", FindFrom(xml, "<message>", 0).value)
    ensures MessageOf(xml) == DefaultMessage
  {
    FindFromStart(xml, "<message>");
  }

  /** With a message element, the message is its body cut to 255 characters,
      with trailing whitespace removed when the body has a non-blank. */
  lemma MessagePresent(xml: string, open: nat, close: nat)
    requires FirstAt(xml, "<message>", open)
    requires open <= close && IsAt(xml, "</message>", close)
    requires forall i: nat :: open <= i < close ==> !IsAt(xml, "</message>", i)
    ensures open + 9 <= close
    ensures var body := Truncate(xml[open + 9..close], MessageMax);
      MessageOf(xml) == (if AllSpace(body) then body else TrimRight(body))
  {
    CloseTagAfterOpen(xml, "<message>", "</message>", open, close);
    FindFirstAt(xml, "<message>", 0, open);
    FindFirstAt(xml, "</message>", open, close);
  }
}
