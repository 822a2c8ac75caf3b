/**
 The `/sms` webhook handler `sms_reply` of app.py: it normalises the inbound
 message body and answers with exactly one of three fixed texts. The Flask
 request, the TwiML response object and its serialisation are not modelled;
 the handler is a function from the optional `Body` form field to the text of
 the one message it sends back.
 */
module App {
  import opened Text

  datatype Option<T> = None | Some(value: T)

  /** The three branches of the handler, in the order they are tried. */
  datatype Cmd = Next | Issue | Unrecognized

  const NEXT_REPLY := "Your next load: 4200 diesel / 3600 gas. Drop at Stroud."
  const ISSUE_REPLY := "Issue logged. Dispatch will review."
  const FALLBACK_REPLY := "Command not recognized. Reply NEXT or ISSUE."

  /** `request.form.get("Body") or ""`: an absent field is read as the empty
      text (a present empty text is the empty text anyway). */
  function BodyOrEmpty(body: Option<string>): string {
    match body
    case None => ""
    case Some(text) => text
  }

  /** `text.strip().upper()`: no whitespace at either end, no lower-case
      ASCII letter anywhere, never longer than the input. */
  function Normalize(text: string): (b: string)
    ensures Unpadded(b)
    ensures forall k :: 0 <= k < |b| ==> !('a' <= b[k] <= 'z')
    ensures |b| <= |text|
  {
    var stripped := Strip(text);
    ToUpperKeepsSpacing(stripped);
    ToUpper(stripped)
  }

  /** The if/elif/else of the handler: NEXT is an exact match on the
      normalised body, ISSUE a prefix match, anything else falls through.
      The first two conditions never hold together, so each branch is taken
      exactly when its own condition holds. */
  function Classify(text: string): (c: Cmd)
    ensures c == Next <==> Normalize(text) == "NEXT"
    ensures c == Issue <==> StartsWith(Normalize(text), "ISSUE")
    ensures c == Unrecognized <==>
              Normalize(text) != "NEXT" && !StartsWith(Normalize(text), "ISSUE")
  {
    var b := Normalize(text);
    NextIsNotIssue(b);
    if b == "NEXT" then Next
    else if StartsWith(b, "ISSUE") then Issue
    else Unrecognized
  }

  /** The text of the one message each branch sends. */
  function Reply(c: Cmd): string {
    match c
    case Next => NEXT_REPLY
    case Issue => ISSUE_REPLY
    case Unrecognized => FALLBACK_REPLY
  }

  /** The whole handler, from the optional `Body` field to the reply text:
      exactly one of the three texts, chosen by the normalised body. */
  function SmsReply(body: Option<string>): (reply: string)
    ensures reply in {NEXT_REPLY, ISSUE_REPLY, FALLBACK_REPLY}
    ensures reply == NEXT_REPLY <==> Normalize(BodyOrEmpty(body)) == "NEXT"
    ensures reply == ISSUE_REPLY <==> StartsWith(Normalize(BodyOrEmpty(body)), "ISSUE")
    ensures reply == FALLBACK_REPLY <==>
              Normalize(BodyOrEmpty(body)) != "NEXT"
              && !StartsWith(Normalize(BodyOrEmpty(body)), "ISSUE")
  {
    var c := Classify(BodyOrEmpty(body));
    ReplyInjective(c, Next);
    ReplyInjective(c, Issue);
    ReplyInjective(c, Unrecognized);
    Reply(c)
  }

  /** No text is both exactly "NEXT" and starts with "ISSUE". */
  lemma NextIsNotIssue(b: string)
    ensures !(b == "NEXT" && StartsWith(b, "ISSUE"))
  {
    if b == "NEXT" {
      assert |b| < |"ISSUE"|;
    }
  }

  /** Different branches send different texts, so the reply tells which
      branch was taken. */
  lemma ReplyInjective(c: Cmd, d: Cmd)
    ensures Reply(c) == Reply(d) <==> c == d
  {
    assert |NEXT_REPLY| == 55 && |ISSUE_REPLY| == 35 && |FALLBACK_REPLY| == 44;
  }

  /** A missing `Body` field and an empty one both get the fallback reply. */
  lemma MissingBodyFallsBack()
    ensures SmsReply(None) == FALLBACK_REPLY
    ensures SmsReply(Some("")) == FALLBACK_REPLY
  {
    StripAllSpace("");
  }

  /** Normalising twice is normalising once. */
  lemma NormalizeIdempotent(text: string)
    ensures Normalize(Normalize(text)) == Normalize(text)
  {
    var b := Normalize(text);
    StripUnpadded(b);
    ToUpperIdempotent(Strip(text));
  }

  /** The branch depends only on the normalised body. */
  lemma ClassifyNormalized(text: string)
    ensures Classify(Normalize(text)) == Classify(text)
    ensures Reply(Classify(Normalize(text))) == Reply(Classify(text))
  {
    NormalizeIdempotent(text);
  }

  /** Letter case does not matter: two bodies that agree once upper-cased
      have the same normal form ... */
  lemma NormalizeCaseInsensitive(a: string, b: string)
    requires ToUpper(a) == ToUpper(b)
    ensures Normalize(a) == Normalize(b)
  {
    StripToUpperCommute(a);
    StripToUpperCommute(b);
  }

  /** ... and so take the same branch. */
  lemma CaseInsensitive(a: string, b: string)
    requires ToUpper(a) == ToUpper(b)
    ensures Classify(a) == Classify(b)
  {
    NormalizeCaseInsensitive(a, b);
  }

  /** Whitespace before or after the body does not matter. */
  lemma PaddingIgnored(pre: string, text: string, post: string)
    requires AllSpace(pre) && AllSpace(post)
    ensures Classify(pre + text + post) == Classify(text)
  {
    StripIgnoresPadding(pre, text, post);
  }

  /** A body that is all whitespace, the empty body included, falls back. */
  lemma BlankFallsBack(text: string)
    requires AllSpace(text)
    ensures Classify(text) == Unrecognized
  {
    StripAllSpace(text);
  }

  /** Text with no whitespace at either end normalises to its upper case. */
  lemma NormalizeUnpadded(b: string)
    requires Unpadded(b)
    ensures Normalize(b) == ToUpper(b)
  {
    StripUnpadded(b);
  }

  /** If `pre + core + post == word + rest` with whitespace-only `pre` and
      `post`, a leading word without whitespace lies wholly in `core`. */
  lemma CoreKeepsWord(pre: string, core: string, post: string,
                                         word: string, rest: string)
    requires AllSpace(pre) && AllSpace(post)
    requires pre + core + post == word + rest
    requires word != [] && NoSpace(word)
    ensures StartsWith(core, word)
  {
    var s := word + rest;
    assert !IsSpace(s[0]) && !IsSpace(s[|word| - 1]);
    assert |pre| == 0;
    assert |word| <= |core|;
    assert forall k :: 0 <= k < |word| ==> core[k] == s[k];
  }

  /** Removing whitespace at the ends keeps a leading word that has no
      whitespace in it. */
  lemma StripKeepsLeadingWord(word: string, rest: string)
    requires word != [] && NoSpace(word)
    ensures StartsWith(Strip(word + rest), word)
  {
    var pre, post := StripSplit(word + rest);
    CoreKeepsWord(pre, Strip(word + rest), post, word, rest);
  }

  /** Any body whose first word is "issue" in any letter case, after any
      leading whitespace, gets the ISSUE branch whatever follows. */
  lemma IssuePrefix(pre: string, word: string, rest: string)
    requires AllSpace(pre)
    requires ToUpper(word) == "ISSUE"
    ensures Classify(pre + word + rest) == Issue
  {
    assert NoSpace("ISSUE");
    ToUpperKeepsSpacing(word);
    assert pre + word + rest == pre + (word + rest) + [];
    StripIgnoresPadding(pre, word + rest, []);
    StripKeepsLeadingWord(word, rest);
    ToUpperKeepsPrefix(Strip(word + rest), word);
  }

  // Bodies the handler is written for, and bodies it is not, end to end.

  lemma NextUpper()
    ensures SmsReply(Some("NEXT")) == NEXT_REPLY
  {
    NormalizeUnpadded("NEXT");
  }

  lemma NextMixedCase()
    ensures SmsReply(Some("NeXt")) == NEXT_REPLY
  {
    NormalizeUnpadded("NeXt");
  }

  lemma NextLowerCase()
    ensures SmsReply(Some("next")) == NEXT_REPLY
  {
    NormalizeUnpadded("next");
  }

  lemma NextPadded()
    ensures SmsReply(Some("  next ")) == NEXT_REPLY
  {
    assert "  next " == "  " + "next" + " ";
    PaddingIgnored("  ", "next", " ");
    NextLowerCase();
  }

  /** NEXT is an exact match: a longer body starting with it falls through. */
  lemma NextWithArgument()
    ensures SmsReply(Some("NEXT 5")) == FALLBACK_REPLY
  {
    NormalizeUnpadded("NEXT 5");
  }

  lemma NextRunOn()
    ensures SmsReply(Some("NEXTLOAD")) == FALLBACK_REPLY
  {
    NormalizeUnpadded("NEXTLOAD");
  }

  lemma IssueAlone()
    ensures SmsReply(Some("issue")) == ISSUE_REPLY
  {
    assert "issue" == [] + "issue" + [];
    IssuePrefix([], "issue", []);
  }

  lemma IssuePlural()
    ensures SmsReply(Some("ISSUES")) == ISSUE_REPLY
  {
    assert "ISSUES" == [] + "ISSUE" + "S";
    IssuePrefix([], "ISSUE", "S");
  }

  lemma IssueWithReport()
    ensures SmsReply(Some("issue truck-7 flat tire")) == ISSUE_REPLY
  {
    assert "issue truck-7 flat tire" == [] + "issue" + " truck-7 flat tire";
    IssuePrefix([], "issue", " truck-7 flat tire");
  }

  lemma WhitespaceOnlyFallsBack()
    ensures SmsReply(Some(" \t\r\n")) == FALLBACK_REPLY
  {
    BlankFallsBack(" \t\r\n");
  }

  /** ISSUE only counts at the start: in the middle it falls back. */
  lemma IssueInMiddleFallsBack()
    ensures SmsReply(Some("MY ISSUE")) == FALLBACK_REPLY
  {
    NormalizeUnpadded("MY ISSUE");
  }

  /** The fallback text tells the sender to reply NEXT or ISSUE: both bare
      words are recognised (NextUpper shows it for NEXT). */
  lemma IssueUpper()
    ensures SmsReply(Some("ISSUE")) == ISSUE_REPLY
  {
    NormalizeUnpadded("ISSUE");
  }
}
