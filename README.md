# SMS command dispatch of the twilio-webhook handler

This project models the decision logic of the `/sms` webhook of a small Flask
application for truck drivers (`sms_reply` in app.py). A driver's text message
arrives as the `Body` form field. The handler normalises it: a missing field
becomes the empty text, surrounding whitespace is stripped and the text is
upper-cased. It then picks exactly one of three fixed replies:

* a body that is exactly `NEXT` gets the next-load text
  ("Your next load: 4200 diesel / 3600 gas. Drop at Stroud.");
* otherwise, a body that starts with `ISSUE` gets "Issue logged. Dispatch will
  review.";
* anything else gets "Command not recognized. Reply NEXT or ISSUE.".

The model is pure, as the handler is: straight-line code with one if/elif/else
and no stored state.

* `text.dfy`, module `Text`, models the three Python `str` operations the
  handler uses. `strip()` is written as CPython scans a string: a left scan
  (`LeftEnd`) and a right scan (`RightEnd`) over Python's `isspace` set of
  29 code points. `upper()` is `ToUpper`, and `startswith` is `StartsWith`.
  `StripUnique` is the independent description of `strip()` that the
  lemmas use.
* `app.dfy`, module `App`, models the handler itself.
  * `BodyOrEmpty` is `request.form.get("Body") or ""`.
  * `Normalize` is `.strip().upper()`.
  * `Classify` is the if/elif/else over the three branches (`Cmd`).
  * `Reply` gives the three literal texts.
  * `SmsReply` is the composition: from the optional `Body` field to the
    reply text.

The inbound request is modelled only by its `Body` field, passed in as an
`Option<string>`. The reply is its text, not TwiML markup.

## Model

Some definitions carry no contract of their own, so they have no row: `App.BodyOrEmpty` (`or ""`, app.py:13), `App.Reply` (the three literal texts, app.py:16, 18 and 20), `Text.StartsWith` (`startswith`, app.py:17), `Text.IsSpace` (the whitespace set of `strip()`, app.py:13) and `Text.CaseMates` (two characters that agree once upper-cased). The rows below state their properties: MissingBodyFallsBack, ReplyInjective, ToUpperKeepsPrefix, StripSplit and ToUpperAgree.

| member | source | states |
|---|---|---|
| Text.LeftEnd | app.py:13 | The left scan of `strip()` returns the first index at or after its start whose character is not whitespace, or the length. Every character it skips is whitespace. |
| Text.RightEnd | app.py:13 | The right scan of `strip()` never goes below the left end. Every character it drops from the end is whitespace. It stops after a non-space unless it met the left end. |
| Text.LeftEndAt | app.py:13 | The left scan stops exactly at the first non-space: any index with only whitespace before it and a non-space (or the end) at it is the scan's result. |
| Text.RightEndAt | app.py:13 | The right scan stops exactly after the last non-space: any such index is the scan's result. |
| Text.Strip | app.py:13 | `strip()` returns a text that has no whitespace at either end and is never longer than its input. |
| Text.StripSplit | app.py:13 | Every text is whitespace, then `strip()` of it, then whitespace: only whitespace is cut off. |
| Text.StripUnique | app.py:13 | For whitespace-only `pre` and `post` and any `r` with no whitespace at either end, `strip(pre + r + post)` is `r`. This is a reference description of `strip()` that does not depend on how it scans. |
| Text.StripUnpadded | app.py:13 | A text with no whitespace at either end is unchanged by `strip()`. |
| Text.StripIgnoresPadding | app.py:13 | Adding whitespace at either end never changes the result of `strip()`. |
| Text.StripIdempotent | app.py:13 | Stripping twice is stripping once. |
| Text.StripAllSpace | app.py:13 | A whitespace-only text, the empty text included, strips to the empty text. |
| Text.UpperChar | app.py:13 | Upper-casing one character maps `a`..`z` to the matching `A`..`Z` (code point minus 32) and returns every other character unchanged. No lower-case ASCII letter comes back, and whitespace stays whitespace. |
| Text.UpperCharAgree | app.py:13 | Two characters upper-case to the same character exactly when they are equal or are the two cases of one ASCII letter. |
| Text.ToUpper | app.py:13 | `upper()` keeps the length and upper-cases each character in place, by the mapping of Text.UpperChar. |
| Text.ToUpperAgree | app.py:13 | Two texts agree once upper-cased exactly when they have the same length and agree in each position up to the case of ASCII letters. Both directions are proved. |
| Text.ToUpperIdempotent | app.py:13 | After `upper()` no lower-case ASCII letter is left, and a second `upper()` changes nothing. |
| Text.ToUpperKeepsSpacing | app.py:13 | `upper()` keeps a text all-whitespace, whitespace-free or free of whitespace at its ends exactly when it was before. Both directions are proved. |
| Text.StripToUpperCommute | app.py:13 | `upper(strip(s)) == strip(upper(s))` for every text. |
| Text.ToUpperKeepsPrefix | app.py:13-17 | If `s` starts with `p`, then `upper(s)` starts with `upper(p)`. |
| App.Normalize | app.py:13 | The normalised body has no whitespace at either end and no lower-case ASCII letter. It is never longer than the raw body. |
| App.Classify | app.py:15-20 | The NEXT branch is taken exactly when the normalised body equals `NEXT`. The ISSUE branch is taken exactly when it starts with `ISSUE`. The fallback is taken exactly when neither holds. Each is an if-and-only-if, and together they make the order NEXT, ISSUE, fallback immaterial. |
| App.SmsReply | app.py:12-21 | Every body, present or absent, gets exactly one of the three reply texts. That text is the NEXT reply, the ISSUE reply or the fallback exactly under the conditions above, applied to `Body or ""`. |
| App.NextIsNotIssue | app.py:15-17 | No normalised body satisfies both the NEXT condition and the ISSUE condition. |
| App.ReplyInjective | app.py:15-20 | The three branches send three different texts, so the reply identifies the branch. |
| App.MissingBodyFallsBack | app.py:13 | An absent `Body` field and an empty one both get the fallback reply. |
| App.NormalizeIdempotent | app.py:13 | Normalising a normalised body changes nothing. |
| App.ClassifyNormalized | app.py:13-20 | The branch and the reply depend only on the normalised body: classifying `Normalize(x)` gives the same result as classifying `x`. |
| App.NormalizeCaseInsensitive | app.py:13 | Two bodies that agree once upper-cased have the same normal form. |
| App.CaseInsensitive | app.py:13-20 | Two bodies that agree once upper-cased take the same branch. |
| App.PaddingIgnored | app.py:13-20 | Whitespace added before or after a body never changes its branch. |
| App.BlankFallsBack | app.py:13-20 | A whitespace-only body, the empty body included, gets the fallback branch. |
| App.NormalizeUnpadded | app.py:13 | A body with no whitespace at either end normalises to its upper case. |
| App.StripKeepsLeadingWord | app.py:13 | Stripping keeps intact a non-empty first word that contains no whitespace. |
| App.IssuePrefix | app.py:17-18 | Any body gets the ISSUE branch, whatever follows, when it is leading whitespace and then a word that upper-cases to `ISSUE`. |
| App.NextUpper | app.py:15-16 | `NEXT` gets the next-load reply. |
| App.NextMixedCase | app.py:13-16 | `NeXt` gets the next-load reply. |
| App.NextLowerCase | app.py:13-16 | `next` gets the next-load reply. |
| App.NextPadded | app.py:13-16 | `"  next "` gets the next-load reply. |
| App.NextWithArgument | app.py:15-20 | `NEXT 5` is not an exact match and gets the fallback reply. |
| App.NextRunOn | app.py:15-20 | `NEXTLOAD` is not an exact match and gets the fallback reply. |
| App.IssueAlone | app.py:13-18 | `issue` gets the issue-logged reply. |
| App.IssuePlural | app.py:17-18 | `ISSUES` gets the issue-logged reply. |
| App.IssueWithReport | app.py:13-18 | `issue truck-7 flat tire` gets the issue-logged reply. |
| App.IssueUpper | app.py:17-20 | `ISSUE`, one of the two words the fallback text advertises, gets the issue-logged reply. |
| App.WhitespaceOnlyFallsBack | app.py:13-20 | A body of spaces, tabs and line breaks gets the fallback reply. |
| App.IssueInMiddleFallsBack | app.py:15-20 | `MY ISSUE` contains ISSUE but does not start with it, so it gets the fallback reply. |

## Left out

- Text.UpperChar: only ASCII letters are upper-cased. Python's `upper()` follows the full Unicode case mapping. Its differences can change the branch: `ı` becomes `I`, `ſ` becomes `S` and `ß` becomes `SS`. So a body such as `ıssue` or `ißue` takes the ISSUE branch in app.py but the fallback in this model. There is no Unicode case table here to model it.
- App.Normalize: inherits the ASCII-only upper-casing of Text.UpperChar.
- Flask routing, the `/` health endpoint and HTTP status codes (app.py:7-11) are web-framework plumbing.
- Building the reply with `MessagingResponse` and serialising it to TwiML with `str(resp)` (app.py:14, 16, 18, 20, 21) are left out. The library's source is not part of this model, so only the chosen reply text is modelled.
- Reading the form is reduced to the value `request.form.get("Body")` returns: a text or nothing. How Flask parses the request, and which value it picks when `Body` is repeated, is not modelled.
- Process start-up, the `PORT` environment variable and `app.run` (app.py:23-25) are configuration and I/O.
- Only the three branches of app.py:15-20 exist. The fallback text (app.py:20) offers only NEXT and ISSUE, and the model has no other commands.
