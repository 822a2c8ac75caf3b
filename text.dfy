/**
 The three Python `str` operations the SMS handler relies on: `strip()` with no
 argument, `upper()` and `startswith(prefix)`. Strings are sequences of Unicode
 scalar values; the form text the handler receives is decoded, so it holds no
 lone surrogates.
 */
module Text {

  /** Python's `str.isspace` for one character: the 29 code points that
      `strip()` with no argument removes. */
  predicate IsSpace(c: char) {
    || '\t' <= c <= '\r'                  // tab, line feed, line tabulation, form feed, carriage return
    || '\U{001C}' <= c <= '\U{001F}'      // file, group, record and unit separators
    || c == ' '
    || c == '\U{0085}'                    // next line
    || c == '\U{00A0}'                    // no-break space
    || c == '\U{1680}'                    // ogham space mark
    || '\U{2000}' <= c <= '\U{200A}'      // en quad .. hair space
    || c == '\U{2028}' || c == '\U{2029}'  // line and paragraph separators
    || c == '\U{202F}' || c == '\U{205F}' || c == '\U{3000}'  // narrow, medium mathematical and ideographic spaces
  }

  /** Whitespace and nothing else (true of the empty string). */
  predicate AllSpace(s: string) {
    forall k :: 0 <= k < |s| ==> IsSpace(s[k])
  }

  /** No whitespace anywhere: a single word. */
  predicate NoSpace(s: string) {
    forall k :: 0 <= k < |s| ==> !IsSpace(s[k])
  }

  /** No whitespace at either end: what a result of `strip()` looks like. */
  predicate Unpadded(s: string) {
    s == [] || (!IsSpace(s[0]) && !IsSpace(s[|s| - 1]))
  }

  lemma AllSpaceConcat(a: string, b: string)
    requires AllSpace(a) && AllSpace(b)
    ensures AllSpace(a + b)
  {
    assert forall k :: |a| <= k < |a + b| ==> (a + b)[k] == b[k - |a|];
  }

  lemma Regroup(a: string, b: string, c: string, d: string, e: string)
    ensures a + (b + c + d) + e == (a + b) + c + (d + e)
  {
  }

  /** The left scan of `strip()`: from index `i`, skip whitespace; the result
      is the first index at or after `i` holding a non-space, or `|s|`. */
  function LeftEnd(s: string, i: nat): (a: nat)
    requires i <= |s|
    ensures i <= a <= |s|
    ensures forall k :: i <= k < a ==> IsSpace(s[k])
    ensures a == |s| || !IsSpace(s[a])
    decreases |s| - i
  {
    if i < |s| && IsSpace(s[i]) then LeftEnd(s, i + 1) else i
  }

  /** The right scan of `strip()`: from the exclusive end `j`, step back over
      whitespace but never below `lo`; the result `b` has `s[b - 1]` a
      non-space unless it reached `lo`. */
  function RightEnd(s: string, lo: nat, j: nat): (b: nat)
    requires lo <= j <= |s|
    ensures lo <= b <= j
    ensures forall k :: b <= k < j ==> IsSpace(s[k])
    ensures b == lo || !IsSpace(s[b - 1])
    decreases j
  {
    if lo < j && IsSpace(s[j - 1]) then RightEnd(s, lo, j - 1) else j
  }

  /** `strip()`: the slice between the two scans. It starts and ends with a
      non-space; StripSplit shows that everything cut off is whitespace and
      StripUnique that this pins the result down. */
  function Strip(s: string): (r: string)
    ensures Unpadded(r)
    ensures |r| <= |s|
  {
    var a := LeftEnd(s, 0);
    s[a..RightEnd(s, a, |s|)]
  }

  /** The left scan stops exactly at the first non-space. */
  lemma {:induction false} LeftEndAt(s: string, i: nat, a: nat)
    requires i <= a <= |s|
    requires forall k :: i <= k < a ==> IsSpace(s[k])
    requires a == |s| || !IsSpace(s[a])
    ensures LeftEnd(s, i) == a
    decreases a - i
  {
    if i < a {
      LeftEndAt(s, i + 1, a);
    }
  }

  /** The right scan stops exactly after the last non-space above `lo`. */
  lemma {:induction false} RightEndAt(s: string, lo: nat, j: nat, b: nat)
    requires lo <= b <= j <= |s|
    requires forall k :: b <= k < j ==> IsSpace(s[k])
    requires b == lo || !IsSpace(s[b - 1])
    ensures RightEnd(s, lo, j) == b
    decreases j - b
  {
    if b < j {
      RightEndAt(s, lo, j - 1, b);
    }
  }

  /** Splits `s` around its stripped core: whitespace, core, whitespace. */
  lemma StripSplit(s: string) returns (pre: string, post: string)
    ensures AllSpace(pre) && AllSpace(post)
    ensures s == pre + Strip(s) + post
  {
    var a := LeftEnd(s, 0);
    var b := RightEnd(s, a, |s|);
    pre, post := s[..a], s[b..];
    assert s[..b] == s[..a] + s[a..b];
    assert s == s[..b] + s[b..];
  }

  /** `strip()` is determined by its description: whatever is left after
      removing whitespace from both ends of `pre + r + post` is `r`. */
  lemma StripUnique(pre: string, r: string, post: string)
    requires AllSpace(pre) && AllSpace(post) && Unpadded(r)
    ensures Strip(pre + r + post) == r
  {
    var s := pre + r + post;
    if r == [] {
      LeftEndAt(s, 0, |s|);
      RightEndAt(s, |s|, |s|, |s|);
    } else {
      LeftEndAt(s, 0, |pre|);
      RightEndAt(s, |pre|, |s|, |pre| + |r|);
      assert s[|pre|..|pre| + |r|] == r;
    }
  }

  /** Text with no whitespace at either end is its own `strip()`. */
  lemma StripUnpadded(s: string)
    requires Unpadded(s)
    ensures Strip(s) == s
  {
    if s != [] {
      LeftEndAt(s, 0, 0);
      RightEndAt(s, 0, |s|, |s|);
    }
  }

  /** Whitespace added at either end never changes what `strip()` returns. */
  lemma StripIgnoresPadding(pre: string, s: string, post: string)
    requires AllSpace(pre) && AllSpace(post)
    ensures Strip(pre + s + post) == Strip(s)
  {
    var p, q := StripSplit(s);
    var r := Strip(s);
    Regroup(pre, p, r, q, post);
    AllSpaceConcat(pre, p);
    AllSpaceConcat(q, post);
    StripUnique(pre + p, r, q + post);
  }

  lemma StripIdempotent(s: string)
    ensures Strip(Strip(s)) == Strip(s)
  {
    StripUnpadded(Strip(s));
  }

  /** A string of whitespace only strips to the empty string. */
  lemma StripAllSpace(s: string)
    requires AllSpace(s)
    ensures Strip(s) == []
  {
    LeftEndAt(s, 0, |s|);
  }

  /** `upper()` of one character, restricted to ASCII: 'a'..'z' become
      'A'..'Z' and every other character is kept. */
  function UpperChar(c: char): (u: char)
    ensures 'a' <= c <= 'z' ==> u as int == c as int - 32
    ensures !('a' <= c <= 'z') ==> u == c
    ensures !('a' <= u <= 'z')
    ensures IsSpace(u) == IsSpace(c)
  {
    if 'a' <= c <= 'z' then (c as int - 32) as char else c
  }

  /** `upper()`: maps every character through UpperChar, keeping the length. */
  function ToUpper(s: string): (r: string)
    ensures |r| == |s|
    ensures forall k :: 0 <= k < |s| ==> r[k] == UpperChar(s[k])
  {
    seq(|s|, k requires 0 <= k < |s| => UpperChar(s[k]))
  }

  /** Two characters agree once upper-cased: they are equal, or they are the
      lower- and upper-case forms of one ASCII letter. */
  predicate CaseMates(x: char, y: char) {
    || x == y
    || ('a' <= x <= 'z' && y as int == x as int - 32)
    || ('a' <= y <= 'z' && x as int == y as int - 32)
  }

  lemma UpperCharAgree(x: char, y: char)
    ensures UpperChar(x) == UpperChar(y) <==> CaseMates(x, y)
  {
  }

  /** `upper()` makes two texts equal exactly when they have the same length
      and agree character by character up to the case of ASCII letters. */
  lemma ToUpperAgree(a: string, b: string)
    ensures ToUpper(a) == ToUpper(b) <==>
              |a| == |b| && forall k :: 0 <= k < |a| ==> CaseMates(a[k], b[k])
  {
    if ToUpper(a) == ToUpper(b) {
      forall k | 0 <= k < |a| ensures CaseMates(a[k], b[k]) {
        assert ToUpper(a)[k] == ToUpper(b)[k];
        UpperCharAgree(a[k], b[k]);
      }
    }
    if |a| == |b| && forall k :: 0 <= k < |a| ==> CaseMates(a[k], b[k]) {
      forall k | 0 <= k < |a| ensures ToUpper(a)[k] == ToUpper(b)[k] {
        UpperCharAgree(a[k], b[k]);
      }
    }
  }

  /** After `upper()` no lower-case ASCII letter is left, and a second
      `upper()` changes nothing. */
  lemma ToUpperIdempotent(s: string)
    ensures forall k :: 0 <= k < |s| ==> !('a' <= ToUpper(s)[k] <= 'z')
    ensures ToUpper(ToUpper(s)) == ToUpper(s)
  {
  }

  /** `upper()` leaves whitespace alone and creates none, so it keeps
      AllSpace, NoSpace and Unpadded. */
  lemma ToUpperKeepsSpacing(s: string)
    ensures AllSpace(ToUpper(s)) == AllSpace(s)
    ensures NoSpace(ToUpper(s)) == NoSpace(s)
    ensures Unpadded(ToUpper(s)) == Unpadded(s)
  {
    assert forall k :: 0 <= k < |s| ==> (IsSpace(ToUpper(s)[k]) <==> IsSpace(s[k]));
  }

  /** Stripping and upper-casing commute: `upper()` keeps every character's
      whitespace-ness, so both scans stop at the same indices. */
  lemma StripToUpperCommute(s: string)
    ensures ToUpper(Strip(s)) == Strip(ToUpper(s))
  {
    var u := ToUpper(s);
    var a := LeftEnd(s, 0);
    var b := RightEnd(s, a, |s|);
    LeftEndAt(u, 0, a);
    RightEndAt(u, a, |u|, b);
    assert ToUpper(s[a..b]) == u[a..b];
  }

  /** Python's `s.startswith(prefix)`. */
  predicate StartsWith(s: string, prefix: string) {
    |prefix| <= |s| && s[..|prefix|] == prefix
  }

  /** Upper-casing keeps a prefix a prefix. */
  lemma ToUpperKeepsPrefix(s: string, prefix: string)
    requires StartsWith(s, prefix)
    ensures StartsWith(ToUpper(s), ToUpper(prefix))
  {
    assert forall k :: 0 <= k < |prefix| ==> ToUpper(s)[k] == ToUpper(prefix)[k] by {
      forall k | 0 <= k < |prefix| ensures ToUpper(s)[k] == ToUpper(prefix)[k] {
        assert s[k] == prefix[k];
      }
    }
  }
}
