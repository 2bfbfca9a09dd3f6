/**
  The parts of Python's `str` semantics that the services rely on, over
  `string` (`seq<char>`): character classes (`isspace`, `isdigit`, regex `\d`),
  `strip`/`lstrip`/`rstrip`, `replace(c, "")`, `startswith`/`endswith`,
  `upper`/`lower`/`title` and `split()` with no separator.

  Case mapping covers ASCII letters only; every other character is uncased.
 */
module PyText {

  /** `str.isspace`: exactly the code points CPython classifies as whitespace.
      The same set is used by `strip()`, `split()` and the regex class `\s`. */
  predicate IsSpace(c: char) {
    || ('\t' <= c <= '\r')
    || ('\U{1C}' <= c <= '\U{1F}')
    || c == ' ' || c == '\U{85}' || c == '\U{A0}' || c == '\U{1680}'
    || ('\U{2000}' <= c <= '\U{200A}')
    || c == '\U{2028}' || c == '\U{2029}' || c == '\U{202F}' || c == '\U{205F}'
    || c == '\U{3000}'
  }

  /** A decimal digit as matched by the regex class `\d`: ASCII, Arabic-Indic
      (U+0660-0669) and Extended Arabic-Indic / Persian (U+06F0-06F9). */
  predicate IsDecimal(c: char) {
    || ('0' <= c <= '9')
    || ('\U{660}' <= c <= '\U{669}')
    || ('\U{6F0}' <= c <= '\U{6F9}')
  }

  /** The characters of `str.isdigit` this model covers: the decimal digits
      above, the superscript digits (U+00B2, U+00B3, U+00B9, U+2070,
      U+2074-2079), the subscript digits (U+2080-2089) and the circled digits
      one to nine (U+2460-2468). CPython accepts more: the decimal digits of
      other scripts and further digit symbols. */
  predicate IsDigitChar(c: char) {
    || IsDecimal(c)
    || c == '\U{B2}' || c == '\U{B3}' || c == '\U{B9}'
    || c == '\U{2070}' || ('\U{2074}' <= c <= '\U{2079}')
    || ('\U{2080}' <= c <= '\U{2089}')
    || ('\U{2460}' <= c <= '\U{2468}')
  }

  /** `s.isdigit()`: false on the empty string. */
  predicate IsDigitString(s: string) {
    |s| > 0 && forall i :: 0 <= i < |s| ==> IsDigitChar(s[i])
  }

  predicate StartsWith(s: string, prefix: string) {
    |prefix| <= |s| && s[..|prefix|] == prefix
  }

  predicate EndsWith(s: string, suffix: string) {
    |suffix| <= |s| && s[|s| - |suffix|..] == suffix
  }

  /** Ending in a one-character suffix is having that character last. */
  lemma EndsWithChar(s: string, c: char)
    ensures EndsWith(s, [c]) <==> |s| > 0 && s[|s| - 1] == c
  {
    if |s| > 0 {
      assert s[|s| - 1..] == [s[|s| - 1]];
    }
  }

  predicate NoSpaceAtEnds(s: string) {
    |s| > 0 ==> !IsSpace(s[0]) && !IsSpace(s[|s| - 1])
  }

  /** `s.lstrip(c)`: drops every leading occurrence of `c`. */
  function LStripChar(s: string, c: char): (r: string)
    ensures |r| <= |s| && r == s[|s| - |r|..]
    ensures |r| > 0 ==> r[0] != c
    ensures forall i :: 0 <= i < |s| - |r| ==> s[i] == c
  {
    if |s| > 0 && s[0] == c then LStripChar(s[1..], c) else s
  }

  /** `s.lstrip()`: drops leading whitespace. */
  function LStrip(s: string): (r: string)
    ensures |r| <= |s| && r == s[|s| - |r|..]
    ensures |r| > 0 ==> !IsSpace(r[0])
    ensures forall i :: 0 <= i < |s| - |r| ==> IsSpace(s[i])
  {
    if |s| > 0 && IsSpace(s[0]) then LStrip(s[1..]) else s
  }

  /** `s.rstrip()`: drops trailing whitespace. */
  function RStrip(s: string): (r: string)
    ensures |r| <= |s| && r == s[..|r|]
    ensures |r| > 0 ==> !IsSpace(r[|r| - 1])
    ensures forall i :: |r| <= i < |s| ==> IsSpace(s[i])
  {
    if |s| > 0 && IsSpace(s[|s| - 1]) then RStrip(s[..|s| - 1]) else s
  }

  /** `s.strip()`. */
  function Strip(s: string): (r: string)
    ensures NoSpaceAtEnds(r)
    ensures |r| <= |s|
  {
    RStrip(LStrip(s))
  }

  /** `r` is `s` with some leading and some trailing whitespace removed and
      nothing else: a contiguous slice of `s` with only whitespace around it. */
  predicate IsTrimOf(r: string, s: string) {
    exists k :: 0 <= k <= |s| && TrimAt(r, s, k)
  }

  /** `IsTrimOf` with the number `k` of leading characters removed. */
  predicate TrimAt(r: string, s: string, k: int) {
    && 0 <= k <= |s| - |r| && r == s[k..k + |r|]
    && (forall i :: 0 <= i < k ==> IsSpace(s[i]))
    && (forall i :: k + |r| <= i < |s| ==> IsSpace(s[i]))
  }

  /** `strip()` removes only surrounding whitespace. */
  lemma StripTrims(s: string)
    ensures IsTrimOf(Strip(s), s)
  {
    var l := LStrip(s);
    var r := Strip(s);
    var k := |s| - |l|;
    assert r == l[..|r|];
    assert r == s[k..k + |r|];
    forall i | k + |r| <= i < |s|
      ensures IsSpace(s[i])
    {
      assert s[i] == l[i - k];
    }
    assert TrimAt(r, s, k);
  }

  /** A trimmed string consists of characters of the original. */
  lemma TrimKeepsChars(r: string, s: string)
    requires IsTrimOf(r, s)
    ensures forall i :: 0 <= i < |r| ==> r[i] in s
  {
    var k :| 0 <= k <= |s| && TrimAt(r, s, k);
    forall i | 0 <= i < |r|
      ensures r[i] in s
    {
      assert r[i] == s[k + i];
    }
  }

  /** A string with no whitespace at either end is its own strip. */
  lemma StripOfStripped(s: string)
    requires NoSpaceAtEnds(s)
    ensures Strip(s) == s
  {
  }

  /** `s.replace(c, "")` for a one-character `c`. */
  function RemoveChar(s: string, c: char): (r: string)
    ensures |r| <= |s|
    ensures forall i :: 0 <= i < |r| ==> r[i] != c
    ensures forall i :: 0 <= i < |r| ==> r[i] in s
  {
    if |s| == 0 then []
    else (if s[0] == c then [] else [s[0]]) + RemoveChar(s[1..], c)
  }

  lemma {:induction false} RemoveCharAppend(a: string, b: string, c: char)
    ensures RemoveChar(a + b, c) == RemoveChar(a, c) + RemoveChar(b, c)
  {
    if |a| == 0 {
      assert a + b == b;
    } else {
      assert (a + b)[1..] == a[1..] + b;
      RemoveCharAppend(a[1..], b, c);
    }
  }

  /** Removing a character that does not occur changes nothing. */
  lemma {:induction false} RemoveCharAbsent(s: string, c: char)
    requires forall i :: 0 <= i < |s| ==> s[i] != c
    ensures RemoveChar(s, c) == s
  {
    if |s| > 0 {
      RemoveCharAbsent(s[1..], c);
    }
  }

  /** Every character of `s` other than `c` is still present after removal. */
  lemma {:induction false} RemoveCharKeeps(s: string, c: char, x: char)
    requires x != c && x in s
    ensures x in RemoveChar(s, c)
  {
    if s[0] != x {
      RemoveCharKeeps(s[1..], c, x);
    }
  }

  /** Number of characters of `s` other than `c`. */
  function CountOther(s: string, c: char): nat {
    if |s| == 0 then 0 else (if s[0] == c then 0 else 1) + CountOther(s[1..], c)
  }

  lemma {:induction false} RemoveCharLength(s: string, c: char)
    ensures |RemoveChar(s, c)| == CountOther(s, c)
  {
    if |s| > 0 {
      RemoveCharLength(s[1..], c);
    }
  }

  predicate IsAsciiUpper(c: char) { 'A' <= c <= 'Z' }
  predicate IsAsciiLower(c: char) { 'a' <= c <= 'z' }

  /** A cased character in the sense of `str.title`. */
  predicate IsCased(c: char) { IsAsciiUpper(c) || IsAsciiLower(c) }

  function UpperChar(c: char): (r: char)
    ensures !IsAsciiLower(r)
    ensures IsCased(r) <==> IsCased(c)
  {
    if IsAsciiLower(c) then (c as int - 32) as char else c
  }

  function LowerChar(c: char): (r: char)
    ensures !IsAsciiUpper(r)
    ensures IsCased(r) <==> IsCased(c)
  {
    if IsAsciiUpper(c) then (c as int + 32) as char else c
  }

  /** `s.upper()`. */
  function Upper(s: string): (r: string)
    ensures |r| == |s|
    ensures forall i :: 0 <= i < |s| ==> r[i] == UpperChar(s[i])
  {
    seq(|s|, i requires 0 <= i < |s| => UpperChar(s[i]))
  }

  /** `s.lower()`. */
  function Lower(s: string): (r: string)
    ensures |r| == |s|
    ensures forall i :: 0 <= i < |s| ==> r[i] == LowerChar(s[i])
  {
    seq(|s|, i requires 0 <= i < |s| => LowerChar(s[i]))
  }

  lemma UpperAppend(a: string, b: string)
    ensures Upper(a + b) == Upper(a) + Upper(b)
  {
  }

  /** Lower-casing keeps whitespace where it is, so a trim stays a trim of
      the lower-cased original. */
  lemma LowerTrims(r: string, s: string)
    requires IsTrimOf(r, s)
    ensures IsTrimOf(Lower(r), Lower(s))
  {
    var k :| 0 <= k <= |s| && TrimAt(r, s, k);
    var lr, ls := Lower(r), Lower(s);
    assert lr == ls[k..k + |lr|];
    assert TrimAt(lr, ls, k);
  }

  /** `str.title` from a given "previous character was cased" flag: a cased
      character after a cased one is lowered, any other cased character is
      raised, and an uncased character starts a new word. */
  function TitleFrom(s: string, prevCased: bool): (r: string)
    ensures |r| == |s|
  {
    if |s| == 0 then []
    else
      var c := s[0];
      var c' := if !IsCased(c) then c else if prevCased then LowerChar(c) else UpperChar(c);
      [c'] + TitleFrom(s[1..], IsCased(c))
  }

  /** `s.title()`. */
  function Title(s: string): (r: string)
    ensures |r| == |s|
  {
    TitleFrom(s, false)
  }

  /** Title-casing leaves uncased characters where they are. */
  lemma {:induction false} TitleKeepsUncased(s: string, prevCased: bool, i: int)
    requires 0 <= i < |s| && !IsCased(s[i])
    ensures TitleFrom(s, prevCased)[i] == s[i]
  {
    if i > 0 {
      TitleKeepsUncased(s[1..], IsCased(s[0]), i - 1);
    }
  }

  /** Title-casing never turns an uncased character into a cased one or back. */
  lemma {:induction false} TitleKeepsCasedness(s: string, prevCased: bool, i: int)
    requires 0 <= i < |s|
    ensures IsCased(TitleFrom(s, prevCased)[i]) <==> IsCased(s[i])
  {
    if i > 0 {
      TitleKeepsCasedness(s[1..], IsCased(s[0]), i - 1);
    }
  }

  /** Title-casing only changes case: lower-cased, the result is the
      lower-cased original. */
  lemma {:induction false} LowerTitleFrom(s: string, prevCased: bool)
    ensures Lower(TitleFrom(s, prevCased)) == Lower(s)
  {
    if |s| > 0 {
      var t := TitleFrom(s, prevCased);
      LowerTitleFrom(s[1..], IsCased(s[0]));
      assert t[1..] == TitleFrom(s[1..], IsCased(s[0]));
      assert LowerChar(t[0]) == LowerChar(s[0]);
      assert Lower(t) == [LowerChar(t[0])] + Lower(t[1..]);
      assert Lower(s) == [LowerChar(s[0])] + Lower(s[1..]);
    }
  }

  /** `title()` is idempotent. */
  lemma {:induction false} TitleIdempotent(s: string, prevCased: bool)
    ensures TitleFrom(TitleFrom(s, prevCased), prevCased) == TitleFrom(s, prevCased)
  {
    if |s| > 0 {
      var t := TitleFrom(s, prevCased);
      TitleIdempotent(s[1..], IsCased(s[0]));
      assert t[1..] == TitleFrom(s[1..], IsCased(s[0]));
      assert IsCased(t[0]) == IsCased(s[0]);
    }
  }

  /** `title()` keeps whitespace exactly where it was, so a stripped string
      stays stripped. */
  lemma TitleKeepsStripped(s: string)
    requires NoSpaceAtEnds(s)
    ensures NoSpaceAtEnds(Title(s))
  {
    if |s| > 0 {
      var t := Title(s);
      if IsCased(s[0]) {
        TitleKeepsCasedness(s, false, 0);
      } else {
        TitleKeepsUncased(s, false, 0);
      }
      if IsCased(s[|s| - 1]) {
        TitleKeepsCasedness(s, false, |s| - 1);
      } else {
        TitleKeepsUncased(s, false, |s| - 1);
      }
    }
  }

  /** The leading run of non-whitespace characters. */
  function TakeWord(s: string): (r: string)
    ensures |r| <= |s| && r == s[..|r|]
    ensures forall i :: 0 <= i < |r| ==> !IsSpace(r[i])
    ensures |r| < |s| ==> IsSpace(s[|r|])
  {
    if |s| == 0 || IsSpace(s[0]) then [] else [s[0]] + TakeWord(s[1..])
  }

  /** `s.split()` with no separator: the maximal runs of non-whitespace. */
  function Split(s: string): (r: seq<string>)
    decreases |s|
  {
    var t := LStrip(s);
    if |t| == 0 then []
    else
      var w := TakeWord(t);
      assert |w| > 0 by {
        assert !IsSpace(t[0]);
      }
      [w] + Split(t[|w|..])
  }

  /** A token of `split()`: non-empty, without whitespace. */
  predicate IsWord(w: string) {
    |w| > 0 && forall i :: 0 <= i < |w| ==> !IsSpace(w[i])
  }

  /** Every token `split()` returns is a non-empty run of non-whitespace. */
  lemma {:induction false} SplitYieldsWords(s: string)
    ensures forall k :: 0 <= k < |Split(s)| ==> IsWord(Split(s)[k])
    decreases |s|
  {
    var t := LStrip(s);
    if |t| > 0 {
      var w := TakeWord(t);
      assert !IsSpace(t[0]);
      var rest := Split(t[|w|..]);
      SplitYieldsWords(t[|w|..]);
      assert Split(s) == [w] + rest;
      forall k | 0 <= k < |Split(s)|
        ensures IsWord(Split(s)[k])
      {
        if k > 0 {
          assert Split(s)[k] == rest[k - 1];
        }
      }
    }
  }

  /** Number of positions where a word starts: a non-whitespace character
      that is first or follows whitespace (`prevSpace` says whether the
      character before `s` was whitespace). */
  function WordStarts(s: string, prevSpace: bool): nat {
    if |s| == 0 then 0
    else (if !IsSpace(s[0]) && prevSpace then 1 else 0) + WordStarts(s[1..], IsSpace(s[0]))
  }

  lemma {:induction false} WordStartsSkipsSpace(s: string)
    ensures WordStarts(s, true) == WordStarts(LStrip(s), true)
    decreases |s|
  {
    if |s| > 0 && IsSpace(s[0]) {
      WordStartsSkipsSpace(s[1..]);
    }
  }

  lemma {:induction false} WordStartsInsideWord(s: string, n: nat)
    requires n <= |s| && forall i :: 0 <= i < n ==> !IsSpace(s[i])
    requires n < |s| ==> IsSpace(s[n])
    ensures WordStarts(s, false) == WordStarts(s[n..], true)
  {
    if n > 0 {
      WordStartsInsideWord(s[1..], n - 1);
      assert s[1..][n - 1..] == s[n..];
    } else if |s| > 0 {
      assert IsSpace(s[0]);
    }
  }

  /** A word followed by the rest: exactly one word start in the word. */
  lemma WordStartsOfLeadingWord(t: string)
    requires |t| > 0 && !IsSpace(t[0])
    ensures WordStarts(t, true) == 1 + WordStarts(t[|TakeWord(t)|..], true)
  {
    var w := TakeWord(t);
    var u := t[1..];
    assert WordStarts(t, true) == 1 + WordStarts(u, false);
    assert u[|w| - 1..] == t[|w|..];
    assert forall i :: 0 <= i < |w| - 1 ==> !IsSpace(u[i]) by {
      forall i | 0 <= i < |w| - 1 ensures !IsSpace(u[i]) {
        assert u[i] == w[i + 1];
      }
    }
    WordStartsInsideWord(u, |w| - 1);
  }

  /** The number of tokens `split()` returns is the number of word starts. */
  lemma {:induction false} SplitCountsWordStarts(s: string)
    ensures |Split(s)| == WordStarts(s, true)
    decreases |s|
  {
    var t := LStrip(s);
    assert WordStarts(s, true) == WordStarts(t, true) by {
      WordStartsSkipsSpace(s);
    }
    if |t| > 0 {
      var w := TakeWord(t);
      var rest := t[|w|..];
      assert |w| > 0 by {
        assert !IsSpace(t[0]);
      }
      assert |Split(s)| == 1 + |Split(rest)|;
      assert WordStarts(t, true) == 1 + WordStarts(rest, true) by {
        WordStartsOfLeadingWord(t);
      }
      SplitCountsWordStarts(rest);
    }
  }
}
