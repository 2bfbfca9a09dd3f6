/**
  The fallback that recovers the buyer's phone number from the conversation
  transcript when the language model left `buyer_phone` empty
  (`find_buyer_phone_from_conversation` in
  `api/services/extract_info_service.py`).

  Each message text is digit-mapped and scanned with the regular expression
  `\+?[\d\s\-]{9,20}` under `re.findall` semantics; every match is run
  through `normalize_buyer_phone` and kept when, without its leading `'+'`
  signs, it is 10 to 15 characters that `isdigit` accepts. The winner is the
  first candidate with the largest (score, length) key: Python's sort is
  stable, also with `reverse=True`.
 */
module PhoneHeuristic {
  import opened Wrappers
  import opened PyText
  import opened Normalize

  /** A character of the regex class `[\d\s\-]`. */
  predicate InClass(c: char) {
    IsDecimal(c) || IsSpace(c) || c == '-'
  }

  /** The number of consecutive class characters starting at `i`. */
  function RunLength(s: string, i: nat): (n: nat)
    requires i <= |s|
    ensures i + n <= |s|
    ensures forall k :: i <= k < i + n ==> InClass(s[k])
    ensures i + n < |s| ==> !InClass(s[i + n])
    decreases |s| - i
  {
    if i < |s| && InClass(s[i]) then 1 + RunLength(s, i + 1) else 0
  }

  function Min(a: nat, b: nat): nat { if a <= b then a else b }

  /** One regex match: the slice `s[start..end]`. */
  datatype Match = Match(start: nat, end: nat)

  /** What one match of `\+?[\d\s\-]{9,20}` looks like: an optional `'+'`
      followed by 9 to 20 class characters. */
  predicate IsPhoneRun(m: string) {
    var body := if |m| > 0 && m[0] == '+' then m[1..] else m;
    9 <= |body| <= 20 && AllInClass(body)
  }

  /** Every character of `body` is in the class. */
  predicate AllInClass(body: string) {
    forall k :: 0 <= k < |body| ==> InClass(body[k])
  }

  /** `L` class characters start at `b` exactly when the run there is at
      least `L` long. */
  lemma ClassPrefix(s: string, b: nat, L: nat)
    requires b + L <= |s|
    ensures (forall k :: b <= k < b + L ==> InClass(s[k])) <==> L <= RunLength(s, b)
  {
    var n := RunLength(s, b);
    if n < L {
      assert !InClass(s[b + n]);
    }
  }

  /** The slice `s[i..e]` has the shape of a match exactly when, after an
      optional `'+'` at `i`, 9 to 20 characters follow and all of them lie in
      the class run there. */
  lemma PhoneRunAt(s: string, i: nat, e: nat)
    requires i < e <= |s|
    ensures IsPhoneRun(s[i..e]) <==>
              if s[i] == '+' then 9 <= e - i - 1 <= 20 && e - i - 1 <= RunLength(s, i + 1)
              else 9 <= e - i <= 20 && e - i <= RunLength(s, i)
  {
    var m := s[i..e];
    assert m[0] == s[i];
    var b := if s[i] == '+' then i + 1 else i;
    var body := s[b..e];
    assert body == if s[i] == '+' then m[1..] else m;
    ClassPrefix(s, b, e - b);
    assert AllInClass(body) <==> (forall k :: b <= k < e ==> InClass(s[k])) by {
      assert forall k :: 0 <= k < |body| ==> body[k] == s[b + k];
      assert forall k :: b <= k < e ==> s[k] == body[k - b];
    }
  }

  /** The match `m` stops at the greedy end: at a character outside the
      class or the text's end, unless it already holds twenty class
      characters. */
  predicate StopsAtRunEnd(s: string, m: Match) {
    && m.start < m.end <= |s|
    && (m.end < |s| && InClass(s[m.end]) ==> m.end - m.start >= (if s[m.start] == '+' then 21 else 20))
  }

  /** No slice `s[i..e]` with `e` past `lo` has the regex's shape. */
  predicate NoRunBeyond(s: string, i: nat, lo: nat)
    requires i <= lo
  {
    forall e :: lo < e <= |s| ==> !IsPhoneRun(s[i..e])
  }

  /** The match `re.search` would find at exactly position `i`, if any: the
      `'+'` is taken when present and followed by at least nine class
      characters; the class run is greedy and stops after twenty. Without a
      `'+'`, a `'+'` at `i` cannot start a match because it is not in the
      class. */
  function MatchAt(s: string, i: nat): (r: Option<Match>)
    requires i < |s|
    ensures r.Some? ==> r.value.start == i && i < r.value.end <= |s|
    ensures r.Some? ==> IsPhoneRun(s[i..r.value.end])
    ensures r.Some? ==> StopsAtRunEnd(s, r.value)
  {
    if s[i] == '+' && RunLength(s, i + 1) >= 9 then
      var e := i + 1 + Min(RunLength(s, i + 1), 20);
      assert s[i..e][1..] == s[i + 1..e];
      Some(Match(i, e))
    else if RunLength(s, i) >= 9 then
      var e := i + Min(RunLength(s, i), 20);
      assert s[i] != '+';
      Some(Match(i, e))
    else None
  }

  /** The match at `i` is exactly what the regex promises there: there is
      none exactly when no slice starting at `i` has the regex's shape, and
      otherwise it is the longest such slice. */
  lemma MatchAtIsLongest(s: string, i: nat)
    requires i < |s|
    ensures MatchAt(s, i).None? <==> NoRunBeyond(s, i, i)
    ensures MatchAt(s, i).Some? ==> NoRunBeyond(s, i, MatchAt(s, i).value.end)
  {
    forall e | i < e <= |s| {
      PhoneRunAt(s, i, e);
    }
    assert s[i] == '+' ==> RunLength(s, i) == 0;
  }

  /** `re.findall` from position `i`: try a match at each position; after a
      match, continue where it ended. */
  function FindAllFrom(s: string, i: nat): (r: seq<Match>)
    requires i <= |s|
    ensures forall k :: 0 <= k < |r| ==> i <= r[k].start < r[k].end <= |s|
    decreases |s| - i
  {
    if i == |s| then []
    else match MatchAt(s, i)
      case Some(m) => [m] + FindAllFrom(s, m.end)
      case None => FindAllFrom(s, i + 1)
  }

  /** The matched texts, in order. */
  function Texts(s: string, ms: seq<Match>): (r: seq<string>)
    requires forall k :: 0 <= k < |ms| ==> ms[k].start <= ms[k].end <= |s|
    ensures |r| == |ms|
    ensures forall k :: 0 <= k < |r| ==> r[k] == s[ms[k].start..ms[k].end]
  {
    seq(|ms|, k requires 0 <= k < |ms| => s[ms[k].start..ms[k].end])
  }

  /** `re.findall(r"\+?[\d\s\-]{9,20}", s)`. */
  function FindAll(s: string): (r: seq<string>)
  {
    var ms := FindAllFrom(s, 0);
    Texts(s, ms)
  }

  /** The match is a slice of `s` with the shape of the regex. */
  predicate Shaped(s: string, m: Match) {
    m.start <= m.end <= |s| && IsPhoneRun(s[m.start..m.end])
  }

  /** Every match is a slice of `s` with the shape of the regex. */
  predicate AllShaped(s: string, ms: seq<Match>) {
    |ms| > 0 ==> Shaped(s, ms[0]) && AllShaped(s, ms[1..])
  }

  /** A well-shaped match followed by well-shaped matches. */
  lemma ShapedCons(s: string, m: Match, rest: seq<Match>)
    requires Shaped(s, m) && AllShaped(s, rest)
    ensures AllShaped(s, [m] + rest)
  {
    assert ([m] + rest)[1..] == rest;
  }

  /** Soundness of the scan: every match found from `i` is a slice of `s`
      that has the shape of the regex. */
  lemma {:induction false} FindAllShaped(s: string, i: nat)
    requires i <= |s|
    ensures AllShaped(s, FindAllFrom(s, i))
    decreases |s| - i
  {
    if i < |s| {
      match MatchAt(s, i)
      case Some(m) =>
        FindAllShaped(s, m.end);
        ShapedCons(s, m, FindAllFrom(s, m.end));
      case None =>
        FindAllShaped(s, i + 1);
    }
  }

  /** Consecutive matches do not overlap and appear in order. */
  predicate Ordered(ms: seq<Match>) {
    forall k :: 0 < k < |ms| ==> ms[k - 1].end <= ms[k].start
  }

  /** A match that ends before every later match keeps the order. */
  lemma OrderedCons(m: Match, rest: seq<Match>)
    requires Ordered(rest)
    requires forall k :: 0 <= k < |rest| ==> m.end <= rest[k].start
    ensures Ordered([m] + rest)
  {
    var r := [m] + rest;
    forall k | 0 < k < |r|
      ensures r[k - 1].end <= r[k].start
    {
      assert r[k] == rest[k - 1];
      if k > 1 {
        assert r[k - 1] == rest[k - 2];
      }
    }
  }

  /** The matches found from `i` do not overlap and appear in order. */
  lemma {:induction false} FindAllOrdered(s: string, i: nat)
    requires i <= |s|
    ensures Ordered(FindAllFrom(s, i))
    decreases |s| - i
  {
    if i < |s| {
      match MatchAt(s, i)
      case Some(m) =>
        FindAllOrdered(s, m.end);
        OrderedCons(m, FindAllFrom(s, m.end));
      case None =>
        FindAllOrdered(s, i + 1);
    }
  }

  /** The scan from `i` returns the match at `i` and then whatever the scan
      after it returns. */
  lemma FoundCons(s: string, i: nat, m: Match, x: Match)
    requires i < |s| && MatchAt(s, i) == Some(m)
    requires x == m || x in FindAllFrom(s, m.end)
    ensures x in FindAllFrom(s, i)
  {
    assert FindAllFrom(s, i) == [m] + FindAllFrom(s, m.end);
  }

  /** Some match covers position `p`. */
  predicate Covered(ms: seq<Match>, p: nat) {
    exists m :: m in ms && m.start <= p < m.end
  }

  /** A position is covered by the scan from `i` when the match at `i`
      covers it or the scan after that match does. */
  lemma CoveredCons(s: string, i: nat, m: Match, p: nat)
    requires i < |s| && MatchAt(s, i) == Some(m)
    requires m.start <= p < m.end || Covered(FindAllFrom(s, m.end), p)
    ensures Covered(FindAllFrom(s, i), p)
  {
    if m.start <= p < m.end {
      FoundCons(s, i, m, m);
    } else {
      var x :| x in FindAllFrom(s, m.end) && x.start <= p < x.end;
      FoundCons(s, i, m, x);
    }
  }

  /** Completeness of the scan: every position from `i` on where nine class
      characters start lies inside some match. Nothing that looks like a
      phone number is skipped. */
  lemma {:induction false} FindAllComplete(s: string, i: nat, p: nat)
    requires i <= p < |s| && RunLength(s, p) >= 9
    ensures Covered(FindAllFrom(s, i), p)
    decreases |s| - i
  {
    match MatchAt(s, i)
    case Some(m) =>
      if m.end <= p {
        FindAllComplete(s, m.end, p);
      }
      CoveredCons(s, i, m, p);
    case None =>
      assert p != i;
      FindAllComplete(s, i + 1, p);
  }

  /** The normalized form of a match is kept when, without leading `'+'`
      signs, it is 10 to 15 characters `isdigit` accepts. */
  predicate IsPlausible(n: string) {
    var digits := LStripChar(n, '+');
    IsDigitString(digits) && 10 <= |digits| <= 15
  }

  /** Every number in `cs` is plausible. */
  predicate AllPlausible(cs: seq<string>) {
    forall k :: 0 <= k < |cs| ==> IsPlausible(cs[k])
  }

  /** `normalize_buyer_phone` of every match, in order. */
  function NormalizeAll(matches: seq<string>): (r: seq<string>)
    ensures |r| == |matches|
  {
    seq(|matches|, k requires 0 <= k < |matches| => NormalizeBuyerPhone(matches[k]))
  }

  /** Keep the plausible numbers, in order. */
  function KeepPlausible(ns: seq<string>): (r: seq<string>)
    ensures |r| <= |ns|
  {
    if |ns| == 0 then []
    else if IsPlausible(ns[0]) then [ns[0]] + KeepPlausible(ns[1..])
    else KeepPlausible(ns[1..])
  }

  /** The filter keeps exactly the plausible numbers: a number is kept if and
      only if it occurs and is plausible. */
  lemma {:induction false} KeepPlausibleIsFilter(ns: seq<string>)
    ensures AllPlausible(KeepPlausible(ns))
    ensures forall x :: x in KeepPlausible(ns) <==> x in ns && IsPlausible(x)
  {
    if |ns| > 0 {
      var head, tail := ns[0], ns[1..];
      KeepPlausibleIsFilter(tail);
      assert ns == [head] + tail;
      if IsPlausible(head) {
        PlausibleCons(head, KeepPlausible(tail));
      }
    }
  }

  /** A plausible number in front of plausible numbers. */
  lemma PlausibleCons(n: string, rest: seq<string>)
    requires IsPlausible(n) && AllPlausible(rest)
    ensures AllPlausible([n] + rest)
  {
    var r := [n] + rest;
    forall k | 0 <= k < |r|
      ensures IsPlausible(r[k])
    {
      if k > 0 {
        assert r[k] == rest[k - 1];
      }
    }
  }

  /** The candidates one message contributes, in match order: every match,
      normalized, kept when plausible. */
  function MessageCandidates(text: string): seq<string> {
    KeepPlausible(NormalizeAll(FindAll(TranslateDigits(text))))
  }

  /** A number is a candidate of a message if and only if it is plausible
      and is the normalized form of one of the message's matches. */
  lemma MessageCandidatesAreMatches(text: string)
    ensures AllPlausible(MessageCandidates(text))
    ensures var ns := NormalizeAll(FindAll(TranslateDigits(text)));
            forall x :: x in MessageCandidates(text) <==> x in ns && IsPlausible(x)
  {
    KeepPlausibleIsFilter(NormalizeAll(FindAll(TranslateDigits(text))));
  }

  /** The lists of a sequence of lists, joined in order. */
  function Flatten(ls: seq<seq<string>>): seq<string> {
    if |ls| == 0 then [] else ls[0] + Flatten(ls[1..])
  }

  /** An element of the joined list is an element of one of the lists, and
      conversely. */
  lemma {:induction false} FlattenMembers(ls: seq<seq<string>>)
    ensures forall x :: x in Flatten(ls) <==> exists i :: 0 <= i < |ls| && x in ls[i]
  {
    if |ls| > 0 {
      FlattenMembers(ls[1..]);
      forall x
        ensures x in ls[0] + Flatten(ls[1..]) <==> exists i :: 0 <= i < |ls| && x in ls[i]
      {
        if x in Flatten(ls[1..]) {
          var i :| 0 <= i < |ls[1..]| && x in ls[1..][i];
          assert ls[i + 1] == ls[1..][i];
        }
        if exists i :: 0 <= i < |ls| && x in ls[i] {
          var i :| 0 <= i < |ls| && x in ls[i];
          if i > 0 {
            assert ls[i] == ls[1..][i - 1];
          }
        }
      }
    }
  }

  /** Joining two lists of plausible numbers gives one. */
  lemma AllPlausibleConcat(a: seq<string>, b: seq<string>)
    requires AllPlausible(a) && AllPlausible(b)
    ensures AllPlausible(a + b)
  {
    var r := a + b;
    forall k | 0 <= k < |r|
      ensures IsPlausible(r[k])
    {
      if k < |a| {
        assert r[k] == a[k];
      } else {
        assert r[k] == b[k - |a|];
      }
    }
  }

  /** Joining lists of plausible numbers gives one. */
  lemma {:induction false} FlattenAllPlausible(ls: seq<seq<string>>)
    requires forall i :: 0 <= i < |ls| ==> AllPlausible(ls[i])
    ensures AllPlausible(Flatten(ls))
  {
    if |ls| > 0 {
      var rest := ls[1..];
      forall i | 0 <= i < |rest|
        ensures AllPlausible(rest[i])
      {
        assert rest[i] == ls[i + 1];
      }
      FlattenAllPlausible(rest);
      assert Flatten(ls) == ls[0] + Flatten(rest);
      AllPlausibleConcat(ls[0], Flatten(rest));
    }
  }

  /** The candidates of each message, message by message. */
  function PerMessage(texts: seq<string>): (r: seq<seq<string>>)
    ensures |r| == |texts|
  {
    seq(|texts|, i requires 0 <= i < |texts| => MessageCandidates(texts[i]))
  }

  /** The candidates of the whole transcript: those of each message in
      message order. */
  function Candidates(texts: seq<string>): seq<string> {
    Flatten(PerMessage(texts))
  }

  /** Every candidate is plausible, and the candidates are exactly those of
      the single messages. */
  lemma CandidatesArePlausible(texts: seq<string>)
    ensures AllPlausible(Candidates(texts))
    ensures forall x :: x in Candidates(texts) <==>
              exists i :: 0 <= i < |texts| && x in MessageCandidates(texts[i])
  {
    var ls := PerMessage(texts);
    forall i | 0 <= i < |ls|
      ensures AllPlausible(ls[i])
    {
      MessageCandidatesAreMatches(texts[i]);
    }
    FlattenAllPlausible(ls);
    FlattenMembers(ls);
    forall x | x in Candidates(texts)
      ensures exists i :: 0 <= i < |texts| && x in MessageCandidates(texts[i])
    {
      var i :| 0 <= i < |ls| && x in ls[i];
      assert ls[i] == MessageCandidates(texts[i]);
    }
    forall i, x | 0 <= i < |texts| && x in MessageCandidates(texts[i])
      ensures x in Candidates(texts)
    {
      assert x in ls[i];
    }
  }

  /** `score`: 3 for a `+98` or `0098` prefix, 2 for `98` or `09`, 1
      otherwise (the last three looked at after dropping leading `'+'`). */
  function Score(num: string): (r: int)
    ensures 1 <= r <= 3
    ensures StartsWith(num, "+98") || StartsWith(LStripChar(num, '+'), "0098") ==> r == 3
    ensures var n := LStripChar(num, '+');
            (!StartsWith(num, "+98") && !StartsWith(n, "0098") && (StartsWith(n, "98") || StartsWith(n, "09")))
              ==> r == 2
    ensures var n := LStripChar(num, '+');
            (!StartsWith(num, "+98") && !StartsWith(n, "0098") && !StartsWith(n, "98") && !StartsWith(n, "09"))
              ==> r == 1
  {
    var n := LStripChar(num, '+');
    if StartsWith(num, "+98") || StartsWith(n, "0098") then 3
    else if StartsWith(n, "98") then 2
    else if StartsWith(n, "09") then 2
    else 1
  }

  /** The sort key `(score(x), len(x))`. */
  datatype Key = Key(score: int, length: nat)

  function KeyOf(num: string): Key {
    Key(Score(num), |num|)
  }

  /** `a` sorts strictly before `b` in a descending sort on keys: tuples
      compare lexicographically. */
  predicate Above(a: Key, b: Key) {
    a.score > b.score || (a.score == b.score && a.length > b.length)
  }

  /** `a` sorts strictly before `b` under `key=(score, len), reverse=True`. */
  predicate Better(a: string, b: string) {
    Above(KeyOf(a), KeyOf(b))
  }

  /** The keys of the candidates, in order. */
  function Keys(c: seq<string>): (ks: seq<Key>)
    ensures |ks| == |c|
  {
    seq(|c|, i requires 0 <= i < |c| => KeyOf(c[i]))
  }

  /** The position `candidates[0]` comes from after the stable descending
      sort: a later key replaces the pick only when strictly above it. */
  function BestIndex(ks: seq<Key>): (r: nat)
    requires |ks| > 0
    ensures r < |ks|
  {
    if |ks| == 1 then 0
    else
      var k := BestIndex(ks[..|ks| - 1]);
      if Above(ks[|ks| - 1], ks[k]) then |ks| - 1 else k
  }

  /** No key is above `ks[r]`. */
  predicate NoneAbove(ks: seq<Key>, r: nat)
    requires r < |ks|
  {
    forall j :: 0 <= j < |ks| ==> !Above(ks[j], ks[r])
  }

  /** Every key before `ks[r]` is strictly below it. */
  predicate EarlierBelow(ks: seq<Key>, r: nat)
    requires r < |ks|
  {
    forall j :: 0 <= j < r ==> Above(ks[r], ks[j])
  }

  /** A new last key above the best of the others becomes the first of the
      best. */
  lemma LastBecomesBest(ks: seq<Key>, k: nat)
    requires k < |ks| - 1
    requires NoneAbove(ks[..|ks| - 1], k) && EarlierBelow(ks[..|ks| - 1], k)
    requires Above(ks[|ks| - 1], ks[k])
    ensures NoneAbove(ks, |ks| - 1) && EarlierBelow(ks, |ks| - 1)
  {
    var prefix := ks[..|ks| - 1];
    var last := |ks| - 1;
    forall j | 0 <= j < last
      ensures !Above(ks[j], ks[last]) && Above(ks[last], ks[j])
    {
      assert ks[j] == prefix[j] && ks[k] == prefix[k];
      assert !Above(prefix[j], prefix[k]);
    }
  }

  /** A new last key not above the best of the others leaves the pick where
      it was. */
  lemma BestStaysBest(ks: seq<Key>, k: nat)
    requires k < |ks| - 1
    requires NoneAbove(ks[..|ks| - 1], k) && EarlierBelow(ks[..|ks| - 1], k)
    requires !Above(ks[|ks| - 1], ks[k])
    ensures NoneAbove(ks, k) && EarlierBelow(ks, k)
  {
    var prefix := ks[..|ks| - 1];
    forall j | 0 <= j < |ks| - 1
      ensures !Above(ks[j], ks[k]) && (j < k ==> Above(ks[k], ks[j]))
    {
      assert ks[j] == prefix[j] && ks[k] == prefix[k];
    }
  }

  /** No key is above the one picked, and every earlier key is strictly
      below it: the pick is the first of the best. */
  lemma {:induction false} BestIndexIsFirstBest(ks: seq<Key>)
    requires |ks| > 0
    ensures NoneAbove(ks, BestIndex(ks)) && EarlierBelow(ks, BestIndex(ks))
  {
    if |ks| > 1 {
      var prefix := ks[..|ks| - 1];
      var k := BestIndex(prefix);
      BestIndexIsFirstBest(prefix);
      assert ks[k] == prefix[k];
      if Above(ks[|ks| - 1], ks[k]) {
        LastBecomesBest(ks, k);
      } else {
        BestStaysBest(ks, k);
      }
    }
  }

  /** `find_buyer_phone_from_conversation` over the message texts (each the
      `str()` of a message's `text`, `""` when missing or falsy): the best
      candidate, or `""` when there is none. */
  function FindBuyerPhone(texts: seq<string>): string {
    var c := Candidates(texts);
    if |c| == 0 then "" else c[BestIndex(Keys(c))]
  }

  /** A number is found exactly when some candidate exists, and what is found
      is plausible: 10 to 15 digits after any leading `'+'`. */
  lemma FindBuyerPhoneFindsCandidate(texts: seq<string>)
    ensures FindBuyerPhone(texts) == "" <==> |Candidates(texts)| == 0
    ensures FindBuyerPhone(texts) != "" ==> IsPlausible(FindBuyerPhone(texts))
  {
    var c := Candidates(texts);
    CandidatesArePlausible(texts);
    if |c| > 0 {
      assert AllPlausible(c);
      var r := c[BestIndex(Keys(c))];
      assert IsPlausible(r);
      assert |LStripChar(r, '+')| <= |r|;
    }
  }

  /** A candidate of one message is the normalized form of one of its
      matches. */
  lemma CandidateIsNormalizedMatch(text: string, x: string)
    requires x in MessageCandidates(text)
    ensures exists m :: m in FindAll(TranslateDigits(text)) && x == NormalizeBuyerPhone(m)
  {
    MessageCandidatesAreMatches(text);
    var ms := FindAll(TranslateDigits(text));
    var ns := NormalizeAll(ms);
    var j :| 0 <= j < |ns| && ns[j] == x;
    assert ms[j] in ms;
  }

  /** The number found is the normalized form of a match in one of the
      messages. */
  lemma FoundIsNormalizedMatch(texts: seq<string>)
    requires FindBuyerPhone(texts) != ""
    ensures exists i, m :: 0 <= i < |texts| && m in FindAll(TranslateDigits(texts[i]))
              && FindBuyerPhone(texts) == NormalizeBuyerPhone(m)
  {
    var found := FindBuyerPhone(texts);
    var c := Candidates(texts);
    assert found in c by {
      FindBuyerPhoneFindsCandidate(texts);
      assert found == c[BestIndex(Keys(c))];
    }
    CandidatesArePlausible(texts);
    var i :| 0 <= i < |texts| && found in MessageCandidates(texts[i]);
    CandidateIsNormalizedMatch(texts[i], found);
    var m :| m in FindAll(TranslateDigits(texts[i])) && found == NormalizeBuyerPhone(m);
    assert 0 <= i < |texts| && m in FindAll(TranslateDigits(texts[i])) && found == NormalizeBuyerPhone(m);
  }

  /** The number found is free of spaces, hyphens and Persian or
      Arabic-Indic digits. */
  lemma FoundIsClean(texts: seq<string>)
    ensures IsPhoneClean(FindBuyerPhone(texts))
  {
    if FindBuyerPhone(texts) != "" {
      FoundIsNormalizedMatch(texts);
      var i, m :| 0 <= i < |texts| && m in FindAll(TranslateDigits(texts[i]))
                  && FindBuyerPhone(texts) == NormalizeBuyerPhone(m);
      BuyerPhoneIsClean(m);
    }
  }

  /** The number picked is one of the candidates, none is better, and it is
      the first of the best: among equally good numbers the earliest one
      mentioned wins. */
  lemma FindBuyerPhoneIsBest(texts: seq<string>)
    requires |Candidates(texts)| > 0
    ensures var c := Candidates(texts);
            exists i :: 0 <= i < |c| && FindBuyerPhone(texts) == c[i]
              && (forall j :: 0 <= j < |c| ==> !Better(c[j], c[i]))
              && (forall j :: 0 <= j < i ==> Better(c[i], c[j]))
  {
    var c := Candidates(texts);
    var ks := Keys(c);
    var i := BestIndex(ks);
    BestIndexIsFirstBest(ks);
    assert FindBuyerPhone(texts) == c[i];
    forall j | 0 <= j < |c|
      ensures !Better(c[j], c[i]) && (j < i ==> Better(c[i], c[j]))
    {
      assert ks[j] == KeyOf(c[j]) && ks[i] == KeyOf(c[i]);
    }
  }

  /** Nothing but ASCII digits. */
  predicate AsciiDigits(d: string) {
    forall k :: 0 <= k < |d| ==> '0' <= d[k] <= '9'
  }

  /** Nothing but `'+'` signs and ASCII digits. */
  predicate PlainNumber(x: string) {
    forall k :: 0 <= k < |x| ==> x[k] == '+' || '0' <= x[k] <= '9'
  }

  lemma PlainNumberUntranslated(x: string)
    requires PlainNumber(x)
    ensures TranslateDigits(x) == x
  {
    assert NoEasternDigit(x);
    TranslateDigitsFacts(x);
  }

  lemma PlainNumberUnseparated(x: string)
    requires PlainNumber(x)
    ensures RemoveSeparators(x) == x
  {
    RemoveCharAbsent(x, ' ');
    RemoveCharAbsent(x, '-');
  }

  lemma PlainNumberUnstripped(x: string)
    requires PlainNumber(x) && |x| > 0 && '0' <= x[|x| - 1] <= '9'
    ensures Strip(x) == x
  {
    assert !IsSpace(x[0]);
    StripOfStripped(x);
  }

  /** A string of `'+'` signs and ASCII digits that ends in a digit is its
      own `normalize_buyer_phone`: there is nothing to map, remove or strip. */
  lemma PlainNumberIsNormal(x: string)
    requires PlainNumber(x) && |x| > 0 && '0' <= x[|x| - 1] <= '9'
    ensures NormalizeBuyerPhone(x) == x
  {
    PlainNumberUntranslated(x);
    PlainNumberUnseparated(x);
    PlainNumberUnstripped(x);
    assert NormalizeBuyerPhone(x) ==
      if StartsWith(x, "+") && !StartsWith(x, "+") then "+" + LStripChar(x, '+') else x;
  }

  /** ASCII digits behind an optional `'+'` are a plain number, and
      `lstrip('+')` gives back the digits. */
  lemma DigitsArePlain(d: string, plus: bool)
    requires |d| > 0 && AsciiDigits(d)
    ensures var x := if plus then "+" + d else d;
            PlainNumber(x) && LStripChar(x, '+') == d && '0' <= x[|x| - 1] <= '9'
  {
    var x := if plus then "+" + d else d;
    if plus {
      assert x[1..] == d;
      forall k | 0 <= k < |x|
        ensures x[k] == '+' || '0' <= x[k] <= '9'
      {
        if k > 0 {
          assert x[k] == d[k - 1];
        }
      }
    }
    assert x[|x| - 1] == d[|d| - 1];
  }

  /** A run of ASCII digits, with or without one `'+'` in front, is its own
      `normalize_buyer_phone`, and it is plausible when it has 10 to 15
      digits. */
  lemma DigitsNormalizeToThemselves(d: string, plus: bool)
    requires |d| > 0 && AsciiDigits(d)
    ensures var x := if plus then "+" + d else d;
            NormalizeBuyerPhone(x) == x && (10 <= |d| <= 15 ==> IsPlausible(x))
  {
    var x := if plus then "+" + d else d;
    DigitsArePlain(d, plus);
    PlainNumberIsNormal(x);
    DigitsAreDigitString(d);
  }

  lemma DigitsAreDigitString(d: string)
    requires |d| > 0 && AsciiDigits(d)
    ensures IsDigitString(d)
  {
  }

  /** A run of 10 to 15 decimal digits in `t[p..q]` with no class character
      on either side: a character outside `[\d\s\-]` or the text's end. */
  predicate IsolatedDigitRun(t: string, p: nat, q: nat) {
    && p < q <= |t| && 10 <= q - p <= 15
    && (forall k :: p <= k < q ==> IsDecimal(t[k]))
    && (p > 0 ==> !InClass(t[p - 1]))
    && (q < |t| ==> !InClass(t[q]))
  }

  /** After digit translation an isolated run is a run of ASCII digits that
      fills the class run where it starts, and the character before it is
      unchanged. */
  lemma TranslatedRun(t: string, p: nat, q: nat)
    requires IsolatedDigitRun(t, p, q)
    ensures var s := TranslateDigits(t);
            && s[p..q] == TranslateDigits(t[p..q])
            && AsciiDigits(s[p..q])
            && RunLength(s, p) == q - p
            && (p > 0 ==> s[p - 1] == t[p - 1] && !InClass(s[p - 1]))
  {
    var s := TranslateDigits(t);
    var d := s[p..q];
    assert d == TranslateDigits(t[p..q]);
    forall k | p <= k < q
      ensures '0' <= s[k] <= '9'
    {
      assert s[k] == MapDigit(t[k]);
    }
    assert AsciiDigits(d) by {
      forall k | 0 <= k < |d| ensures '0' <= d[k] <= '9' {
        assert d[k] == s[p + k];
      }
    }
    assert q < |s| ==> !InClass(s[q]) by {
      if q < |s| {
        assert s[q] == MapDigit(t[q]);
      }
    }
    if p > 0 {
      assert s[p - 1] == MapDigit(t[p - 1]);
    }
    ClassPrefix(s, p, q - p);
  }

  /** The first position of the match a digit run gives: the `'+'` just
      before the run if there is one, else the run's own start. */
  function RunMatchStart(s: string, p: nat): nat
    requires p <= |s|
  {
    if p > 0 && s[p - 1] == '+' then p - 1 else p
  }

  /** A match covering the position where such a run's match starts begins
      there and ends with the run. */
  lemma MatchCoveringRun(s: string, p: nat, q: nat, j: nat, e: nat)
    requires p < q <= |s| && 9 <= q - p <= 20 && RunLength(s, p) == q - p && s[p] != '+'
    requires p > 0 ==> !InClass(s[p - 1])
    requires j <= RunMatchStart(s, p) < e <= |s|
    requires IsPhoneRun(s[j..e]) && StopsAtRunEnd(s, Match(j, e))
    ensures j == RunMatchStart(s, p) && e == q
  {
    PhoneRunAt(s, j, e);
    var b := if s[j] == '+' then j + 1 else j;
    assert forall k :: b <= k < e ==> InClass(s[k]);
    assert !InClass('+');
  }

  /** The scan from any `i` up to where such a run's match starts reaches
      that match: a match begun before it would have to cover it, and so be
      it. */
  lemma {:induction false} ScanFindsRunFrom(s: string, i: nat, p: nat, q: nat)
    requires p < q <= |s| && 9 <= q - p <= 20 && RunLength(s, p) == q - p && s[p] != '+'
    requires p > 0 ==> !InClass(s[p - 1])
    requires i <= RunMatchStart(s, p)
    ensures Match(RunMatchStart(s, p), q) in FindAllFrom(s, i)
    decreases |s| - i
  {
    var c := RunMatchStart(s, p);
    match MatchAt(s, i)
    case Some(m) =>
      if m.end <= c {
        ScanFindsRunFrom(s, m.end, p, q);
      } else {
        MatchCoveringRun(s, p, q, i, m.end);
      }
      FoundCons(s, i, m, Match(c, q));
    case None =>
      assert i != c;
      ScanFindsRunFrom(s, i + 1, p, q);
  }

  /** Where a class run of 9 to 20 characters starts right after a
      character outside the class, the scan returns a match that ends with
      the run and starts at it, or at the `'+'` just before it. */
  lemma ScanFindsRun(s: string, p: nat, q: nat)
    requires p < q <= |s| && 9 <= q - p <= 20 && RunLength(s, p) == q - p && s[p] != '+'
    requires p > 0 ==> !InClass(s[p - 1])
    ensures Match(RunMatchStart(s, p), q) in FindAllFrom(s, 0)
  {
    ScanFindsRunFrom(s, 0, p, q);
  }

  /** The plausible normalized text of any match the scan returns on a
      message's translated text is a candidate of that message. */
  lemma MatchIsCandidate(t: string, j: nat, q: nat)
    requires Match(j, q) in FindAllFrom(TranslateDigits(t), 0)
    requires IsPlausible(NormalizeBuyerPhone(TranslateDigits(t)[j..q]))
    ensures NormalizeBuyerPhone(TranslateDigits(t)[j..q]) in MessageCandidates(t)
  {
    var s := TranslateDigits(t);
    var ms := FindAllFrom(s, 0);
    var k :| 0 <= k < |ms| && ms[k] == Match(j, q);
    var texts := FindAll(s);
    assert texts[k] == s[j..q];
    var ns := NormalizeAll(texts);
    var x := ns[k];
    assert x == NormalizeBuyerPhone(s[j..q]);
    assert x in ns;
    MessageCandidatesAreMatches(t);
  }

  /** The text of the match a run gives: the run, behind its `'+'` if one
      is written just before it. */
  lemma RunMatchText(s: string, p: nat, q: nat)
    requires p < q <= |s|
    ensures s[RunMatchStart(s, p)..q] == if p > 0 && s[p - 1] == '+' then "+" + s[p..q] else s[p..q]
  {
    if p > 0 && s[p - 1] == '+' {
      assert s[p - 1..q] == [s[p - 1]] + s[p..q];
    }
  }

  /** A digit run on its own in a message's text is one of that message's
      candidates: its digit-mapped form, behind the `'+'` written just before
      it if there is one. */
  lemma IsolatedRunIsCandidate(t: string, p: nat, q: nat)
    requires IsolatedDigitRun(t, p, q)
    ensures var d := TranslateDigits(t[p..q]);
            (if p > 0 && t[p - 1] == '+' then "+" + d else d) in MessageCandidates(t)
  {
    var s := TranslateDigits(t);
    var d := TranslateDigits(t[p..q]);
    TranslatedRun(t, p, q);
    var plus := p > 0 && t[p - 1] == '+';
    var j := RunMatchStart(s, p);
    var x := if plus then "+" + d else d;
    assert Match(j, q) in FindAllFrom(s, 0) by {
      assert s[p] == d[0];
      ScanFindsRun(s, p, q);
    }
    assert s[j..q] == x by {
      RunMatchText(s, p, q);
    }
    assert IsPlausible(x) && NormalizeBuyerPhone(x) == x by {
      DigitsNormalizeToThemselves(d, plus);
    }
    MatchIsCandidate(t, j, q);
  }

  /** A message holding 10 to 15 decimal digits in a row, with no other
      class character next to them, makes the heuristic find a number, and
      the number found is at least as good as that run's. */
  lemma IsolatedRunIsFound(texts: seq<string>, i: nat, p: nat, q: nat)
    requires i < |texts| && IsolatedDigitRun(texts[i], p, q)
    ensures var d := TranslateDigits(texts[i][p..q]);
            var x := if p > 0 && texts[i][p - 1] == '+' then "+" + d else d;
            && x in Candidates(texts)
            && FindBuyerPhone(texts) != ""
            && !Better(x, FindBuyerPhone(texts))
  {
    var d := TranslateDigits(texts[i][p..q]);
    var x := if p > 0 && texts[i][p - 1] == '+' then "+" + d else d;
    IsolatedRunIsCandidate(texts[i], p, q);
    CandidatesArePlausible(texts);
    var c := Candidates(texts);
    assert x in c;
    FindBuyerPhoneFindsCandidate(texts);
    FindBuyerPhoneIsBest(texts);
  }

  /** On a string of 9 to 20 ASCII digits the scan finds the whole string
      and nothing else. */
  lemma ScanOfDigitsOnly(s: string)
    requires 9 <= |s| <= 20 && AsciiDigits(s)
    ensures FindAll(s) == [s]
  {
    ClassPrefix(s, 0, |s|);
    assert MatchAt(s, 0) == Some(Match(0, |s|)) by {
      assert s[0] != '+';
      PhoneRunAt(s, 0, |s|);
      MatchAtIsLongest(s, 0);
    }
    assert FindAllFrom(s, 0) == [Match(0, |s|)] + FindAllFrom(s, |s|);
    assert s[0..|s|] == s;
  }

  /** Decimal digits translate to ASCII digits. */
  lemma TranslateDecimals(text: string)
    requires forall k :: 0 <= k < |text| ==> IsDecimal(text[k])
    ensures AsciiDigits(TranslateDigits(text))
  {
    var s := TranslateDigits(text);
    forall k | 0 <= k < |s| ensures '0' <= s[k] <= '9' {
      assert s[k] == MapDigit(text[k]);
    }
  }

  /** The one candidate of a message of 10 to 15 ASCII digits is the
      message itself. */
  lemma DigitsOnlyCandidates(s: string)
    requires 10 <= |s| <= 15 && AsciiDigits(s)
    ensures KeepPlausible(NormalizeAll(FindAll(s))) == [s]
  {
    ScanOfDigitsOnly(s);
    DigitsNormalizeToThemselves(s, false);
    assert NormalizeAll([s]) == [s];
    assert KeepPlausible([s]) == [s] + KeepPlausible([]);
  }

  /** A transcript of one message with one candidate finds that candidate. */
  lemma SingleCandidate(text: string, x: string)
    requires MessageCandidates(text) == [x]
    ensures FindBuyerPhone([text]) == x
  {
    assert PerMessage([text]) == [[x]];
    assert Flatten([[x]]) == [x] + Flatten([]);
  }

  /** A message that is nothing but 10 to 15 decimal digits gives exactly
      those digits in ASCII. */
  lemma DigitsOnlyMessage(text: string)
    requires 10 <= |text| <= 15 && forall k :: 0 <= k < |text| ==> IsDecimal(text[k])
    ensures FindBuyerPhone([text]) == TranslateDigits(text)
  {
    var s := TranslateDigits(text);
    TranslateDecimals(text);
    DigitsOnlyCandidates(s);
    SingleCandidate(text, s);
  }

  /** `"۰۹۱۲۳۴۵۶۷۸۹"` is eleven Persian digits that translate to
      `"09123456789"`. */
  lemma PersianMobileDigits(text: string, want: string)
    requires text == "\U{6F0}\U{6F9}\U{6F1}\U{6F2}\U{6F3}\U{6F4}\U{6F5}\U{6F6}\U{6F7}\U{6F8}\U{6F9}"
    requires want == "09123456789"
    ensures |text| == 11 && forall k :: 0 <= k < |text| ==> IsDecimal(text[k])
    ensures TranslateDigits(text) == want
  {
    var t := TranslateDigits(text);
    forall k | 0 <= k < 11
      ensures t[k] == want[k]
    {
      assert t[k] == MapDigit(text[k]);
    }
  }

  /** The worked example: a message `"۰۹۱۲۳۴۵۶۷۸۹"` in Persian digits gives
      `"09123456789"`. */
  lemma PersianMobileExample(text: string, want: string)
    requires text == "\U{6F0}\U{6F9}\U{6F1}\U{6F2}\U{6F3}\U{6F4}\U{6F5}\U{6F6}\U{6F7}\U{6F8}\U{6F9}"
    requires want == "09123456789"
    ensures FindBuyerPhone([text]) == want
  {
    PersianMobileDigits(text, want);
    DigitsOnlyMessage(text);
  }
}
