/**
  `AnimationSelector` in `api/services/animation_service.py`: picks the
  avatar animation for a reply text from a table of contexts, each with
  regular-expression patterns, an animation and a priority, and summarises
  a text (question or not, digits or not, length class).

  Regular-expression search is not modelled: it is a parameter `search`
  that answers `Some(found)` for a valid pattern and `None` where Python
  raises `re.error`; the `re.IGNORECASE` flag is part of it. As shipped the
  table is empty.
 */
module Animation {
  import opened Wrappers
  import opened PyText

  /** `AnimationType.STANDING_IDLE`, the default and the only member left
      in the enum. */
  const StandingIdle := "StandingIdle"

  /** One context of `self.patterns`, in the dict's insertion order. */
  datatype ContextConfig = ContextConfig(context: string, patterns: seq<string>, animation: string, priority: int)

  /** `re.search(pattern, text, re.IGNORECASE)`: `None` for an invalid
      pattern. */
  type Search = (string, string) -> Option<bool>

  /** Some pattern of the list finds a match; an invalid pattern is skipped. */
  predicate AnyPatternMatches(patterns: seq<string>, search: Search, text: string) {
    exists i :: 0 <= i < |patterns| && search(patterns[i], text) == Some(true)
  }

  /** The contexts that match, in table order: one entry per context, since
      the inner loop stops at its first matching pattern. */
  function Matched(table: seq<ContextConfig>, search: Search, text: string): (r: seq<ContextConfig>)
    ensures |r| <= |table|
  {
    if |table| == 0 then []
    else
      var rest := Matched(table[1..], search, text);
      if AnyPatternMatches(table[0].patterns, search, text) then [table[0]] + rest else rest
  }

  /** A matched context is a context of the table that matches, and every
      matching context of the table is matched. */
  lemma {:induction false} MatchedIsFilter(table: seq<ContextConfig>, search: Search, text: string)
    ensures forall c :: c in Matched(table, search, text) <==>
              c in table && AnyPatternMatches(c.patterns, search, text)
  {
    if |table| > 0 {
      MatchedIsFilter(table[1..], search, text);
      assert table == [table[0]] + table[1..];
    }
  }

  /** `not text or not text.strip()`. */
  predicate IsBlank(text: string) {
    text == "" || Strip(text) == ""
  }

  /** Position `k` holds the entry `matches.sort(key=priority)` puts first:
      an entry of least priority with every earlier entry of greater
      priority, since the sort is stable. */
  predicate FirstLeast(m: seq<ContextConfig>, k: int) {
    && 0 <= k < |m|
    && (forall j :: 0 <= j < |m| ==> m[k].priority <= m[j].priority)
    && (forall j :: 0 <= j < k ==> m[j].priority > m[k].priority)
  }

  /** The position of the entry the sort puts first. */
  method FirstLeastPriority(m: seq<ContextConfig>) returns (best: nat)
    requires |m| > 0
    ensures FirstLeast(m, best)
  {
    best := 0;
    var i := 1;
    while i < |m|
      invariant 0 <= best < i <= |m|
      invariant forall j :: 0 <= j < i ==> m[best].priority <= m[j].priority
      invariant forall j :: 0 <= j < best ==> m[j].priority > m[best].priority
    {
      if m[i].priority < m[best].priority {
        best := i;
      }
      i := i + 1;
    }
  }

  /** `select_animation`: the default for a blank text; otherwise the text is
      lower-cased and stripped, and the animation of the earliest matching
      context of least priority is chosen, or the default when nothing
      matches. */
  method SelectAnimation(table: seq<ContextConfig>, search: Search, text: string) returns (animation: string)
    ensures IsBlank(text) ==> animation == StandingIdle
    ensures var m := Matched(table, search, Strip(Lower(text)));
            !IsBlank(text) && |m| == 0 ==> animation == StandingIdle
    ensures var m := Matched(table, search, Strip(Lower(text)));
            !IsBlank(text) && |m| > 0 ==>
              exists k :: FirstLeast(m, k) && animation == m[k].animation
  {
    if IsBlank(text) {
      return StandingIdle;
    }
    var m := Matched(table, search, Strip(Lower(text)));
    if |m| == 0 {
      return StandingIdle;
    }
    var k := FirstLeastPriority(m);
    animation := m[k].animation;
    assert FirstLeast(m, k) && animation == m[k].animation;
  }

  /** With the table as shipped (`self.patterns = {}`) every text gets the
      default animation. */
  lemma ShippedTableAlwaysIdle(search: Search, text: string)
    ensures Matched([], search, Strip(Lower(text))) == []
  {
  }

  /** The chosen animation is the animation of some context of the table
      that matches, or the default. */
  lemma SelectedComesFromTable(table: seq<ContextConfig>, search: Search, text: string, k: nat)
    requires k < |Matched(table, search, text)|
    ensures var c := Matched(table, search, text)[k];
            c in table && AnyPatternMatches(c.patterns, search, text)
  {
    MatchedIsFilter(table, search, text);
    assert Matched(table, search, text)[k] in Matched(table, search, text);
  }

  /** `get_animation_for_context`: the animation of the named context, or
      the default when the table has none. The table stands for a dict, whose
      keys are distinct; should a context occur twice, its first entry is
      the one used. */
  function AnimationForContext(table: seq<ContextConfig>, context: string): (r: string)
    ensures (forall i :: 0 <= i < |table| ==> table[i].context != context) ==> r == StandingIdle
    ensures (exists i :: 0 <= i < |table| && table[i].context == context) ==>
              exists i :: 0 <= i < |table| && table[i].context == context && r == table[i].animation
                && forall j :: 0 <= j < i ==> table[j].context != context
  {
    if |table| == 0 then StandingIdle
    else if table[0].context == context then table[0].animation
    else
      var r := AnimationForContext(table[1..], context);
      assert forall i :: 1 <= i < |table| ==> table[i] == table[1..][i - 1];
      r
  }

  /** Looking up a context in a table extended by one entry: the entry's own
      context finds the entry when it comes first, and any other context reads
      as in the table without it, as for a dict insertion. */
  lemma {:induction false} AnimationForContextExtend(table: seq<ContextConfig>, c: ContextConfig, context: string)
    requires forall i :: 0 <= i < |table| ==> table[i].context != c.context
    ensures AnimationForContext(table + [c], c.context) == c.animation
    ensures context != c.context ==> AnimationForContext(table + [c], context) == AnimationForContext(table, context)
  {
    if |table| > 0 {
      assert (table + [c])[0] == table[0];
      assert (table + [c])[1..] == table[1..] + [c];
      AnimationForContextExtend(table[1..], c, context);
    } else {
      assert [c][1..] == [];
    }
  }

  /** How long a text is, by its number of words. */
  datatype LengthCategory = Short | Medium | Long

  function Category(wordCount: nat): (r: LengthCategory)
    ensures r == Short <==> wordCount <= 3
    ensures r == Long <==> wordCount > 10
  {
    if wordCount <= 3 then Short else if wordCount <= 10 then Medium else Long
  }

  /** The second question-mark literal of `analyze_text_emotion` as written:
      the UTF-8 bytes of the Arabic question mark U+061F read as Windows-1252,
      two characters. */
  const MangledQuestionMark := "\U{D8}\U{178}"

  /** The Arabic question mark. */
  const ArabicQuestionMark := "\U{61F}"

  /** `is_question` as written: the stripped text ends in `"?"` or in the
      mangled two-character literal. */
  predicate IsQuestionAsWritten(text: string) {
    EndsWith(Strip(text), "?") || EndsWith(Strip(text), MangledQuestionMark)
  }

  /** `is_question` as intended: the stripped text ends in `"?"` or in the
      Arabic question mark. */
  predicate IsQuestion(text: string) {
    EndsWith(Strip(text), "?") || EndsWith(Strip(text), ArabicQuestionMark)
  }

  /** A text is a question exactly when its last non-whitespace character
      is one of the two question marks. */
  lemma IsQuestionIsLastChar(text: string)
    ensures var s := Strip(text);
            IsQuestion(text) <==> |s| > 0 && (s[|s| - 1] == '?' || s[|s| - 1] == '\U{61F}')
  {
    var s := Strip(text);
    assert "?" == ['?'];
    assert ArabicQuestionMark == ['\U{61F}'];
    EndsWithChar(s, '?');
    EndsWithChar(s, '\U{61F}');
  }

  /** A Persian question ending in the Arabic question mark is not a
      question as written, though it is one as intended. */
  lemma ArabicQuestionMissedAsWritten(text: string)
    requires text == "\U{686}\U{637}\U{648}\U{631}\U{61F}"
    ensures !IsQuestionAsWritten(text)
    ensures IsQuestion(text)
  {
    assert !IsSpace('\U{686}') && !IsSpace('\U{61F}');
    StripOfStripped(text);
    assert text[|text| - 1..] == ArabicQuestionMark;
    assert text[|text| - 1] != '?';
    assert text[|text| - 2] != '\U{D8}';
  }

  /** The two question tests differ only on texts whose stripped form ends in
      the Arabic question mark or in the mangled literal. */
  lemma QuestionTestsAgree(text: string)
    requires !EndsWith(Strip(text), ArabicQuestionMark) && !EndsWith(Strip(text), MangledQuestionMark)
    ensures IsQuestion(text) <==> IsQuestionAsWritten(text)
  {
  }

  /** The summary `analyze_text_emotion` returns. */
  datatype Analysis = Analysis(animation: string, isQuestion: bool, hasData: bool,
                               lengthCategory: LengthCategory, wordCount: nat)

  /** `re.search(r"\d+", text)` finds something. */
  predicate HasDigit(text: string) {
    exists i :: 0 <= i < |text| && IsDecimal(text[i])
  }

  /** `analyze_text_emotion`, with the question test corrected. The word
      count is the number of tokens `split()` returns, which is the number
      of places where a word starts. */
  method AnalyzeTextEmotion(table: seq<ContextConfig>, search: Search, text: string) returns (a: Analysis)
    ensures a.isQuestion <==> IsQuestion(text)
    ensures a.hasData <==> HasDigit(text)
    ensures a.wordCount == WordStarts(text, true)
    ensures a.lengthCategory == Category(a.wordCount)
    ensures IsBlank(text) ==> a.animation == StandingIdle
    ensures var m := Matched(table, search, Strip(Lower(text)));
            !IsBlank(text) && |m| == 0 ==> a.animation == StandingIdle
    ensures var m := Matched(table, search, Strip(Lower(text)));
            !IsBlank(text) && |m| > 0 ==>
              exists k :: FirstLeast(m, k) && a.animation == m[k].animation
  {
    var animation := SelectAnimation(table, search, text);
    var words := Split(text);
    SplitCountsWordStarts(text);
    a := Analysis(animation, IsQuestion(text), HasDigit(text), Category(|words|), |words|);
  }
}
