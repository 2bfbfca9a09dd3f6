/**
  The string normalizers the extraction service applies to the language
  model's JSON (`api/services/extract_info_service.py`): digit-script
  mapping, flight-number canonicalisation, Persian-to-Latin name
  transliteration, ID and phone clean-up and the nationality lookup.

  Each source normalizer first returns `""` for a non-string value; that
  check lives with the JSON model in module `Extraction`, and the functions
  here take the string.
 */
module Normalize {
  import opened Wrappers
  import opened PyText

  /** A Persian (U+06F0-06F9) or Arabic-Indic (U+0660-0669) digit. */
  predicate IsEasternDigit(c: char) {
    ('\U{6F0}' <= c <= '\U{6F9}') || ('\U{660}' <= c <= '\U{669}')
  }

  /** The `digit_map` translation table applied to one character: each of
      the twenty Eastern digits becomes the ASCII digit of the same value. */
  function MapDigit(c: char): (r: char)
    ensures !IsEasternDigit(r)
    ensures IsEasternDigit(c) ==> '0' <= r <= '9'
    ensures !IsEasternDigit(c) ==> r == c
    ensures IsDecimal(r) <==> IsDecimal(c)
  {
    if '\U{6F0}' <= c <= '\U{6F9}' then (c as int - 0x6F0 + '0' as int) as char
    else if '\U{660}' <= c <= '\U{669}' then (c as int - 0x660 + '0' as int) as char
    else c
  }

  /** `value.translate(digit_map)`. */
  function TranslateDigits(s: string): (r: string)
    ensures |r| == |s|
    ensures forall i :: 0 <= i < |s| ==> r[i] == MapDigit(s[i])
  {
    seq(|s|, i requires 0 <= i < |s| => MapDigit(s[i]))
  }

  /** The `digit_map` literal, read off entry by entry: Persian zero to nine,
      then Arabic-Indic zero to nine, each mapped to the ASCII digit of the
      same value. */
  lemma DigitTableAsWritten(eastern: string, ascii: string)
    requires eastern == "\U{6F0}\U{6F1}\U{6F2}\U{6F3}\U{6F4}\U{6F5}\U{6F6}\U{6F7}\U{6F8}\U{6F9}\U{660}\U{661}\U{662}\U{663}\U{664}\U{665}\U{666}\U{667}\U{668}\U{669}"
    requires ascii == "01234567890123456789"
    ensures TranslateDigits(eastern) == ascii
  {
    var t := TranslateDigits(eastern);
    forall i | 0 <= i < 20
      ensures t[i] == ascii[i]
    {
      assert t[i] == MapDigit(eastern[i]);
    }
  }

  /** Digit translation only touches Eastern digits: the output has none
      left, every other character is where it was, and a string without
      Eastern digits is left as is. */
  lemma TranslateDigitsFacts(s: string)
    ensures forall i :: 0 <= i < |s| ==> !IsEasternDigit(TranslateDigits(s)[i])
    ensures forall i :: 0 <= i < |s| && !IsEasternDigit(s[i]) ==> TranslateDigits(s)[i] == s[i]
    ensures (forall i :: 0 <= i < |s| ==> !IsEasternDigit(s[i])) ==> TranslateDigits(s) == s
  {
  }

  /** No Eastern digit anywhere in `s`. */
  predicate NoEasternDigit(s: string) {
    forall i :: 0 <= i < |s| ==> !IsEasternDigit(s[i])
  }

  /** Removing characters never brings an Eastern digit back. */
  lemma RemoveCharKeepsNoEastern(s: string, c: char)
    requires NoEasternDigit(s)
    ensures NoEasternDigit(RemoveChar(s, c))
  {
  }

  /** A canonical flight number: no space, no hyphen, no Eastern digit and no
      lower-case ASCII letter. */
  predicate IsCanonicalFlightNumber(s: string) {
    forall i :: 0 <= i < |s| ==>
      s[i] != ' ' && s[i] != '-' && !IsEasternDigit(s[i]) && !IsAsciiLower(s[i])
  }

  /** `normalize_flight_number` on a string: digits to ASCII, every `' '` and
      `'-'` removed, then upper-cased. */
  function NormalizeFlightNumber(value: string): (r: string)
    ensures IsCanonicalFlightNumber(r)
    ensures |r| <= |value|
  {
    var t := TranslateDigits(value);
    var u := RemoveChar(RemoveChar(t, ' '), '-');
    assert NoEasternDigit(u) by {
      RemoveCharKeepsNoEastern(t, ' ');
      RemoveCharKeepsNoEastern(RemoveChar(t, ' '), '-');
    }
    Upper(u)
  }

  /** Digit translation works character by character. */
  lemma TranslateDigitsAppend(a: string, b: string)
    ensures TranslateDigits(a + b) == TranslateDigits(a) + TranslateDigits(b)
  {
  }

  /** Flight-number normalization works character by character: it
      distributes over concatenation. */
  lemma FlightNumberAppend(a: string, b: string)
    ensures NormalizeFlightNumber(a + b) == NormalizeFlightNumber(a) + NormalizeFlightNumber(b)
  {
    var ta, tb := TranslateDigits(a), TranslateDigits(b);
    TranslateDigitsAppend(a, b);
    RemoveCharAppend(ta, tb, ' ');
    var ua, ub := RemoveChar(ta, ' '), RemoveChar(tb, ' ');
    RemoveCharAppend(ua, ub, '-');
    UpperAppend(RemoveChar(ua, '-'), RemoveChar(ub, '-'));
  }

  /** What one character becomes: a space or hyphen is dropped, anything
      else is digit-mapped and upper-cased. Together with
      `FlightNumberAppend` this fixes the result for every input. */
  lemma FlightNumberChar(c: char)
    ensures NormalizeFlightNumber([c]) == if c == ' ' || c == '-' then [] else [UpperChar(MapDigit(c))]
  {
    var d := MapDigit(c);
    assert TranslateDigits([c]) == [d];
    assert RemoveChar([d], ' ') == (if d == ' ' then [] else [d]) + RemoveChar([], ' ');
    if d != ' ' {
      assert RemoveChar([d], '-') == (if d == '-' then [] else [d]) + RemoveChar([], '-');
    }
  }

  /** A canonical flight number is its own normal form, so normalizing is
      idempotent. */
  lemma FlightNumberFixpoint(value: string)
    requires IsCanonicalFlightNumber(value)
    ensures NormalizeFlightNumber(value) == value
  {
    var t := TranslateDigits(value);
    assert t == value;
    RemoveCharAbsent(value, ' ');
    RemoveCharAbsent(value, '-');
    assert Upper(value) == value;
  }

  lemma FlightNumberIdempotent(value: string)
    ensures NormalizeFlightNumber(NormalizeFlightNumber(value)) == NormalizeFlightNumber(value)
  {
    FlightNumberFixpoint(NormalizeFlightNumber(value));
  }

  /** The `persian_to_latin` table: `None` for a character not in it. */
  function Transliteration(c: char): (r: Option<string>)
    ensures r.Some? ==> |r.value| > 0 && forall i :: 0 <= i < |r.value| ==> IsAsciiUpper(r.value[i])
    ensures r.Some? ==> '\U{621}' <= c <= '\U{6CC}'
  {
    if c == '\U{622}' then Some("A")
    else if c == '\U{627}' then Some("A")
    else if c == '\U{628}' then Some("B")
    else if c == '\U{67E}' then Some("P")
    else if c == '\U{62A}' then Some("T")
    else if c == '\U{62B}' then Some("S")
    else if c == '\U{62C}' then Some("J")
    else if c == '\U{686}' then Some("CH")
    else if c == '\U{62D}' then Some("H")
    else if c == '\U{62E}' then Some("KH")
    else if c == '\U{62F}' then Some("D")
    else if c == '\U{630}' then Some("Z")
    else if c == '\U{631}' then Some("R")
    else if c == '\U{632}' then Some("Z")
    else if c == '\U{698}' then Some("ZH")
    else if c == '\U{633}' then Some("S")
    else if c == '\U{634}' then Some("SH")
    else if c == '\U{635}' then Some("S")
    else if c == '\U{636}' then Some("Z")
    else if c == '\U{637}' then Some("T")
    else if c == '\U{638}' then Some("Z")
    else if c == '\U{639}' then Some("A")
    else if c == '\U{63A}' then Some("GH")
    else if c == '\U{641}' then Some("F")
    else if c == '\U{642}' then Some("GH")
    else if c == '\U{6A9}' then Some("K")
    else if c == '\U{6AF}' then Some("G")
    else if c == '\U{644}' then Some("L")
    else if c == '\U{645}' then Some("M")
    else if c == '\U{646}' then Some("N")
    else if c == '\U{648}' then Some("V")
    else if c == '\U{647}' then Some("H")
    else if c == '\U{6CC}' then Some("Y")
    else if c == '\U{626}' then Some("E")
    else if c == '\U{621}' then Some("E")
    else if c == '\U{629}' then Some("H")
    else if c == '\U{623}' then Some("A")
    else if c == '\U{625}' then Some("E")
    else if c == '\U{624}' then Some("O")
    else if c == '\U{64A}' then Some("Y")
    else None
  }

  predicate InTable(c: char) { Transliteration(c).Some? }

  /** What one character becomes. */
  function TransliterateChar(c: char): (r: string)
    ensures forall i :: 0 <= i < |r| ==> !InTable(r[i])
    ensures !InTable(c) ==> r == [c]
  {
    match Transliteration(c)
    case Some(latin) => latin
    case None => [c]
  }

  /** The transliteration loop of `normalize_name`: every character in the
      table is replaced by its Latin string, every other character is kept. */
  function Transliterate(s: string): (r: string)
    ensures forall i :: 0 <= i < |r| ==> !InTable(r[i])
  {
    if |s| == 0 then "" else TransliterateChar(s[0]) + Transliterate(s[1..])
  }

  /** Transliteration works character by character: it distributes over
      concatenation. */
  lemma {:induction false} TransliterateAppend(a: string, b: string)
    ensures Transliterate(a + b) == Transliterate(a) + Transliterate(b)
  {
    if |a| == 0 {
      assert a + b == b;
    } else {
      assert (a + b)[1..] == a[1..] + b;
      TransliterateAppend(a[1..], b);
    }
  }

  /** A string with no table character is left as is. */
  lemma {:induction false} TransliterateNoTable(s: string)
    requires forall i :: 0 <= i < |s| ==> !InTable(s[i])
    ensures Transliterate(s) == s
  {
    if |s| > 0 {
      TransliterateNoTable(s[1..]);
    }
  }

  /** No character of the table in `s`. */
  predicate NoTableChar(s: string) {
    forall i :: 0 <= i < |s| ==> !InTable(s[i])
  }

  /** Title-casing a string with no table character adds none: table
      characters are uncased, and title-casing maps cased characters to cased
      characters and leaves uncased ones alone. */
  lemma TitleKeepsNoTable(s: string)
    requires NoTableChar(s)
    ensures NoTableChar(Title(s))
  {
    var t := Title(s);
    forall i | 0 <= i < |t|
      ensures !InTable(t[i])
    {
      if IsCased(s[i]) {
        TitleKeepsCasedness(s, false, i);
      } else {
        TitleKeepsUncased(s, false, i);
      }
    }
  }

  lemma StripKeepsNoTable(s: string)
    requires NoTableChar(s)
    ensures NoTableChar(Strip(s))
  {
    var l := LStrip(s);
    assert NoTableChar(l) by {
      forall i | 0 <= i < |l| ensures !InTable(l[i]) {
        assert l[i] == s[|s| - |l| + i];
      }
    }
  }

  /** `normalize_name` on a string: transliterate, then `strip()` and
      `title()`. Up to case, the result is the transliterated input with only
      surrounding whitespace cut off; it is in title form, no table character
      survives, and it has no surrounding whitespace. */
  function NormalizeName(value: string): (r: string)
    ensures IsTrimOf(Lower(r), Lower(Transliterate(value)))
    ensures Title(r) == r
    ensures NoTableChar(r)
    ensures NoSpaceAtEnds(r)
  {
    var t := Transliterate(value);
    var u := Strip(t);
    StripKeepsNoTable(t);
    TitleKeepsNoTable(u);
    TitleKeepsStripped(u);
    StripTrims(t);
    LowerTrims(u, t);
    LowerTitleFrom(u, false);
    TitleIdempotent(u, false);
    Title(u)
  }

  /** Normalizing a normalized name changes nothing. */
  lemma NormalizeNameIdempotent(value: string)
    ensures NormalizeName(NormalizeName(value)) == NormalizeName(value)
  {
    var n := NormalizeName(value);
    TransliterateNoTable(n);
    StripOfStripped(n);
    var u := Strip(Transliterate(value));
    TitleIdempotent(u, false);
  }

  /** `normalize_id_number` on a string: every ASCII space removed, then
      surrounding whitespace stripped. The result is the space-free input
      with only surrounding whitespace cut off, and no whitespace is left at
      its ends. */
  function NormalizeIdNumber(value: string): (r: string)
    ensures forall i :: 0 <= i < |r| ==> r[i] != ' '
    ensures IsTrimOf(r, RemoveChar(value, ' '))
    ensures NoSpaceAtEnds(r)
    ensures forall i :: 0 <= i < |r| ==> r[i] in value
  {
    var u := RemoveChar(value, ' ');
    var r := Strip(u);
    StripTrims(u);
    TrimKeepsChars(r, u);
    r
  }

  lemma NormalizeIdNumberIdempotent(value: string)
    ensures NormalizeIdNumber(NormalizeIdNumber(value)) == NormalizeIdNumber(value)
  {
    var n := NormalizeIdNumber(value);
    RemoveCharAbsent(n, ' ');
    StripOfStripped(n);
  }

  /** The separators `normalize_buyer_phone` drops: `' '` and `'-'`. */
  function RemoveSeparators(s: string): (r: string)
    ensures forall i :: 0 <= i < |r| ==> r[i] != ' ' && r[i] != '-'
    ensures NoEasternDigit(s) ==> IsPhoneClean(r)
  {
    RemoveChar(RemoveChar(s, ' '), '-')
  }

  /** The characters `normalize_buyer_phone` never leaves in its output. */
  predicate IsPhoneClean(s: string) {
    forall i :: 0 <= i < |s| ==> s[i] != ' ' && s[i] != '-' && !IsEasternDigit(s[i])
  }

  /** Putting one `'+'` in front of a suffix of a clean string keeps it clean. */
  lemma PlusSuffixIsClean(s: string, k: nat)
    requires IsPhoneClean(s) && k <= |s|
    ensures IsPhoneClean("+" + s[k..])
  {
    var r := "+" + s[k..];
    forall i | 0 <= i < |r|
      ensures r[i] != ' ' && r[i] != '-' && !IsEasternDigit(r[i])
    {
      if i > 0 {
        assert r[i] == s[k + i - 1];
      }
    }
  }

  /** Putting one `'+'` back in front of `s.lstrip('+')` leaves the
      `lstrip('+')` view unchanged. */
  lemma PlusBeforeStripped(s: string)
    ensures LStripChar("+" + LStripChar(s, '+'), '+') == LStripChar(s, '+')
  {
    var l := LStripChar(s, '+');
    assert ("+" + l)[1..] == l;
  }

  /** `normalize_buyer_phone` on a string: digits to ASCII, spaces and
      hyphens removed, and a leading `'+'` (after surrounding whitespace)
      kept in front. */
  function NormalizeBuyerPhone(value: string): string {
    var t := TranslateDigits(value);
    var n := RemoveSeparators(t);
    if StartsWith(Strip(t), "+") && !StartsWith(n, "+") then "+" + LStripChar(n, '+') else n
  }

  /** No space, hyphen or Eastern digit survives phone normalization. */
  lemma BuyerPhoneIsClean(value: string)
    ensures IsPhoneClean(NormalizeBuyerPhone(value))
  {
    var t := TranslateDigits(value);
    var n := RemoveSeparators(t);
    assert IsPhoneClean(n) by {
      assert NoEasternDigit(t);
    }
    assert IsPhoneClean("+" + LStripChar(n, '+')) by {
      PlusSuffixIsClean(n, |n| - |LStripChar(n, '+')|);
    }
  }

  /** A number written with a leading `'+'` keeps it, and apart from leading
      `'+'` signs the result is exactly the digit-mapped input without
      separators: nothing else is added, dropped or reordered. */
  lemma BuyerPhoneKeepsNumber(value: string)
    ensures StartsWith(Strip(TranslateDigits(value)), "+") ==> StartsWith(NormalizeBuyerPhone(value), "+")
    ensures LStripChar(NormalizeBuyerPhone(value), '+')
              == LStripChar(RemoveSeparators(TranslateDigits(value)), '+')
  {
    var t := TranslateDigits(value);
    var n := RemoveSeparators(t);
    var l := LStripChar(n, '+');
    assert NormalizeBuyerPhone(value) ==
      if StartsWith(Strip(t), "+") && !StartsWith(n, "+") then "+" + l else n;
    assert StartsWith("+" + l, "+") by {
      assert ("+" + l)[..1] == "+";
    }
    assert LStripChar("+" + l, '+') == l by {
      PlusBeforeStripped(n);
    }
  }

  /** The nationality labels the extraction service recognises. */
  const Iranian := "\U{627}\U{6CC}\U{631}\U{627}\U{646}\U{6CC}"
  const NonIranian := "\U{63A}\U{6CC}\U{631} \U{627}\U{6CC}\U{631}\U{627}\U{646}\U{6CC}"
  const Diplomat := "\U{62F}\U{67E}\U{644}\U{645}\U{627}\U{62A}"

  /** `normalize_nationality` on a string: the three Persian labels (after
      `strip()`) become their English names, anything else goes through
      `normalize_name`. */
  function NormalizeNationality(value: string): string {
    var key := Strip(value);
    if key == Iranian then "Iranian"
    else if key == NonIranian then "Non-Iranian"
    else if key == Diplomat then "Diplomat"
    else NormalizeName(value)
  }

  predicate IsEnglishLabel(s: string) {
    s == "Iranian" || s == "Non-Iranian" || s == "Diplomat"
  }

  /** Each of the three Persian labels, once stripped, gives its English
      name; any other value gives exactly its normalized name. Either way no
      table character and no surrounding whitespace is left. */
  lemma NationalityIsNormalized(value: string)
    ensures var key := Strip(value);
            var r := NormalizeNationality(value);
            && (key == Iranian ==> r == "Iranian")
            && (key == NonIranian ==> r == "Non-Iranian")
            && (key == Diplomat ==> r == "Diplomat")
            && (key != Iranian && key != NonIranian && key != Diplomat ==> r == NormalizeName(value))
    ensures var r := NormalizeNationality(value);
            (IsEnglishLabel(r) || r == NormalizeName(value)) && NoTableChar(r) && NoSpaceAtEnds(r)
  {
    var r := NormalizeNationality(value);
    if IsEnglishLabel(r) {
      EnglishLabelIsPlain(r);
    }
  }

  /** The English labels are plain ASCII with no surrounding whitespace. */
  lemma EnglishLabelIsPlain(s: string)
    requires IsEnglishLabel(s)
    ensures NoTableChar(s) && NoSpaceAtEnds(s)
  {
    forall i | 0 <= i < |s| ensures !InTable(s[i]) {
      assert s[i] < '\U{80}';
    }
  }

  /** A string already in title form with no table character and no
      surrounding whitespace is its own normalized name. */
  lemma NormalNameFixpoint(s: string)
    requires NoTableChar(s) && NoSpaceAtEnds(s) && Title(s) == s
    ensures NormalizeName(s) == s
  {
    TransliterateNoTable(s);
    StripOfStripped(s);
  }

  /** A run of lower-case letters after a cased character stays as it is. */
  lemma {:induction false} TitleOfLowerRun(s: string)
    requires forall i :: 0 <= i < |s| ==> IsAsciiLower(s[i])
    ensures TitleFrom(s, true) == s
  {
    if |s| > 0 {
      TitleOfLowerRun(s[1..]);
    }
  }

  /** A capitalised word, optionally preceded by an uncased character,
      stays as it is under title-casing. */
  lemma TitleOfCapitalised(s: string, start: nat)
    requires start <= 1 && start < |s| && IsAsciiUpper(s[start])
    requires start == 1 ==> !IsCased(s[0])
    requires forall i :: start < i < |s| ==> IsAsciiLower(s[i])
    ensures TitleFrom(s, start == 1) == s
  {
    var w := s[start..];
    TitleOfLowerRun(w[1..]);
    assert TitleFrom(w, false) == w;
    if start == 1 {
      assert s[1..] == w;
    }
  }

  /** Title-casing a concatenation: the second part continues from the
      casedness of the first part's last character. */
  lemma {:induction false} TitleFromAppend(a: string, b: string, prevCased: bool)
    requires |a| > 0
    ensures TitleFrom(a + b, prevCased) == TitleFrom(a, prevCased) + TitleFrom(b, IsCased(a[|a| - 1]))
  {
    assert (a + b)[1..] == a[1..] + b;
    if |a| > 1 {
      TitleFromAppend(a[1..], b, IsCased(a[0]));
    }
  }

  /** The English labels are already in normal form. */
  lemma EnglishLabelIsNormal(s: string)
    requires IsEnglishLabel(s)
    ensures NormalizeName(s) == s
  {
    EnglishLabelIsPlain(s);
    assert Title(s) == s by {
      if s == "Non-Iranian" {
        var a, b := s[..3], s[3..];
        assert s == a + b;
        TitleOfCapitalised(a, 0);
        TitleOfCapitalised(b, 1);
        TitleFromAppend(a, b, false);
      } else {
        TitleOfCapitalised(s, 0);
      }
    }
    NormalNameFixpoint(s);
  }

  /** Each Persian label starts with a table character, so a string without
      one is none of them. */
  lemma NoTableCharIsNoLabel(s: string)
    requires NoTableChar(s)
    ensures s != Iranian && s != NonIranian && s != Diplomat
  {
    assert InTable(Iranian[0]) && InTable(NonIranian[0]) && InTable(Diplomat[0]);
  }

  /** Normalizing a normalized nationality changes nothing: the English
      labels are their own normal form, and a normalized name holds no table
      character, so it can never be one of the Persian labels. */
  lemma NormalizeNationalityIdempotent(value: string)
    ensures NormalizeNationality(NormalizeNationality(value)) == NormalizeNationality(value)
  {
    var n := NormalizeNationality(value);
    NationalityIsNormalized(value);
    StripOfStripped(n);
    NoTableCharIsNoLabel(n);
    if IsEnglishLabel(n) {
      EnglishLabelIsNormal(n);
    } else {
      NormalizeNameIdempotent(value);
    }
  }
}
