/**
  The post-processing `call_openai` in `api/services/extract_info_service.py`
  applies to the JSON the language model returned: normalize `buyer_phone`
  (falling back to a number found in the conversation), `flightNumber`, and
  the name, id and nationality fields of every passenger dict.

  Two paths exist. When the whole reply parses as JSON the primary path runs,
  including the conversation fallback for the phone; when only a `{...}`
  span inside it parses, the fallback path runs the same normalizers but
  never looks at the conversation. Parsing itself is not modelled: both
  paths start from the parsed value.
 */
module Extraction {
  import opened PyText
  import opened Normalize
  import opened PhoneHeuristic

  /** A parsed JSON value. Numbers, booleans and `null` are only ever asked
      for their truthiness here, so they are carried as exactly that. */
  datatype Json = JStr(s: string) | JList(items: seq<Json>) | JObj(fields: map<string, Json>) | JOther(truthy: bool)

  /** Python truthiness of a parsed value. */
  predicate Truthy(v: Json) {
    match v
    case JStr(s) => s != ""
    case JList(items) => |items| > 0
    case JObj(fields) => |fields| > 0
    case JOther(t) => t
  }

  /** The five normalizers. */
  datatype Normalizer = FlightNumber | Name | IdNumber | BuyerPhone | Nationality

  /** A normalizer on a string. */
  function Apply(n: Normalizer, s: string): string {
    match n
    case FlightNumber => NormalizeFlightNumber(s)
    case Name => NormalizeName(s)
    case IdNumber => NormalizeIdNumber(s)
    case BuyerPhone => NormalizeBuyerPhone(s)
    case Nationality => NormalizeNationality(s)
  }

  /** A normalizer on a JSON value: every normalizer first checks
      `isinstance(value, str)` and returns `""` for anything else. The result
      is always a string. */
  function NormalizeValue(n: Normalizer, v: Json): (r: Json)
    ensures r.JStr?
    ensures !v.JStr? ==> r.s == ""
  {
    if v.JStr? then JStr(Apply(n, v.s)) else JStr("")
  }

  /** Every normalizer except the phone one is idempotent, on strings and on
      any JSON value. */
  lemma NormalizeValueIdempotent(n: Normalizer, v: Json)
    requires n != BuyerPhone
    ensures NormalizeValue(n, NormalizeValue(n, v)) == NormalizeValue(n, v)
  {
    if v.JStr? {
      match n
      case FlightNumber => FlightNumberIdempotent(v.s);
      case Name => NormalizeNameIdempotent(v.s);
      case IdNumber => NormalizeIdNumberIdempotent(v.s);
      case Nationality => NormalizeNationalityIdempotent(v.s);
    } else {
      assert NormalizeValue(n, v) == JStr("");
      match n
      case FlightNumber => assert NormalizeFlightNumber("") == "";
      case Name =>
        assert Transliterate("") == "";
        assert NormalizeName("") == "";
      case IdNumber => assert NormalizeIdNumber("") == "";
      case Nationality =>
        assert Transliterate("") == "";
        assert NormalizeName("") == "";
        assert NormalizeNationality("") == "";
    }
  }

  /** `if key in d: d[key] = normalize(d.get(key, ""))`. */
  function NormalizeKey(d: map<string, Json>, key: string, n: Normalizer): (r: map<string, Json>)
    ensures r.Keys == d.Keys
    ensures key in d ==> r[key] == NormalizeValue(n, d[key])
    ensures forall k :: k in d && k != key ==> r[k] == d[k]
  {
    if key in d then d[key := NormalizeValue(n, d[key])] else d
  }

  const BuyerPhoneKey := "buyer_phone"
  const FlightNumberKey := "flightNumber"
  const PassengersKey := "passengers"

  /** The passenger fields and their normalizers. */
  const NameKey := "name"
  const LastNameKey := "lastName"
  const NationalIdKey := "nationalId"
  const PassportNumberKey := "passportNumber"
  const NationalityKey := "nationality"

  /** The normalizer a passenger field gets, if any. */
  function PassengerNormalizer(key: string): (r: Normalizer)
    requires IsPassengerField(key)
  {
    if key == NameKey || key == LastNameKey then Name
    else if key == NationalIdKey || key == PassportNumberKey then IdNumber
    else Nationality
  }

  predicate IsPassengerField(key: string) {
    key == NameKey || key == LastNameKey || key == NationalIdKey
    || key == PassportNumberKey || key == NationalityKey
  }

  /** One passenger dict, normalized field by field. */
  function NormalizePassengerFields(p: map<string, Json>): map<string, Json> {
    var p1 := NormalizeKey(p, NameKey, Name);
    var p2 := NormalizeKey(p1, LastNameKey, Name);
    var p3 := NormalizeKey(p2, NationalIdKey, IdNumber);
    var p4 := NormalizeKey(p3, PassportNumberKey, IdNumber);
    NormalizeKey(p4, NationalityKey, Nationality)
  }

  /** A passenger dict keeps its keys; each of the five fields present is
      replaced by its normalized form and every other field is left alone. */
  lemma PassengerFieldsNormalized(p: map<string, Json>)
    ensures NormalizePassengerFields(p).Keys == p.Keys
    ensures forall k :: k in p && IsPassengerField(k) ==>
              NormalizePassengerFields(p)[k] == NormalizeValue(PassengerNormalizer(k), p[k])
    ensures forall k :: k in p && !IsPassengerField(k) ==> NormalizePassengerFields(p)[k] == p[k]
  {
  }

  /** A list element of `passengers`: a dict is normalized, anything else is
      left as it is. */
  function NormalizePassenger(p: Json): (r: Json)
    ensures !p.JObj? ==> r == p
    ensures p.JObj? ==> r.JObj? && r.fields.Keys == p.fields.Keys
  {
    if p.JObj? then
      PassengerFieldsNormalized(p.fields);
      JObj(NormalizePassengerFields(p.fields))
    else p
  }

  /** Normalizing a passenger twice is normalizing it once. */
  lemma NormalizePassengerIdempotent(p: Json)
    ensures NormalizePassenger(NormalizePassenger(p)) == NormalizePassenger(p)
  {
    if p.JObj? {
      var once := NormalizePassengerFields(p.fields);
      var twice := NormalizePassengerFields(once);
      PassengerFieldsNormalized(p.fields);
      PassengerFieldsNormalized(once);
      forall k | k in p.fields
        ensures twice[k] == once[k]
      {
        if IsPassengerField(k) {
          NormalizeValueIdempotent(PassengerNormalizer(k), p.fields[k]);
        }
      }
      assert twice == once;
    }
  }

  /** `for passenger in extracted["passengers"]`, on a list. */
  function NormalizePassengers(items: seq<Json>): (r: seq<Json>)
    ensures |r| == |items|
  {
    seq(|items|, i requires 0 <= i < |items| => NormalizePassenger(items[i]))
  }

  /** The `passengers` step: only a list value is touched. */
  function NormalizePassengersField(d: map<string, Json>): (r: map<string, Json>) {
    if PassengersKey in d && d[PassengersKey].JList? then
      d[PassengersKey := JList(NormalizePassengers(d[PassengersKey].items))]
    else d
  }

  /** The steps both paths share: `flightNumber` and the passengers. */
  function NormalizeRecord(d: map<string, Json>): map<string, Json> {
    NormalizePassengersField(NormalizeKey(d, FlightNumberKey, FlightNumber))
  }

  /** The shared steps keep the keys, give `flightNumber` its canonical form,
      map the passenger list element by element, and leave every other
      field alone. */
  lemma NormalizeRecordFields(d: map<string, Json>)
    ensures var r := NormalizeRecord(d);
            && r.Keys == d.Keys
            && (FlightNumberKey in d ==>
                  r[FlightNumberKey] == NormalizeValue(FlightNumber, d[FlightNumberKey])
                  && IsCanonicalFlightNumber(r[FlightNumberKey].s))
            && (PassengersKey in d && d[PassengersKey].JList? ==>
                  var items := d[PassengersKey].items;
                  r[PassengersKey].JList? && |r[PassengersKey].items| == |items|
                  && forall i :: 0 <= i < |items| ==> r[PassengersKey].items[i] == NormalizePassenger(items[i]))
            && (PassengersKey in d && !d[PassengersKey].JList? ==> r[PassengersKey] == d[PassengersKey])
            && (forall k :: k in d && k != FlightNumberKey && k != PassengersKey ==> r[k] == d[k])
  {
    var d1 := NormalizeKey(d, FlightNumberKey, FlightNumber);
    assert PassengersKey != FlightNumberKey;
    if FlightNumberKey in d {
      var v := d[FlightNumberKey];
      if v.JStr? {
        assert IsCanonicalFlightNumber(NormalizeFlightNumber(v.s));
      }
    }
  }

  /** The shared steps are idempotent: running them on their own output
      changes nothing. */
  lemma NormalizeRecordIdempotent(d: map<string, Json>)
    ensures NormalizeRecord(NormalizeRecord(d)) == NormalizeRecord(d)
  {
    var once := NormalizeRecord(d);
    var twice := NormalizeRecord(once);
    NormalizeRecordFields(d);
    NormalizeRecordFields(once);
    forall k | k in once
      ensures twice[k] == once[k]
    {
      if k == FlightNumberKey {
        NormalizeValueIdempotent(FlightNumber, d[k]);
      } else if k == PassengersKey && d[k].JList? {
        var items := d[k].items;
        var l1 := once[k].items;
        var l2 := twice[k].items;
        forall i | 0 <= i < |l1|
          ensures l2[i] == l1[i]
        {
          NormalizePassengerIdempotent(items[i]);
        }
        assert l2 == l1;
      }
    }
    assert twice == once;
  }

  /** The primary path's phone step: normalize a `buyer_phone` that is
      present; if the result is falsy (or the key is missing), take the
      number found in the conversation, when there is one. */
  function WithBuyerPhone(d: map<string, Json>, texts: seq<string>): map<string, Json> {
    var d1 := NormalizeKey(d, BuyerPhoneKey, BuyerPhone);
    if BuyerPhoneKey in d1 && Truthy(d1[BuyerPhoneKey]) then d1
    else
      var found := FindBuyerPhone(texts);
      if found != "" then d1[BuyerPhoneKey := JStr(found)] else d1
  }

  /** The primary path (the whole reply parsed): a dict gets the phone step
      and then the shared steps; any other value is returned unchanged. */
  function PostProcess(extracted: Json, texts: seq<string>): (r: Json)
    ensures !extracted.JObj? ==> r == extracted
    ensures extracted.JObj? ==> r.JObj?
  {
    if extracted.JObj? then JObj(NormalizeRecord(WithBuyerPhone(extracted.fields, texts)))
    else extracted
  }

  /** The fallback path (only a `{...}` span parsed): the same normalizers,
      without the conversation. */
  function FallbackPostProcess(extracted: Json): (r: Json)
    ensures !extracted.JObj? ==> r == extracted
    ensures extracted.JObj? ==> r.JObj?
  {
    if extracted.JObj? then
      JObj(NormalizeRecord(NormalizeKey(extracted.fields, BuyerPhoneKey, BuyerPhone)))
    else extracted
  }

  /** The phone step alone: see `BuyerPhoneOutcome`. */
  lemma WithBuyerPhoneOutcome(d: map<string, Json>, texts: seq<string>)
    ensures var r := WithBuyerPhone(d, texts);
            var given := if BuyerPhoneKey in d then NormalizeValue(BuyerPhone, d[BuyerPhoneKey]).s else "";
            var found := FindBuyerPhone(texts);
            && (given != "" ==> r[BuyerPhoneKey] == JStr(given))
            && (given == "" && found != "" ==> r[BuyerPhoneKey] == JStr(found))
            && (given == "" && found == "" ==>
                  (BuyerPhoneKey in r <==> BuyerPhoneKey in d)
                  && (BuyerPhoneKey in r ==> r[BuyerPhoneKey] == JStr("")))
            && r.Keys - {BuyerPhoneKey} == d.Keys - {BuyerPhoneKey}
            && (forall k :: k in d && k != BuyerPhoneKey ==> r[k] == d[k])
  {
  }

  /** A normalized phone value is a clean string. */
  lemma PhoneValueIsClean(v: Json)
    ensures IsPhoneClean(NormalizeValue(BuyerPhone, v).s)
  {
    if v.JStr? {
      ApplyPhoneIsClean(v.s);
    } else {
      assert NormalizeValue(BuyerPhone, v).s == "";
    }
  }

  /** The same on strings, through the normalizer table. */
  lemma ApplyPhoneIsClean(s: string)
    ensures IsPhoneClean(Apply(BuyerPhone, s))
  {
    BuyerPhoneIsClean(s);
  }

  /** The value the phone step stores is a string free of spaces, hyphens and
      Persian or Arabic-Indic digits. */
  lemma WithBuyerPhoneIsClean(d: map<string, Json>, texts: seq<string>)
    ensures var r := WithBuyerPhone(d, texts);
            BuyerPhoneKey in r ==> r[BuyerPhoneKey].JStr? && IsPhoneClean(r[BuyerPhoneKey].s)
  {
    var d1 := NormalizeKey(d, BuyerPhoneKey, BuyerPhone);
    var found := FindBuyerPhone(texts);
    FoundIsClean(texts);
    if BuyerPhoneKey in d {
      PhoneValueIsClean(d[BuyerPhoneKey]);
      assert d1[BuyerPhoneKey].JStr? && IsPhoneClean(d1[BuyerPhoneKey].s);
    }
  }

  /** What the primary path does with `buyer_phone`: a present value is
      normalized and kept when non-empty; otherwise the conversation's best
      number is used when there is one; otherwise the key stays as it was
      (absent, or normalized to `""`). The stored value is always a string
      free of spaces, hyphens and Persian or Arabic-Indic digits, and one
      taken from the conversation is a plausible number. No other key is
      added or removed. */
  lemma BuyerPhoneOutcome(d: map<string, Json>, texts: seq<string>)
    ensures var r := PostProcess(JObj(d), texts).fields;
            var given := if BuyerPhoneKey in d then NormalizeValue(BuyerPhone, d[BuyerPhoneKey]).s else "";
            var found := FindBuyerPhone(texts);
            && (given != "" ==> r[BuyerPhoneKey] == JStr(given))
            && (given == "" && found != "" ==> r[BuyerPhoneKey] == JStr(found) && IsPlausible(found))
            && (given == "" && found == "" ==>
                  (BuyerPhoneKey in r <==> BuyerPhoneKey in d)
                  && (BuyerPhoneKey in r ==> r[BuyerPhoneKey] == JStr("")))
            && (BuyerPhoneKey in r ==> r[BuyerPhoneKey].JStr? && IsPhoneClean(r[BuyerPhoneKey].s))
            && r.Keys - {BuyerPhoneKey} == d.Keys - {BuyerPhoneKey}
  {
    var w := WithBuyerPhone(d, texts);
    FindBuyerPhoneFindsCandidate(texts);
    WithBuyerPhoneOutcome(d, texts);
    WithBuyerPhoneIsClean(d, texts);
    NormalizeRecordFields(w);
    assert FlightNumberKey != BuyerPhoneKey && PassengersKey != BuyerPhoneKey;
    assert PostProcess(JObj(d), texts).fields == NormalizeRecord(w);
  }

  /** Both paths normalize `flightNumber`, the passengers and every other
      field the same way; the paths differ only in `buyer_phone`. */
  lemma PathsAgreeOffPhone(d: map<string, Json>, texts: seq<string>)
    ensures var p := PostProcess(JObj(d), texts).fields;
            var f := FallbackPostProcess(JObj(d)).fields;
            forall k :: k in d && k != BuyerPhoneKey ==> k in p && k in f && p[k] == f[k]
  {
    var w := WithBuyerPhone(d, texts);
    var b := NormalizeKey(d, BuyerPhoneKey, BuyerPhone);
    WithBuyerPhoneOutcome(d, texts);
    NormalizeRecordFields(w);
    NormalizeRecordFields(b);
    forall k | k in d && k != BuyerPhoneKey
      ensures NormalizeRecord(w)[k] == NormalizeRecord(b)[k]
    {
      assert w[k] == d[k] && b[k] == d[k];
    }
  }

  /** The fallback path is the primary path run on a conversation with no
      phone number in it. */
  lemma FallbackIsPrimaryWithoutConversation(extracted: Json)
    ensures FallbackPostProcess(extracted) == PostProcess(extracted, [])
  {
    FindBuyerPhoneFindsCandidate([]);
    assert Candidates([]) == [];
  }

  /** A second pass of the fallback path changes nothing but, possibly,
      `buyer_phone`. */
  lemma FallbackSecondPassKeepsFields(extracted: Json)
    requires extracted.JObj?
    ensures var once := FallbackPostProcess(extracted).fields;
            var twice := FallbackPostProcess(JObj(once)).fields;
            twice.Keys == once.Keys
            && forall k :: k in once && k != BuyerPhoneKey ==> twice[k] == once[k]
  {
    var d := extracted.fields;
    var b := NormalizeKey(d, BuyerPhoneKey, BuyerPhone);
    var once := NormalizeRecord(b);
    var b2 := NormalizeKey(once, BuyerPhoneKey, BuyerPhone);
    NormalizeRecordIdempotent(b);
    NormalizeRecordFields(once);
    NormalizeRecordFields(b2);
    NormalizeRecordFields(b);
    forall k | k in once && k != BuyerPhoneKey
      ensures NormalizeRecord(b2)[k] == once[k]
    {
      assert b2[k] == once[k];
      if k == FlightNumberKey {
        assert NormalizeRecord(once)[k] == once[k];
      } else if k == PassengersKey {
        assert NormalizeRecord(once)[k] == once[k];
      }
    }
  }
}
