# Airport kiosk assistant: the deterministic core in Dafny

The kiosk backend wraps a language model. This project models the parts of it that do not depend on the model:

- **Memory** — the per-session conversation memory (`AgentMemory`). It is a bounded list of records per session, and the oldest records are dropped first.
- **Booking** — the booking conversation (`BookingState`) and the turn logic around it. A cursor moves over nine fields. The national ID and the phone number are validated, with one re-prompt allowed before the field is skipped. A transfer offer is appended once the origin airport is Imam Khomeini.
- **Normalize** — the normalizers the extraction service applies to the model's JSON. They map Persian and Arabic-Indic digits to ASCII, canonicalise flight numbers, transliterate Persian names to Latin, clean IDs and phone numbers, and look up nationalities.
- **PhoneHeuristic** — the buyer-phone heuristic. It scans the transcript for candidate numbers, filters them, scores them and picks one.
- **Extraction** — the field-by-field post-processing of the extracted record, on both the primary path and the regex-fallback path.
- **TtlCache** — the time-to-live cache (`CacheManager`), with the clock passed in as a parameter.
- **ChatCombine** — the fold in the chat route that merges the assistant's avatar messages into one message.
- **Animation** — the animation selector and the text analysis (`AnimationSelector`).

Two further modules model Python semantics rather than the system:

- **PyText** models the parts of Python's `str` the source relies on: `isspace`, `isdigit`, regex `\d`, `strip`, `replace`, ASCII `upper`/`lower`/`title`, and `split`.
- **Messages** models the avatar message dicts.

Each Python function is modelled as a pure function over immutable values. Where the source mutates a dict in place, the model returns the new dict instead.

## Model

| member | source | states |
|---|---|---|
| Memory.SliceFrom | api/services/openai_service.py:286-287 | `l[-m:]` keeps a suffix of `l`. Its length is `m` clamped to `|l|` for a negative start. For a start of zero it is the whole list, which is the case that makes `l[-0:]` keep everything. |
| Memory.AddMessage | api/services/openai_service.py:273-288 | The session is created if it is new. For a capacity of at least one, the session afterwards holds between 1 and `max_messages` records and the new record is the last of them. |
| Memory.AddMessageKeepsNewest | api/services/openai_service.py:273-288 | After one `add_message` the history is the newest `max_messages` records of the old history followed by the new record. |
| Memory.AddAllKeepsNewest | api/services/openai_service.py:273-288 | Over any run of `add_message` calls on one session, the history is the newest `max_messages` of everything added, in insertion order. Truncation keeps relative order and drops only the oldest records. |
| Memory.FreshSessionKeepsNewest | api/services/ollamaService.py:20-35 | A session built only by `add_message` holds exactly the newest `max_messages` records given to it, in order. This is the same model for the copy of the class in the Ollama service. |
| Memory.ZeroCapacityKeepsEverything | api/services/ollamaService.py:31-35 | With `max_messages == 0` the slice `l[-0:]` is the whole list, so the session keeps every record. |
| Memory.AddIsolatesSessions | api/services/openai_service.py:273-288 | Adding to one session never changes another session. |
| Memory.History | api/services/ollamaService.py:37-38 | An unknown or cleared session reads as `[]`. A known session reads as its stored records. |
| Memory.ClearConversation | api/services/openai_service.py:293-295 | Only that session is removed, and the other sessions are unchanged. Clearing an absent session is a no-op. |
| Memory.ClearIsIdempotent | api/services/ollamaService.py:40-42 | A cleared session reads back as empty, and clearing twice equals clearing once. |
| Booking.Initial | api/services/openai_service.py:301-314 | A fresh state has the cursor at 0 and no retry pending. Exactly the nine fields are declared, each with an empty answer. |
| Booking.NextQuestion | api/services/openai_service.py:316-331 | Returns the field under the cursor, in the fixed nine-field order, together with the cursor. Returns `"completed"` exactly when the cursor is at or past 9. |
| Booking.UpdateState | api/services/openai_service.py:333-337 | A declared key is written, the cursor advances by exactly one, the retry counter resets, and the other fields are unchanged. An undeclared key changes nothing. |
| Booking.ValidateNationalId | api/services/openai_service.py:539-542 | Valid iff, ignoring ASCII spaces, the input is exactly 10 digit characters (the `isdigit` characters the model covers; see Left out). |
| Booking.ValidatePhoneNumber | api/services/openai_service.py:544-547 | Valid iff, ignoring ASCII spaces, the input is exactly 11 digit characters (the `isdigit` characters the model covers; see Left out). |
| Booking.QuestionTextDefined | api/services/openai_service.py:637-651 | The prompt is non-empty exactly for the nine fields and for `"completed"`. |
| Booking.WithTransfer | api/services/openai_service.py:618-633 | The transfer offer is appended exactly when the stored origin airport is one of the three Imam Khomeini spellings. |
| Booking.Step | api/services/openai_service.py:560-616 | The state change of one turn. A first bad answer to a validated field only sets the retry counter. A second bad answer skips the field without writing it. A valid answer is stored without its spaces. Any other field stores the message as typed. At `"completed"` nothing changes. |
| Booking.ApplyBookingLogic | api/services/openai_service.py:549-635 | A first bad answer returns exactly one correction message. A second bad answer returns the skip notice, then the question for the new cursor, with no transfer offer. Every other turn passes the proposed messages through, followed by the transfer offer when it applies. |
| Booking.TurnPreservesWf | api/services/openai_service.py:560-616 | One turn keeps the state invariant: cursor at most 9, retry counter in {0, 1} and pending only on a validated field, declared keys fixed. The cursor moves forward by zero or one. |
| Booking.RunPreservesWf | api/services/openai_service.py:560-631 | Over any sequence of turns the invariant holds and the cursor never decreases. |
| Booking.CompletedIsFinal | api/services/openai_service.py:614-616 | Once the cursor is past the last field, no sequence of turns changes the state. |
| Booking.TwoTurnsAlwaysAdvance | api/services/openai_service.py:571-609 | Before completion, any two turns move the cursor forward whatever is typed, so the retry policy never blocks. |
| Booking.AcceptedAnswerIsStored | api/services/openai_service.py:610-616 | An accepted answer is written to the field under the cursor (space-stripped for the two validated fields), the cursor advances and nothing else changes. |
| Booking.EarlierFieldsAreFinal | api/services/openai_service.py:333-337 | A field behind the cursor is never written again, whatever is typed later. |
| Booking.AnswersReachCompletion | api/services/openai_service.py:549-635 | Accepted answers to every remaining field take the cursor to `"completed"`. |
| Booking.AnswerIsStoredInItsField | api/services/openai_service.py:549-635 | After accepted answers to every remaining field, each field holds its own answer. |
| Booking.FreshSessionCompletes | api/services/openai_service.py:298-337 | A fresh session given nine answers in order, with a valid national ID and a valid phone number, reaches `"completed"` with its declared keys unchanged. |
| Booking.FreshSessionStoresAnswers | api/services/openai_service.py:549-635 | In the same run, every field holds its own answer and none is skipped. |
| Booking.TwoBadAnswersSkipField | api/services/openai_service.py:571-609 | Two bad answers in a row to a validated field leave the data unchanged and move the cursor past the field, with the retry counter reset. |
| Normalize.MapDigit | api/services/extract_info_service.py:89-113 | A Persian or Arabic-Indic digit becomes an ASCII digit, and every other character is kept. No Eastern digit remains, and a character is a decimal digit before exactly when it is one after. |
| Normalize.DigitTableAsWritten | api/services/extract_info_service.py:89-113 | The table as written: the ten Persian digits, then the ten Arabic-Indic digits, translate to `01234567890123456789`, so each becomes the ASCII digit of the same value. |
| Normalize.TranslateDigits | api/services/extract_info_service.py:113 | `str.translate` with the digit table maps each character independently and keeps the length. |
| Normalize.NormalizeFlightNumber | api/services/extract_info_service.py:85-115 | The result has no space, hyphen, Eastern digit or ASCII lower-case letter, and is no longer than the input. |
| Normalize.FlightNumberAppend | api/services/extract_info_service.py:113-115 | Normalizing works character by character: the normal form of a concatenation is the concatenation of the normal forms. |
| Normalize.FlightNumberChar | api/services/extract_info_service.py:113-115 | A space or hyphen is dropped. Any other character is kept, digit-mapped and then upper-cased. With the previous row, every other character of the input survives in order. |
| Normalize.FlightNumberIdempotent | api/services/extract_info_service.py:113-115 | Normalizing a flight number twice equals normalizing it once. |
| Normalize.Transliterate | api/services/extract_info_service.py:164-171 | No character of the transliteration table survives. |
| Normalize.TransliterateAppend | api/services/extract_info_service.py:164-171 | The character loop is a homomorphism: it maps a concatenation to the concatenation of the images. |
| Normalize.NormalizeName | api/services/extract_info_service.py:118-175 | Up to letter case, the result is the transliterated input with only its surrounding whitespace cut off. It is already in title form. No table character and no surrounding whitespace remain. |
| Normalize.NormalizeNameIdempotent | api/services/extract_info_service.py:164-175 | Normalizing a name twice equals normalizing it once. |
| Normalize.NormalizeIdNumber | api/services/extract_info_service.py:178-182 | The result is the input with every ASCII space removed and then only surrounding whitespace cut off: a contiguous slice of the space-free input with nothing but whitespace around it and no whitespace at its ends. |
| Normalize.NormalizeIdNumberIdempotent | api/services/extract_info_service.py:178-182 | Normalizing an ID twice equals normalizing it once. |
| Normalize.BuyerPhoneIsClean | api/services/extract_info_service.py:185-218 | No space, hyphen or Eastern digit survives phone normalization. |
| Normalize.BuyerPhoneKeepsNumber | api/services/extract_info_service.py:212-217 | If the digit-mapped input starts with `'+'` after trimming, so does the result. After its leading `'+'` characters, the result is the input with separators removed. |
| Normalize.NationalityIsNormalized | api/services/extract_info_service.py:221-237 | Once stripped, the three Persian labels give `Iranian`, `Non-Iranian` and `Diplomat`. Any other value gives exactly `normalize_name(value)`. Either way the result has no table character and no surrounding whitespace. |
| Normalize.NormalizeNationalityIdempotent | api/services/extract_info_service.py:221-237 | Normalizing a nationality twice equals normalizing it once. |
| PhoneHeuristic.RunLength | api/services/extract_info_service.py:274 | Counts the characters of the class `[\d\s\-]` that follow a position, and the run stops at the first character outside the class. |
| PhoneHeuristic.MatchAt | api/services/extract_info_service.py:274 | A match found at a position starts there, has the shape of `\+?[\d\s\-]{9,20}` and is greedy: it stops at a character outside the class or the end of the text, unless it already holds twenty class characters. |
| PhoneHeuristic.MatchAtIsLongest | api/services/extract_info_service.py:274 | There is no match at a position exactly when no slice starting there has the pattern's shape. A match found there is the longest such slice. |
| PhoneHeuristic.FindAllShaped | api/services/extract_info_service.py:274 | Every match `re.findall` returns has the shape of the pattern. |
| PhoneHeuristic.FindAllOrdered | api/services/extract_info_service.py:274 | The matches are in order and do not overlap. |
| PhoneHeuristic.FindAllComplete | api/services/extract_info_service.py:274 | Every position where nine class characters start lies inside some match, so the scan skips nothing that looks like a phone number. |
| PhoneHeuristic.KeepPlausibleIsFilter | api/services/extract_info_service.py:275-279 | A normalized match is kept iff, after its leading `'+'` characters, it is 10 to 15 `isdigit` characters. |
| PhoneHeuristic.MessageCandidatesAreMatches | api/services/extract_info_service.py:270-279 | The candidates of one message are exactly the plausible normalized forms of its matches, taken after digit translation. |
| PhoneHeuristic.FlattenMembers | api/services/extract_info_service.py:270-279 | A candidate of the whole transcript is a candidate of one of its messages, and conversely. |
| PhoneHeuristic.CandidatesArePlausible | api/services/extract_info_service.py:267-279 | Every candidate is plausible, and the candidates are exactly those of the single messages. |
| PhoneHeuristic.Score | api/services/extract_info_service.py:282-290 | 3 for a number starting with `+98`, or with `0098` after its leading `'+'` characters. Otherwise 2 when, after the leading `'+'` characters, it starts with `98` or `09`. Otherwise 1. |
| PhoneHeuristic.BestIndexIsFirstBest | api/services/extract_info_service.py:292-294 | No key is above the chosen one, and every earlier key is strictly below it. This is the position a stable descending sort puts first. |
| PhoneHeuristic.FindBuyerPhoneFindsCandidate | api/services/extract_info_service.py:292-295 | The result is `""` iff there are no candidates. Otherwise it is plausible. |
| PhoneHeuristic.FoundIsNormalizedMatch | api/services/extract_info_service.py:270-279 | A found number is `normalize_buyer_phone` of some match in some message of the transcript. |
| PhoneHeuristic.FoundIsClean | api/services/extract_info_service.py:240-295 | The result contains no space, hyphen or Eastern digit. |
| PhoneHeuristic.FindBuyerPhoneIsBest | api/services/extract_info_service.py:282-294 | The result is a candidate that maximises (score, length), and ties go to the earliest candidate. |
| PhoneHeuristic.ScanFindsRun | api/services/extract_info_service.py:274 | A class run of 9 to 20 characters with a non-class character or the start of the text before it comes back from `re.findall` as one match. The match ends with the run and starts at the run or at a `'+'` just before it. |
| PhoneHeuristic.IsolatedRunIsFound | api/services/extract_info_service.py:267-295 | Take a message with 10 to 15 decimal digits in a row and a non-class character or the text's edge on each side. The digits, digit-mapped and with a `'+'` just before them kept, are a candidate. The heuristic then returns a non-empty number at least as good as that one. |
| PhoneHeuristic.DigitsOnlyMessage | api/services/extract_info_service.py:240-295 | A transcript of one message made of 10 to 15 decimal digits gives exactly that message, digit-mapped. |
| PhoneHeuristic.PersianMobileExample | api/services/extract_info_service.py:240-295 | The Persian-digit mobile number `۰۹۱۲۳۴۵۶۷۸۹`, alone in a message, is found as `09123456789`. |
| Extraction.NormalizeValue | api/services/extract_info_service.py:86-87 | Every normalizer returns a string, and returns `""` for a value that is not a string. |
| Extraction.NormalizeValueIdempotent | api/services/extract_info_service.py:85-237 | The flight-number, name, ID and nationality normalizers are idempotent on JSON values. |
| Extraction.NormalizeKey | api/services/extract_info_service.py:308-311 | A key is rewritten only when it is present, and every other key is untouched. |
| Extraction.PassengerFieldsNormalized | api/services/extract_info_service.py:317-338 | In a passenger dict each of the five fields that is present is replaced by its normalized form. The keys and all other fields are unchanged. |
| Extraction.NormalizePassenger | api/services/extract_info_service.py:318 | A passenger that is not a dict is left as it is. A dict keeps its keys. |
| Extraction.NormalizePassengerIdempotent | api/services/extract_info_service.py:317-338 | Normalizing a passenger twice equals normalizing it once. |
| Extraction.NormalizeRecordFields | api/services/extract_info_service.py:308-338 | The shared steps keep the keys and give `flightNumber` its canonical form. They map a passenger list element by element and leave a non-list `passengers` and every other field alone. |
| Extraction.NormalizeRecordIdempotent | api/services/extract_info_service.py:308-338 | The shared steps are idempotent. |
| Extraction.PostProcess | api/services/extract_info_service.py:297-340 | A value that is not a dict is returned unchanged, and a dict stays a dict. |
| Extraction.BuyerPhoneOutcome | api/services/extract_info_service.py:297-307 | Three cases: a non-empty normalized `buyer_phone` is kept; otherwise a number found in the transcript is stored, and it is plausible; otherwise the key stays as present or absent as it was, with `""`. The stored value is always clean, and no other key is added or dropped. |
| Extraction.WithBuyerPhoneOutcome | api/services/extract_info_service.py:298-307 | The phone step changes only `buyer_phone`, and it runs the transcript heuristic only when the normalized value is empty. |
| Extraction.FallbackPostProcess | api/services/extract_info_service.py:492-532 | The fallback returns a value that is not a dict unchanged, and a dict stays a dict. |
| Extraction.FallbackIsPrimaryWithoutConversation | api/services/extract_info_service.py:492-532 | The fallback path is the primary path with an empty transcript: it never runs the transcript heuristic. |
| Extraction.PathsAgreeOffPhone | api/services/extract_info_service.py:297-339 | The two paths agree on every field except `buyer_phone`. |
| Extraction.FallbackSecondPassKeepsFields | api/services/extract_info_service.py:492-532 | Running the fallback again keeps the keys and every field except `buyer_phone`. |
| TtlCache.Get | api/config/performance_config.py:19-30 | Returns a value iff the key is present and `now` is not strictly past its expiry, and the value returned is the stored one. An expired entry found on the way is deleted, and nothing else changes. |
| TtlCache.EffectiveTtl | api/config/performance_config.py:35 | A missing ttl and a ttl of 0 both fall back to the default. Any other ttl is used as given. |
| TtlCache.Set | api/config/performance_config.py:32-36 | The value is stored with expiry `now + ttl`, any earlier entry for the key is replaced, and other keys are unchanged. |
| TtlCache.Clear | api/config/performance_config.py:38-44 | A non-empty key removes only that key, and an absent key is fine. `None` or `""` empties the cache. |
| TtlCache.CleanupKeepsExactlyLive | api/config/performance_config.py:46-54 | Cleanup keeps exactly the entries that are not strictly past their expiry, unchanged. |
| TtlCache.GetAfterSet | api/config/performance_config.py:19-36 | A stored value is served up to and including its expiry instant, and not after it. |
| TtlCache.CleanupIsIdempotent | api/config/performance_config.py:46-54 | A second cleanup at the same instant or an earlier one removes nothing more. |
| TtlCache.ClearKey | api/config/performance_config.py:38-44 | A cleared key reads as absent, and other keys read as before. |
| ChatCombine.Fold | api/routes/chat_route.py:69-80 | The loop over a list yields the lines of the entries with truthy text, in order. The expression and the animation are each the value of the first entry with text that overrides it, or the default. |
| ChatCombine.Combine | api/routes/chat_route.py:63-88 | For a list: the lines of the entries with truthy text, joined in order and stripped. The expression and the animation are each the first override, or the default. For a dict with `"text"`: its text and fields, with defaults. Anything else gives empty text and the defaults. |
| ChatCombine.FirstOverrideIsFirst | api/routes/chat_route.py:74-80 | The expression or animation is the default iff no entry with text overrides it. Otherwise it is the value of the earliest entry that does. |
| ChatCombine.FirstOverrideSnoc | api/routes/chat_route.py:75-80 | One loop step replaces the value only while it is still the default, and only with a truthy value from an entry with text. |
| ChatCombine.JoinedSnoc | api/routes/chat_route.py:72-73 | One loop step appends exactly that entry's line. |
| ChatCombine.JoinedIsEmptyIff | api/routes/chat_route.py:69-73 | The joined text is empty iff no entry has a truthy text. |
| Animation.MatchedIsFilter | api/services/animation_service.py:65-80 | The matched contexts are exactly the contexts of the table that have a matching pattern, one entry per context, in table order. Invalid patterns are skipped. |
| Animation.FirstLeastPriority | api/services/animation_service.py:86-88 | Picks an entry of least priority such that every earlier entry has greater priority, which is what the stable sort puts first. |
| Animation.SelectAnimation | api/services/animation_service.py:45-93 | A blank text gets the default, and so does a text with no match. Otherwise the result is the animation of the earliest matching context of least priority. |
| Animation.ShippedTableAlwaysIdle | api/services/animation_service.py:40 | With the empty table as shipped, nothing matches. |
| Animation.SelectedComesFromTable | api/services/animation_service.py:65-88 | A chosen context is a context of the table that matches the text. |
| Animation.AnimationForContext | api/services/animation_service.py:95-107 | An unknown context gets the default. A known one gets the animation of the first table entry of that context, which is the dict's only entry for that key. |
| Animation.AnimationForContextExtend | api/services/animation_service.py:105-107 | After a new context is added to the table, looking it up gives its animation, and every other context reads as before, as with a dict insertion. |
| Animation.Category | api/services/animation_service.py:128-134 | `short` iff at most 3 words, `long` iff more than 10, otherwise `medium`. |
| Animation.IsQuestionIsLastChar | api/services/animation_service.py:122 | A text is a question iff its last non-whitespace character is `?` or the Arabic question mark. |
| Animation.ArabicQuestionMissedAsWritten | api/services/animation_service.py:122 | A Persian question ending in the Arabic question mark is not a question under the literal as written, although it is one as intended. |
| Animation.QuestionTestsAgree | api/services/animation_service.py:122 | The corrected and the as-written question tests agree on every text whose stripped form ends in neither the Arabic question mark nor the mangled literal. |
| Animation.AnalyzeTextEmotion | api/services/animation_service.py:109-142 | `is_question` follows the corrected test, and `has_data` holds iff the text contains a decimal digit. `word_count` is the number of places a word starts, which is the number of tokens `split()` returns. The length category follows the word count. The animation is the one `select_animation` picks: the default for a blank text or no match, otherwise the earliest matching context of least priority. |
| PyText.SplitCountsWordStarts | api/services/animation_service.py:128 | `len(text.split())` is the number of positions where a non-whitespace character follows whitespace or the start of the text. |

## Left out

- The language-model and HTTP calls, the knowledge-base file reads, UUID generation and `datetime.now()` timestamps in `get_assistant_response`. A record's timestamp is an opaque string supplied by the caller.
- JSON parsing (`json.loads`), the reply envelope dispatch, and the greedy `{...}` regular expression that finds the JSON object on the fallback path. The model starts from the parsed value, a small `Json` datatype.
- The `threading.RLock` around the cache methods, which is concurrency. The cache's clock becomes a parameter counted in microseconds.
- Environment configuration, logging, the TTS service and the route handlers other than the chat fold.
- The commented-out earlier service at the top of `openai_service.py`, which is not live code.
- `get_booking_state` in the extraction routes. It reads the state as a dict and always returns empty values.
- The `chat` handler passes three arguments to the two-parameter `get_assistant_response`, which would fail at the call. The fold is modelled on its own.
- The `Message` schema declares only `text`, so the expression and animation the fold computes are dropped when the message is built. The fold still computes them, and the model does too.
- Case mapping and `title()` cover ASCII letters only, and every other character counts as uncased. `\d` covers ASCII, the Arabic-Indic and the Persian digits. `isdigit` covers those plus the superscript digits, the subscript digits and the circled digits one to nine. Every other character `isdigit` accepts is left out, including the decimal digits of other scripts and further digit symbols such as parenthesised or dingbat digits. For such input the validators and the phone filter reject what the source accepts.
- Regular-expression search in the animation selector is a parameter. It answers `None` for an invalid pattern, and the case-insensitive flag is part of it. The phone pattern `\+?[\d\s\-]{9,20}` is modelled exactly.
- The transcript is given as the rendered texts of its messages (`getattr(m, "text", "") or ""`).
- Normalize.NormalizeBuyerPhone: not idempotent, so no idempotence lemma is stated for it. One input that shows this is `"-\t+1"`, which becomes `"\t+1"` and then `"+\t+1"`. Only spaces and hyphens are removed, but the leading-`'+'` test looks past all whitespace. The source promises nothing more.
- PhoneHeuristic.FindBuyerPhoneIsBest: the comment above the scoring function says the last-mentioned number is preferred. The code sorts stably in descending order, so among equal keys the earliest candidate wins. The model follows the code.
- Memory.AddMessage: the bound on the history holds only for `max_messages >= 1`. With 0 the slice `l[-0:]` keeps everything (`Memory.ZeroCapacityKeepsEverything`), and a negative capacity drops records from the front. The claim that a session never exceeds the cap holds only for positive caps.
- TtlCache.Set: `timedelta` accepts a negative ttl. The model allows it too, which gives an entry that is already expired. The error path is left out: when the expiry would pass `datetime.max` (year 9999, so a ttl of roughly 2.5·10¹¹ seconds or more), `datetime.now() + timedelta(...)` raises `OverflowError` and nothing is stored. The model has unbounded integers and stores the entry instead.
- Animation.AnalyzeTextEmotion: `is_question` follows the corrected question test `Animation.IsQuestion`, not the literal `"ØŸ"` written at line 122 (see Findings). A text ending in the Arabic question mark is reported as a question here, where the source reports it is not. For a text whose stripped form ends in neither `"ØŸ"` nor the Arabic question mark, both tests agree (`Animation.QuestionTestsAgree`).

## Findings

| source | as written | input that shows it | evidently intended | confidence | as-written member | corrected member |
|---|---|---|---|---|---|---|
| api/services/animation_service.py:122 | `is_question` tests for the two-character literal `"ØŸ"`, which is the UTF-8 bytes of the Arabic question mark U+061F read as Windows-1252. | `"چطور؟"`: the stripped text ends in U+061F, not in `"ØŸ"`, so it is not reported as a question. | The test should check for the Arabic question mark `"؟"`. | high, not executed | Animation.IsQuestionAsWritten, Animation.ArabicQuestionMissedAsWritten | Animation.IsQuestion, Animation.IsQuestionIsLastChar |
