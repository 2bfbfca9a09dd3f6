/**
  `BookingState` and the deterministic turn logic of the chat service
  (`api/services/openai_service.py`): a cursor over nine booking fields, a
  write-and-advance transition, validation of the national ID and phone
  number with one re-prompt before the field is skipped, and the transfer
  offer once the origin airport is Imam Khomeini.
 */
module Booking {
  import opened Wrappers
  import opened PyText
  import opened Messages

  /** The fields in the order they are asked for. */
  const Fields: seq<string> := [
    "origin_airport", "travel_type", "travel_date", "passenger_count", "passenger_name",
    "national_id", "flight_number", "baggage_count", "phone_number"
  ]

  const OriginAirport := "origin_airport"
  const NationalId := "national_id"
  const PhoneNumber := "phone_number"

  /** The key `get_next_question` reports once every field has been passed. */
  const Completed := "completed"

  /** Cursor positions of the two validated fields. */
  const NationalIdStep := 5
  const PhoneNumberStep := 8

  lemma FieldsFacts()
    ensures |Fields| == 9
    ensures forall i, j :: 0 <= i < j < |Fields| ==> Fields[i] != Fields[j]
    ensures Completed !in Fields
    ensures Fields[NationalIdStep] == NationalId && Fields[PhoneNumberStep] == PhoneNumber
    ensures Fields[0] == OriginAirport
  {
  }

  lemma FieldsDistinct(i: int, j: int)
    requires 0 <= i < |Fields| && 0 <= j < |Fields| && i != j
    ensures Fields[i] != Fields[j]
  {
    FieldsFacts();
  }

  predicate IsField(key: string) { key in Fields }

  /** Only the sixth and the ninth field are validated. */
  lemma ValidatedSteps(j: int)
    requires 0 <= j < |Fields| && IsValidated(Fields[j])
    ensures j == NationalIdStep || j == PhoneNumberStep
  {
    FieldsFacts();
  }

  const FieldSet: set<string> := set k | k in Fields

  /** A field whose answer is checked before it is stored. */
  predicate IsValidated(key: string) { key == NationalId || key == PhoneNumber }

  datatype BookingState = BookingState(currentStep: nat, retryCount: nat, collectedData: map<string, string>)

  /** A fresh session: cursor at the first field, no retry pending, every
      field declared with an empty answer. */
  function Initial(): (s: BookingState)
    ensures s.currentStep == 0 && s.retryCount == 0
    ensures s.collectedData.Keys == FieldSet
    ensures forall k :: k in s.collectedData ==> s.collectedData[k] == ""
  {
    BookingState(0, 0, map k | k in Fields :: "")
  }

  /** `get_next_question`: the field under the cursor with the cursor index,
      or `"completed"` once the cursor is past the last field. */
  function NextQuestion(s: BookingState): (r: (string, nat))
    ensures r.1 == s.currentStep
    ensures r.0 == Completed <==> s.currentStep >= |Fields|
    ensures s.currentStep < |Fields| ==> r.0 == Fields[s.currentStep]
    ensures r.0 == Completed || IsField(r.0)
  {
    if s.currentStep < |Fields| then (Fields[s.currentStep], s.currentStep)
    else (Completed, s.currentStep)
  }

  /** `update_state`: a declared key gets the value, the cursor moves on by
      exactly one and the retry counter resets; any other key changes nothing. */
  function UpdateState(s: BookingState, key: string, value: string): (r: BookingState)
    ensures key in s.collectedData ==>
              && r.currentStep == s.currentStep + 1
              && r.retryCount == 0
              && r.collectedData.Keys == s.collectedData.Keys
              && r.collectedData[key] == value
              && (forall k :: k in s.collectedData && k != key ==> r.collectedData[k] == s.collectedData[k])
    ensures key !in s.collectedData ==> r == s
  {
    if key in s.collectedData then
      BookingState(s.currentStep + 1, 0, s.collectedData[key := value])
    else s
  }

  /** The input, ignoring ASCII spaces, is exactly `n` characters that
      `isdigit` accepts. */
  predicate DigitsWithSpaces(input: string, n: nat) {
    && (forall i :: 0 <= i < |input| ==> input[i] == ' ' || IsDigitChar(input[i]))
    && CountOther(input, ' ') == n
  }

  /** The check both validators share: `cleaned.isdigit() and len(cleaned) == n`
      after `replace(" ", "")`. */
  function DigitCount(input: string, n: nat): (ok: bool)
    requires n > 0
    ensures ok <==> DigitsWithSpaces(input, n)
  {
    var cleaned := RemoveChar(input, ' ');
    RemoveCharLength(input, ' ');
    if IsDigitString(cleaned) && |cleaned| == n then
      assert forall i :: 0 <= i < |input| ==> input[i] == ' ' || IsDigitChar(input[i]) by {
        forall i | 0 <= i < |input| && input[i] != ' '
          ensures IsDigitChar(input[i])
        {
          RemoveCharKeeps(input, ' ', input[i]);
        }
      }
      true
    else
      false
  }

  /** `_validate_national_id`. */
  function ValidateNationalId(nationalId: string): (ok: bool)
    ensures ok <==> DigitsWithSpaces(nationalId, 10)
  {
    DigitCount(nationalId, 10)
  }

  /** `_validate_phone_number`. */
  function ValidatePhoneNumber(phone: string): (ok: bool)
    ensures ok <==> DigitsWithSpaces(phone, 11)
  {
    DigitCount(phone, 11)
  }

  /** Whether the turn logic accepts `userMessage` for a validated `key`: the
      message is space-stripped first, then handed to the field's validator. */
  predicate Accepts(key: string, userMessage: string) {
    var cleaned := RemoveChar(userMessage, ' ');
    if key == NationalId then ValidateNationalId(cleaned) else ValidatePhoneNumber(cleaned)
  }

  /** `_get_question_text_for_key`: one prompt per field and one for
      `"completed"`; `""` for anything else. */
  function QuestionText(key: string): string {
    if key == "origin_airport" then "نام فرودگاه مبدا رو بفرمایید."
    else if key == "travel_type" then "پروازتون ورودی به فرودگاهه یا خروجی؟"
    else if key == "travel_date" then "تاریخ سفر رو بفرمایید."
    else if key == "passenger_count" then "تعداد مسافران رو لطفاً بفرمایید."
    else if key == "passenger_name" then "نام و نام خانوادگی مسافر رو بفرمایید."
    else if key == "national_id" then "کد ملی مسافر رو بفرمایید."
    else if key == "flight_number" then "شماره پرواز رو بفرمایید."
    else if key == "baggage_count" then "تعداد چمدان‌ها رو بفرمایید."
    else if key == "phone_number" then "شماره تماس رو بفرمایید."
    else if key == "completed" then "همه اطلاعات دریافت شد. در پایان پیام تایید و کیوآرکد نمایش داده خواهد شد."
    else ""
  }

  /** Every field has a prompt. */
  lemma FieldHasQuestion(i: int)
    requires 0 <= i < |Fields|
    ensures QuestionText(Fields[i]) != ""
  {
    FieldsFacts();
  }

  /** There is a prompt exactly for the nine fields and for `"completed"`. */
  lemma QuestionTextDefined(key: string)
    ensures QuestionText(key) != "" <==> IsField(key) || key == Completed
  {
    if IsField(key) {
      var i :| 0 <= i < |Fields| && Fields[i] == key;
      FieldHasQuestion(i);
    } else if key == Completed {
      assert |QuestionText(key)| > 0;
    } else {
      assert key != "origin_airport" && key != "travel_type" && key != "travel_date";
      assert key != "passenger_count" && key != "passenger_name" && key != "national_id";
      assert key != "flight_number" && key != "baggage_count" && key != "phone_number";
    }
  }

  /** First invalid answer: ask again. */
  function CorrectionMessage(key: string): Entry {
    Make(if key == NationalId then "لطفاً کد ملی رو با ۱۰ رقم و فقط عدد وارد کن." else "لطفاً شماره تماس رو با ۱۱ رقم و فقط عدد وارد کن (فاصله بین اعداد مشکلی نداره).", "default", "Talking_0")
  }

  /** Second invalid answer: the field can be fixed in the final form. */
  function SkipMessage(key: string): Entry {
    Make(if key == NationalId then "اشکالی نداره، می‌تونی کد ملی رو در فرم نهایی اصلاح کنی." else "اشکالی نداره، می‌تونی شماره تماس رو در فرم نهایی اصلاح کنی.", "smile", "Talking_1")
  }

  function QuestionMessage(key: string): Entry {
    Make(QuestionText(key), "default", "Talking_0")
  }

  /** The three spellings of Imam Khomeini airport that trigger the offer. */
  const ImamKhomeiniSpellings: seq<string> := ["امام خمینی", "امام خميني", "Imam Khomeini"]

  const TransferMessage: Entry := Make("راستی اگه الان فرودگاه امام خمینی هستی می‌تونم هماهنگ کنم بچه‌های ترنسفر درب خروجی سوارت کنند و ترنسفرت رو مهمون من باشی، نظرت چیه دوست من؟", "smile", "Talking_2")

  /** `collected_data.get("origin_airport") in [...]`. */
  predicate TransferApplies(s: BookingState) {
    OriginAirport in s.collectedData && s.collectedData[OriginAirport] in ImamKhomeiniSpellings
  }

  /** The messages a turn that does not return early ends with. */
  function WithTransfer(s: BookingState, messages: seq<Entry>): (r: seq<Entry>)
    ensures TransferApplies(s) ==> r == messages + [TransferMessage]
    ensures !TransferApplies(s) ==> r == messages
  {
    if TransferApplies(s) then messages + [TransferMessage] else messages
  }

  /** The state part of `_apply_booking_logic_and_maybe_override`. */
  function Step(s: BookingState, userMessage: string): (r: BookingState)
    // a validated field answered badly for the first time: only the retry counter moves
    ensures var key := NextQuestion(s).0;
            IsValidated(key) && !Accepts(key, userMessage) && s.retryCount == 0 ==>
              r == s.(retryCount := 1)
    // ... and for the second time: the field is skipped without being written
    ensures var key := NextQuestion(s).0;
            IsValidated(key) && !Accepts(key, userMessage) && s.retryCount != 0 ==>
              r == s.(currentStep := s.currentStep + 1, retryCount := 0)
    // a valid answer to a validated field is stored without its spaces
    ensures var key := NextQuestion(s).0;
            IsValidated(key) && Accepts(key, userMessage) ==>
              r == UpdateState(s, key, RemoveChar(userMessage, ' '))
    // any other field stores the message as typed
    ensures var key := NextQuestion(s).0;
            key != Completed && !IsValidated(key) ==> r == UpdateState(s, key, userMessage)
    // past the last field the state is left alone
    ensures NextQuestion(s).0 == Completed ==> r == s
  {
    var key := NextQuestion(s).0;
    if IsValidated(key) then
      if !Accepts(key, userMessage) then
        if s.retryCount == 0 then s.(retryCount := 1)
        else s.(currentStep := s.currentStep + 1, retryCount := 0)
      else UpdateState(s, key, RemoveChar(userMessage, ' '))
    else if key != Completed then UpdateState(s, key, userMessage)
    else s
  }

  /** Whether the turn ends before the transfer check: a validated field got
      an answer its validator rejects. */
  predicate ReturnsEarly(s: BookingState, userMessage: string) {
    var key := NextQuestion(s).0;
    IsValidated(key) && !Accepts(key, userMessage)
  }

  /** The new booking state and the messages a turn returns. */
  datatype Turn = Turn(state: BookingState, messages: seq<Entry>)

  /** `_apply_booking_logic_and_maybe_override` for one user message and the
      messages the language model proposed. */
  function ApplyBookingLogic(s: BookingState, userMessage: string, messages: seq<Entry>): (r: Turn)
    ensures r.state == Step(s, userMessage)
    // first bad answer: exactly one correction message
    ensures ReturnsEarly(s, userMessage) && s.retryCount == 0 ==>
              r.messages == [CorrectionMessage(NextQuestion(s).0)]
    // second bad answer: the skip notice, then the question for the new cursor
    ensures ReturnsEarly(s, userMessage) && s.retryCount != 0 ==>
              r.messages == [SkipMessage(NextQuestion(s).0), QuestionMessage(NextQuestion(r.state).0)]
    // every other turn passes the proposed messages through, followed by the
    // transfer offer exactly when the stored origin airport is Imam Khomeini
    ensures !ReturnsEarly(s, userMessage) ==>
              && (TransferApplies(r.state) ==> r.messages == messages + [TransferMessage])
              && (!TransferApplies(r.state) ==> r.messages == messages)
  {
    var key := NextQuestion(s).0;
    var s' := Step(s, userMessage);
    if ReturnsEarly(s, userMessage) then
      if s.retryCount == 0 then Turn(s', [CorrectionMessage(key)])
      else Turn(s', [SkipMessage(key), QuestionMessage(NextQuestion(s').0)])
    else
      Turn(s', WithTransfer(s', messages))
  }

  /** The state after a sequence of user messages (the booking state never
      depends on the model's proposed messages). */
  function Run(s: BookingState, inputs: seq<string>): BookingState
    decreases |inputs|
  {
    if |inputs| == 0 then s
    else Run(Step(s, inputs[0]), inputs[1..])
  }

  /** The invariant of every reachable state: the cursor is at most one past
      the last field, a retry is pending only on a validated field, and the
      declared keys never change. */
  predicate Wf(s: BookingState) {
    && s.currentStep <= |Fields|
    && s.retryCount <= 1
    && (s.retryCount == 1 ==> s.currentStep < |Fields| && IsValidated(Fields[s.currentStep]))
    && s.collectedData.Keys == FieldSet
  }

  lemma InitialIsWf()
    ensures Wf(Initial())
  {
  }

  /** One turn keeps the invariant and never moves the cursor back; it moves
      at most one field forward. */
  lemma TurnPreservesWf(s: BookingState, userMessage: string)
    requires Wf(s)
    ensures var t := Step(s, userMessage);
            Wf(t) && s.currentStep <= t.currentStep <= s.currentStep + 1
  {
    FieldsFacts();
  }

  /** Across any sequence of turns: the invariant holds (cursor within
      `0..9`, retry counter in `{0, 1}`) and the cursor never decreases. */
  lemma {:induction false} RunPreservesWf(s: BookingState, inputs: seq<string>)
    requires Wf(s)
    ensures Wf(Run(s, inputs))
    ensures s.currentStep <= Run(s, inputs).currentStep <= s.currentStep + |inputs|
    decreases |inputs|
  {
    if |inputs| > 0 {
      TurnPreservesWf(s, inputs[0]);
      RunPreservesWf(Step(s, inputs[0]), inputs[1..]);
    }
  }

  /** Once completed, no sequence of turns changes the state. */
  lemma {:induction false} CompletedIsFinal(s: BookingState, inputs: seq<string>)
    requires s.currentStep >= |Fields|
    ensures Run(s, inputs) == s
    decreases |inputs|
  {
    if |inputs| > 0 {
      CompletedIsFinal(Step(s, inputs[0]), inputs[1..]);
    }
  }

  /** The retry policy never blocks: from any reachable state before
      completion, two more turns move the cursor forward, whatever is typed. */
  lemma TwoTurnsAlwaysAdvance(s: BookingState, first: string, second: string)
    requires Wf(s) && s.currentStep < |Fields|
    ensures Run(s, [first, second]).currentStep > s.currentStep
  {
    FieldsFacts();
    var s1 := Step(s, first);
    TurnPreservesWf(s, first);
    TurnPreservesWf(s1, second);
    assert [first, second][1..] == [second];
    assert Run(s, [first, second]) == Run(s1, [second]);
    assert Run(s1, [second]) == Step(s1, second);
  }

  /** What a field holds after its answer was accepted: the validated fields
      keep the answer without spaces, the others keep it as typed. */
  function Stored(step: nat, answer: string): string {
    if step == NationalIdStep || step == PhoneNumberStep then RemoveChar(answer, ' ') else answer
  }

  /** One accepted answer to the field under the cursor: the field holds it
      (without spaces when validated), the cursor moves on, nothing else
      changes. */
  lemma AcceptedAnswerIsStored(s: BookingState, answer: string)
    requires Wf(s) && s.currentStep < |Fields|
    requires IsValidated(Fields[s.currentStep]) ==> Accepts(Fields[s.currentStep], answer)
    ensures var t := Step(s, answer);
            && Wf(t)
            && t.currentStep == s.currentStep + 1
            && t.retryCount == 0
            && t.collectedData == s.collectedData[Fields[s.currentStep] := Stored(s.currentStep, answer)]
  {
    FieldsFacts();
    TurnPreservesWf(s, answer);
  }

  /** The part of `AcceptedAnswerIsStored` the run lemmas need. */
  lemma AcceptedAnswerAdvances(s: BookingState, answer: string)
    requires Wf(s) && s.currentStep < |Fields|
    requires IsValidated(Fields[s.currentStep]) ==> Accepts(Fields[s.currentStep], answer)
    ensures var t := Step(s, answer);
            && Wf(t)
            && t.currentStep == s.currentStep + 1
            && t.retryCount == 0
            && t.collectedData[Fields[s.currentStep]] == Stored(s.currentStep, answer)
  {
    AcceptedAnswerIsStored(s, answer);
  }

  /** `answer`, given at cursor position `step`, is one the turn logic
      stores: any answer for an unvalidated field, a valid one otherwise. */
  predicate AnswerOk(step: nat, answer: string) {
    step < |Fields| && IsValidated(Fields[step]) ==> Accepts(Fields[step], answer)
  }

  /** A field behind the cursor is never written again, whatever is typed. */
  lemma {:induction false} EarlierFieldsAreFinal(s: BookingState, inputs: seq<string>, i: nat)
    requires Wf(s) && i < s.currentStep
    ensures Wf(Run(s, inputs))
    ensures Run(s, inputs).collectedData[Fields[i]] == s.collectedData[Fields[i]]
    decreases |inputs|
  {
    RunPreservesWf(s, inputs);
    if |inputs| > 0 {
      var s1 := Step(s, inputs[0]);
      TurnPreservesWf(s, inputs[0]);
      if s.currentStep < |Fields| {
        FieldsDistinct(i, s.currentStep);
      }
      assert s1.collectedData[Fields[i]] == s.collectedData[Fields[i]];
      EarlierFieldsAreFinal(s1, inputs[1..], i);
    }
  }

  /** Every answer in `answers`, the first given at cursor position `step`
      and each next one at the following position, is one the turn logic
      stores. */
  predicate AllOk(step: nat, answers: seq<string>)
    decreases |answers|
  {
    |answers| == 0 || (AnswerOk(step, answers[0]) && AllOk(step + 1, answers[1..]))
  }

  /** Accepted answers to every remaining field take the cursor to the end. */
  lemma {:induction false} AnswersReachCompletion(s: BookingState, answers: seq<string>)
    requires Wf(s) && s.retryCount == 0
    requires s.currentStep + |answers| == |Fields|
    requires AllOk(s.currentStep, answers)
    ensures Run(s, answers).currentStep == |Fields|
    decreases |answers|
  {
    if |answers| > 0 {
      var s1 := Step(s, answers[0]);
      var rest := answers[1..];
      assert Run(s, answers) == Run(s1, rest);
      AcceptedAnswerAdvances(s, answers[0]);
      AnswersReachCompletion(s1, rest);
    }
  }

  /** ... and each of those fields ends up holding its own answer. */
  lemma {:induction false} AnswerIsStoredInItsField(s: BookingState, answers: seq<string>, i: nat)
    requires Wf(s) && s.retryCount == 0
    requires s.currentStep + |answers| == |Fields|
    requires AllOk(s.currentStep, answers)
    requires s.currentStep <= i < |Fields|
    ensures Wf(Run(s, answers))
    ensures Run(s, answers).collectedData[Fields[i]] == Stored(i, answers[i - s.currentStep])
    decreases |answers|
  {
    RunPreservesWf(s, answers);
    var s1 := Step(s, answers[0]);
    var rest := answers[1..];
    assert Run(s, answers) == Run(s1, rest);
    AcceptedAnswerAdvances(s, answers[0]);
    if i == s.currentStep {
      EarlierFieldsAreFinal(s1, rest, i);
    } else {
      AnswerIsStoredInItsField(s1, rest, i);
      assert rest[i - s1.currentStep] == answers[i - s.currentStep];
    }
  }

  /** Nine answers whose sixth passes the national-ID check and whose ninth
      passes the phone check: the answers from position `k` on are all ones
      the turn logic stores. */
  lemma {:induction false} ValidAnswersOk(answers: seq<string>, k: nat)
    requires |answers| == |Fields| && k <= |Fields|
    requires Accepts(NationalId, answers[NationalIdStep])
    requires Accepts(PhoneNumber, answers[PhoneNumberStep])
    ensures AllOk(k, answers[k..])
    decreases |Fields| - k
  {
    if k < |Fields| {
      ValidAnswersOk(answers, k + 1);
      var tail := answers[k..];
      assert tail[0] == answers[k] && tail[1..] == answers[k + 1..];
      if IsValidated(Fields[k]) {
        ValidatedSteps(k);
      }
      assert AnswerOk(k, tail[0]);
    }
  }

  /** A fresh session given nine answers in order, the sixth a valid national
      ID and the ninth a valid phone number, reaches `"completed"` with the
      declared keys unchanged and no retry pending ... */
  lemma FreshSessionCompletes(answers: seq<string>)
    requires |answers| == |Fields|
    requires Accepts(NationalId, answers[NationalIdStep])
    requires Accepts(PhoneNumber, answers[PhoneNumberStep])
    ensures NextQuestion(Run(Initial(), answers)).0 == Completed
    ensures Run(Initial(), answers).collectedData.Keys == FieldSet
  {
    var s := Initial();
    InitialIsWf();
    assert AllOk(0, answers) by {
      ValidAnswersOk(answers, 0);
      assert answers[0..] == answers;
    }
    AnswersReachCompletion(s, answers);
    RunPreservesWf(s, answers);
  }

  /** ... and with every field holding its own answer, none skipped. */
  lemma FreshSessionStoresAnswers(answers: seq<string>)
    requires |answers| == |Fields|
    requires Accepts(NationalId, answers[NationalIdStep])
    requires Accepts(PhoneNumber, answers[PhoneNumberStep])
    ensures forall i :: 0 <= i < |Fields| ==>
              && Fields[i] in Run(Initial(), answers).collectedData
              && Run(Initial(), answers).collectedData[Fields[i]] == Stored(i, answers[i])
  {
    var s := Initial();
    InitialIsWf();
    assert AllOk(0, answers) by {
      ValidAnswersOk(answers, 0);
      assert answers[0..] == answers;
    }
    var f := Run(s, answers);
    forall i | 0 <= i < |Fields|
      ensures Fields[i] in f.collectedData && f.collectedData[Fields[i]] == Stored(i, answers[i])
    {
      AnswerIsStoredInItsField(s, answers, i);
    }
  }

  /** Two bad answers in a row to a validated field leave it unwritten and
      move the cursor past it. */
  lemma TwoBadAnswersSkipField(s: BookingState, first: string, second: string)
    requires Wf(s) && s.retryCount == 0 && s.currentStep < |Fields|
    requires IsValidated(Fields[s.currentStep])
    requires !Accepts(Fields[s.currentStep], first) && !Accepts(Fields[s.currentStep], second)
    ensures var f := Run(s, [first, second]);
            && f.currentStep == s.currentStep + 1
            && f.retryCount == 0
            && f.collectedData == s.collectedData
  {
    var s1 := Step(s, first);
    assert [first, second][1..] == [second];
    assert Run(s, [first, second]) == Run(s1, [second]);
    assert Run(s1, [second]) == Step(s1, second);
  }
}
