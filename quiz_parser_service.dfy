/**
 * The server-side quiz parser: it unwraps the quiz blob from the API
 * response, lets the (abstract) entity and JSON decoders turn it into a
 * value, and rewrites every raw question record into a strict question,
 * dropping malformed records and malformed choices one at a time.
 */
module QuizParserService {
  import opened Optional
  import opened JsonValue
  import opened PhpSemantics
  import opened Filtering

  /** A normalized choice: exactly `id`, `text` and `(bool) is_correct`. */
  datatype Choice = Choice(id: Json, text: Json, isCorrect: bool)

  /** The two feedback texts of a normalized question. */
  datatype Feedback = Feedback(correctFeedback: Json, incorrectFeedback: Json)

  /** A normalized question: `question`, the surviving `choices` and `feedback`; nothing else. */
  datatype Question = Question(question: Json, choices: seq<Choice>, feedback: Feedback)

  /** Why a whole question record was dropped. */
  datatype Rejection = MissingRequiredFields | InvalidChoices | InvalidFeedback | NoValidChoices

  /** What the parser writes to its logger channel; the message texts are not modelled. */
  datatype LogEntry =
    | InvalidApiData
    | QuizDataFieldMissing
    | JsonDecodeFailed
    | NotAnArray
    | QuestionRejected(question: nat, reason: Rejection)
    | ChoiceDropped(question: nat, choice: nat)
    | ParsedCount(count: nat)

  // ---------------------------------------------------------------------
  // Specification of processQuestion
  // ---------------------------------------------------------------------

  /** The normalized form of a raw choice, if it has `id`, `text` and `is_correct` (each set and not NULL). */
  function ChoiceOf(c: Json): Option<Choice> {
    if Isset(c, "id") && Isset(c, "text") && Isset(c, "is_correct") then
      Some(Choice(Index(c, "id"), Index(c, "text"), ToBool(Index(c, "is_correct"))))
    else None
  }

  /** The checks made before the choices are looked at, in the order the parser makes them. */
  function EarlyRejection(q: Json): Option<Rejection> {
    if !(Isset(q, "question") && Isset(q, "choices") && Isset(q, "feedback")) then
      Some(MissingRequiredFields)
    else if !IsArray(Index(q, "choices")) || |Values(Index(q, "choices"))| == 0 then
      Some(InvalidChoices)
    else if !(Isset(Index(q, "feedback"), "correct_feedback") && Isset(Index(q, "feedback"), "incorrect_feedback")) then
      Some(InvalidFeedback)
    else None
  }

  /** The raw choice records of a question. */
  function RawChoices(q: Json): seq<Json> {
    Values(Index(q, "choices"))
  }

  /** The normalized question a raw record yields, or None when it is dropped. */
  function QuestionOf(q: Json): Option<Question> {
    if EarlyRejection(q).Some? then None
    else
      var choices := FilterMap(RawChoices(q), ChoiceOf);
      if |choices| == 0 then None
      else
        var fb := Index(q, "feedback");
        Some(Question(Index(q, "question"), choices,
                      Feedback(Index(fb, "correct_feedback"), Index(fb, "incorrect_feedback"))))
  }

  /** One warning per dropped choice, at its position, in order. */
  function ChoiceLog(cs: seq<Json>, index: nat): seq<LogEntry>
    decreases |cs|
  {
    if |cs| == 0 then []
    else
      ChoiceLog(cs[..|cs| - 1], index)
      + (if ChoiceOf(cs[|cs| - 1]).None? then [ChoiceDropped(index, |cs| - 1)] else [])
  }

  /** One more choice adds one warning at its own position exactly when it is dropped. */
  lemma ChoiceLogStep(cs: seq<Json>, i: nat, index: nat)
    requires i < |cs|
    ensures ChoiceLog(cs[..i + 1], index) ==
              ChoiceLog(cs[..i], index) + (if ChoiceOf(cs[i]).None? then [ChoiceDropped(index, i)] else [])
  {
    assert cs[..i + 1][..i] == cs[..i];
  }

  /** What processing the record at position `index` logs. */
  function QuestionLog(q: Json, index: nat): seq<LogEntry> {
    match EarlyRejection(q)
    case Some(reason) => [QuestionRejected(index, reason)]
    case None =>
      ChoiceLog(RawChoices(q), index)
      + (if |FilterMap(RawChoices(q), ChoiceOf)| == 0 then [QuestionRejected(index, NoValidChoices)] else [])
  }

  // ---------------------------------------------------------------------
  // Specification of parseQuizData
  // ---------------------------------------------------------------------

  /**
   * The envelope checks: a non-empty response whose first item sets
   * `field_quiz_data`, a successful decode, and a decoded PHP array.
   * Succeeds with the raw question records.
   */
  function Unwrap(apiData: Json, decode: Json -> Decoded): Result<seq<Json>, LogEntry>
    requires IsArray(apiData)
  {
    if |Values(apiData)| == 0 then Err(InvalidApiData)
    else
      var node := Values(apiData)[0];
      if !Isset(node, "field_quiz_data") then Err(QuizDataFieldMissing)
      else
        match decode(Index(node, "field_quiz_data"))
        case DecodeFailed => Err(JsonDecodeFailed)
        case Decoded(v) => if IsArray(v) then Ok(Values(v)) else Err(NotAnArray)
  }

  /** The questions parseQuizData returns, or None for its NULL. */
  function ParsedQuestions(apiData: Json, decode: Json -> Decoded): Option<seq<Question>>
    requires IsArray(apiData)
  {
    match Unwrap(apiData, decode)
    case Err(_) => None
    case Ok(records) => Some(FilterMap(records, QuestionOf))
  }

  /** The log of every record, record after record. */
  function QuestionsLog(records: seq<Json>): seq<LogEntry>
    decreases |records|
  {
    if |records| == 0 then []
    else QuestionsLog(records[..|records| - 1]) + QuestionLog(records[|records| - 1], |records| - 1)
  }

  /** One more record appends exactly what processing it logs. */
  lemma QuestionsLogStep(records: seq<Json>, i: nat)
    requires i < |records|
    ensures QuestionsLog(records[..i + 1]) == QuestionsLog(records[..i]) + QuestionLog(records[i], i)
  {
    assert records[..i + 1][..i] == records[..i];
  }

  /** Everything parseQuizData logs. */
  function ParseLog(apiData: Json, decode: Json -> Decoded): seq<LogEntry>
    requires IsArray(apiData)
  {
    match Unwrap(apiData, decode)
    case Err(e) => [e]
    case Ok(records) => QuestionsLog(records) + [ParsedCount(|FilterMap(records, QuestionOf)|)]
  }

  // ---------------------------------------------------------------------
  // The two methods
  // ---------------------------------------------------------------------

  /**
   * processQuestion's choice loop: each raw choice with `id`, `text` and
   * `is_correct` set is normalized and kept; each other one is skipped with
   * a warning naming its position.
   */
  method ProcessChoices(cs: seq<Json>, index: nat) returns (processed: seq<Choice>, log: seq<LogEntry>)
    ensures processed == FilterMap(cs, ChoiceOf)
    ensures log == ChoiceLog(cs, index)
  {
    processed := [];
    log := [];
    var i := 0;
    while i < |cs|
      invariant i <= |cs|
      invariant processed == FilterMap(cs[..i], ChoiceOf)
      invariant log == ChoiceLog(cs[..i], index)
    {
      var choice := cs[i];
      ChoiceLogStep(cs, i, index);
      FilterMapStep(cs, i, ChoiceOf);
      if !Isset(choice, "id") || !Isset(choice, "text") || !Isset(choice, "is_correct") {
        log := log + [ChoiceDropped(index, i)];
        i := i + 1;
        continue;
      }
      processed := processed + [Choice(Index(choice, "id"), Index(choice, "text"), ToBool(Index(choice, "is_correct")))];
      i := i + 1;
    }
    assert cs[..i] == cs;
  }

  /**
   * processQuestion: validates one raw record and builds its normalized form,
   * filtering the choices in a loop. `index` is the record's position, used
   * in the log.
   */
  method ProcessQuestion(question: Json, index: nat) returns (r: Option<Question>, log: seq<LogEntry>)
    ensures r == QuestionOf(question)
    ensures log == QuestionLog(question, index)
  {
    if !Isset(question, "question") || !Isset(question, "choices") || !Isset(question, "feedback") {
      assert EarlyRejection(question) == Some(MissingRequiredFields);
      return None, [QuestionRejected(index, MissingRequiredFields)];
    }
    var rawChoices := Index(question, "choices");
    if !IsArray(rawChoices) || |Values(rawChoices)| == 0 {
      assert EarlyRejection(question) == Some(InvalidChoices);
      return None, [QuestionRejected(index, InvalidChoices)];
    }
    var feedback := Index(question, "feedback");
    if !Isset(feedback, "correct_feedback") || !Isset(feedback, "incorrect_feedback") {
      assert EarlyRejection(question) == Some(InvalidFeedback);
      return None, [QuestionRejected(index, InvalidFeedback)];
    }
    assert EarlyRejection(question) == None;

    var processed;
    processed, log := ProcessChoices(Values(rawChoices), index);
    assert Values(rawChoices) == RawChoices(question);

    if |processed| == 0 {
      return None, log + [QuestionRejected(index, NoValidChoices)];
    }
    r := Some(Question(Index(question, "question"), processed,
                       Feedback(Index(feedback, "correct_feedback"), Index(feedback, "incorrect_feedback"))));
  }

  /**
   * parseQuizData: the envelope checks, then every record through
   * ProcessQuestion, keeping the accepted ones in order. `apiData` is a PHP
   * array (the parameter's type declaration); `decode` stands for entity
   * decoding followed by `json_decode` and its error check.
   */
  method ParseQuizData(apiData: Json, decode: Json -> Decoded) returns (r: Option<seq<Question>>, log: seq<LogEntry>)
    requires IsArray(apiData)
    ensures r == ParsedQuestions(apiData, decode)
    ensures log == ParseLog(apiData, decode)
  {
    var items := Values(apiData);
    if |items| == 0 || !IsArray(apiData) {
      return None, [InvalidApiData];
    }
    var quizNode := items[0];
    if !Isset(quizNode, "field_quiz_data") {
      return None, [QuizDataFieldMissing];
    }
    var decoded := decode(Index(quizNode, "field_quiz_data"));
    if decoded.DecodeFailed? {
      return None, [JsonDecodeFailed];
    }
    var quizQuestions := decoded.value;
    if !IsArray(quizQuestions) {
      return None, [NotAnArray];
    }

    var records := Values(quizQuestions);
    var processed: seq<Question> := [];
    log := [];
    var i := 0;
    while i < |records|
      invariant i <= |records|
      invariant processed == FilterMap(records[..i], QuestionOf)
      invariant log == QuestionsLog(records[..i])
    {
      QuestionsLogStep(records, i);
      FilterMapStep(records, i, QuestionOf);
      var pq, qlog := ProcessQuestion(records[i], i);
      log := log + qlog;
      if pq.Some? {
        processed := processed + [pq.value];
      }
      i := i + 1;
    }
    assert records[..i] == records;
    log := log + [ParsedCount(|processed|)];
    r := Some(processed);
  }

  // ---------------------------------------------------------------------
  // Properties of the envelope checks
  // ---------------------------------------------------------------------

  /** NULL for an empty response, a first item without `field_quiz_data`, a decode error or a non-array; otherwise every record is processed. */
  lemma ParseReturnsNullExactlyWhen(apiData: Json, decode: Json -> Decoded)
    requires IsArray(apiData)
    ensures |Values(apiData)| == 0 ==> ParsedQuestions(apiData, decode) == None
    ensures |Values(apiData)| > 0 && !Isset(Values(apiData)[0], "field_quiz_data") ==>
              ParsedQuestions(apiData, decode) == None
    ensures |Values(apiData)| > 0 && Isset(Values(apiData)[0], "field_quiz_data") ==>
              var d := decode(Index(Values(apiData)[0], "field_quiz_data"));
              && (d.DecodeFailed? ==> ParsedQuestions(apiData, decode) == None)
              && (d.Decoded? && !IsArray(d.value) ==> ParsedQuestions(apiData, decode) == None)
              && (d.Decoded? && IsArray(d.value) ==>
                    ParsedQuestions(apiData, decode) == Some(FilterMap(Values(d.value), QuestionOf)))
  {
  }

  /**
   * The questions returned are the accepted records' normalized forms, in
   * source order, at most one per record, and no accepted record is missing.
   */
  lemma OutputIsOrderedSubsequence(apiData: Json, decode: Json -> Decoded, records: seq<Json>)
    returns (idx: seq<nat>)
    requires IsArray(apiData) && Unwrap(apiData, decode) == Ok(records)
    ensures ParsedQuestions(apiData, decode).Some?
    ensures var out := ParsedQuestions(apiData, decode).value;
      && |out| == |idx| <= |records|
      && (forall k :: 0 <= k < |idx| ==> idx[k] < |records| && QuestionOf(records[idx[k]]) == Some(out[k]))
      && (forall k, l :: 0 <= k < l < |idx| ==> idx[k] < idx[l])
      && (forall j :: 0 <= j < |records| && QuestionOf(records[j]).Some? ==> j in idx)
  {
    idx := FilterMapIndices(records, QuestionOf);
  }

  /** The number of dropped-question warnings in a log. */
  function Rejections(log: seq<LogEntry>): nat
    decreases |log|
  {
    if |log| == 0 then 0
    else Rejections(log[..|log| - 1]) + (if log[|log| - 1].QuestionRejected? then 1 else 0)
  }

  lemma {:induction false} RejectionsAppend(a: seq<LogEntry>, b: seq<LogEntry>)
    ensures Rejections(a + b) == Rejections(a) + Rejections(b)
    decreases |b|
  {
    if |b| == 0 {
      assert a + b == a;
    } else {
      assert (a + b)[..|a + b| - 1] == a + b[..|b| - 1];
      RejectionsAppend(a, b[..|b| - 1]);
    }
  }

  lemma {:induction false} ChoiceLogHasNoRejection(cs: seq<Json>, index: nat)
    ensures Rejections(ChoiceLog(cs, index)) == 0
    decreases |cs|
  {
    if |cs| > 0 {
      ChoiceLogHasNoRejection(cs[..|cs| - 1], index);
      var tail := if ChoiceOf(cs[|cs| - 1]).None? then [ChoiceDropped(index, |cs| - 1)] else [];
      RejectionsAppend(ChoiceLog(cs[..|cs| - 1], index), tail);
      assert Rejections(tail) == 0 by {
        if |tail| == 1 { assert tail[..0] == []; }
      }
    }
  }

  /** A record is dropped exactly when processing it logs one rejection. */
  lemma QuestionLogRejection(q: Json, index: nat)
    ensures Rejections(QuestionLog(q, index)) == if QuestionOf(q).None? then 1 else 0
  {
    var single := [QuestionRejected(index, NoValidChoices)];
    assert Rejections(single) == 1 by { assert single[..0] == []; }
    if EarlyRejection(q).Some? {
      assert Rejections([QuestionRejected(index, EarlyRejection(q).value)]) == 1 by {
        assert [QuestionRejected(index, EarlyRejection(q).value)][..0] == [];
      }
    } else {
      ChoiceLogHasNoRejection(RawChoices(q), index);
      var tail: seq<LogEntry> := if |FilterMap(RawChoices(q), ChoiceOf)| == 0 then single else [];
      RejectionsAppend(ChoiceLog(RawChoices(q), index), tail);
    }
  }

  lemma {:induction false} QuestionsLogRejections(records: seq<Json>)
    ensures Rejections(QuestionsLog(records)) + |FilterMap(records, QuestionOf)| == |records|
    decreases |records|
  {
    if |records| > 0 {
      var n := |records| - 1;
      var prefix := records[..n];
      QuestionsLogRejections(prefix);
      assert QuestionsLog(records) == QuestionsLog(prefix) + QuestionLog(records[n], n);
      assert FilterMap(records, QuestionOf) == FilterMap(prefix, QuestionOf) + Kept(QuestionOf(records[n]));
      RejectionsAppend(QuestionsLog(prefix), QuestionLog(records[n], n));
      QuestionLogRejection(records[n], n);
    }
  }

  /** The number of dropped-question warnings in a log that name the record at position `j`. */
  function RejectionsOf(log: seq<LogEntry>, j: nat): nat
    decreases |log|
  {
    if |log| == 0 then 0
    else
      var e := log[|log| - 1];
      RejectionsOf(log[..|log| - 1], j) + (if e.QuestionRejected? && e.question == j then 1 else 0)
  }

  lemma {:induction false} RejectionsOfAppend(a: seq<LogEntry>, b: seq<LogEntry>, j: nat)
    ensures RejectionsOf(a + b, j) == RejectionsOf(a, j) + RejectionsOf(b, j)
    decreases |b|
  {
    if |b| == 0 {
      assert a + b == a;
    } else {
      assert (a + b)[..|a + b| - 1] == a + b[..|b| - 1];
      RejectionsOfAppend(a, b[..|b| - 1], j);
    }
  }

  /** A naming count never exceeds the total count of dropped-question warnings. */
  lemma {:induction false} RejectionsOfAtMostRejections(log: seq<LogEntry>, j: nat)
    ensures RejectionsOf(log, j) <= Rejections(log)
    decreases |log|
  {
    if |log| > 0 {
      RejectionsOfAtMostRejections(log[..|log| - 1], j);
    }
  }

  /** Processing the record at `index` rejects that record, and only it, exactly when it is dropped. */
  lemma QuestionLogNamesItsRecord(q: Json, index: nat, j: nat)
    ensures RejectionsOf(QuestionLog(q, index), j) == if j == index && QuestionOf(q).None? then 1 else 0
  {
    var reason := if EarlyRejection(q).Some? then EarlyRejection(q).value else NoValidChoices;
    var single := [QuestionRejected(index, reason)];
    assert RejectionsOf(single, j) == if j == index then 1 else 0 by { assert single[..0] == []; }
    if EarlyRejection(q).None? {
      ChoiceLogHasNoRejection(RawChoices(q), index);
      RejectionsOfAtMostRejections(ChoiceLog(RawChoices(q), index), j);
      var tail: seq<LogEntry> := if |FilterMap(RawChoices(q), ChoiceOf)| == 0 then single else [];
      RejectionsOfAppend(ChoiceLog(RawChoices(q), index), tail, j);
    }
  }

  /** Across all records, the record at `j` is rejected once if it is dropped and never otherwise. */
  lemma {:induction false} QuestionsLogNamesRecords(records: seq<Json>, j: nat)
    ensures RejectionsOf(QuestionsLog(records), j) ==
              if j < |records| && QuestionOf(records[j]).None? then 1 else 0
    decreases |records|
  {
    if |records| > 0 {
      var n := |records| - 1;
      var prefix := records[..n];
      QuestionsLogNamesRecords(prefix, j);
      assert QuestionsLog(records) == QuestionsLog(prefix) + QuestionLog(records[n], n);
      RejectionsOfAppend(QuestionsLog(prefix), QuestionLog(records[n], n), j);
      QuestionLogNamesItsRecord(records[n], n, j);
      if j < n {
        assert prefix[j] == records[j];
      }
    }
  }

  /**
   * Every record that is not returned is logged as rejected exactly once, no
   * returned record is logged as rejected, and no rejection names a position
   * past the records.
   */
  lemma DroppedRecordsAreLogged(apiData: Json, decode: Json -> Decoded, records: seq<Json>)
    requires IsArray(apiData) && Unwrap(apiData, decode) == Ok(records)
    ensures Rejections(ParseLog(apiData, decode)) == |records| - |ParsedQuestions(apiData, decode).value|
    ensures forall j: nat :: j < |records| ==>
              RejectionsOf(ParseLog(apiData, decode), j) == if QuestionOf(records[j]).None? then 1 else 0
    ensures forall j: nat :: j >= |records| ==> RejectionsOf(ParseLog(apiData, decode), j) == 0
  {
    QuestionsLogRejections(records);
    var last := [ParsedCount(|FilterMap(records, QuestionOf)|)];
    RejectionsAppend(QuestionsLog(records), last);
    assert Rejections(last) == 0 by { assert last[..0] == []; }
    forall j: nat
      ensures RejectionsOf(ParseLog(apiData, decode), j) ==
                if j < |records| && QuestionOf(records[j]).None? then 1 else 0
    {
      QuestionsLogNamesRecords(records, j);
      RejectionsOfAppend(QuestionsLog(records), last, j);
      assert RejectionsOf(last, j) == 0 by { assert last[..0] == []; }
    }
  }

  // ---------------------------------------------------------------------
  // Properties of the per-record validation
  // ---------------------------------------------------------------------

  /** A record lacking `question`, `choices` or `feedback` (absent or NULL) is dropped, with one warning. */
  lemma MissingFieldRejected(q: Json, index: nat)
    requires !Isset(q, "question") || !Isset(q, "choices") || !Isset(q, "feedback")
    ensures QuestionOf(q) == None
    ensures QuestionLog(q, index) == [QuestionRejected(index, MissingRequiredFields)]
  {
  }

  /** A record whose `choices` is not an array, or is empty, is dropped. */
  lemma BadChoicesRejected(q: Json, index: nat)
    requires Isset(q, "question") && Isset(q, "choices") && Isset(q, "feedback")
    requires !IsArray(Index(q, "choices")) || |Values(Index(q, "choices"))| == 0
    ensures QuestionOf(q) == None
    ensures QuestionLog(q, index) == [QuestionRejected(index, InvalidChoices)]
  {
  }

  /**
   * A record whose feedback lacks either text is dropped before its choices
   * are looked at: no choice warning is logged, whatever the choices are.
   */
  lemma BadFeedbackRejected(q: Json, index: nat)
    requires Isset(q, "question") && Isset(q, "choices") && Isset(q, "feedback")
    requires IsArray(Index(q, "choices")) && |Values(Index(q, "choices"))| > 0
    requires !Isset(Index(q, "feedback"), "correct_feedback") || !Isset(Index(q, "feedback"), "incorrect_feedback")
    ensures QuestionOf(q) == None
    ensures QuestionLog(q, index) == [QuestionRejected(index, InvalidFeedback)]
  {
  }

  /** A choice survives exactly when it sets all three fields, and then carries exactly those, with `is_correct` cast to bool. */
  lemma ChoiceNormalization(c: Json)
    ensures ChoiceOf(c).Some? <==> Isset(c, "id") && Isset(c, "text") && Isset(c, "is_correct")
    ensures ChoiceOf(c).Some? ==>
              && ChoiceOf(c).value.id == Index(c, "id") && ChoiceOf(c).value.text == Index(c, "text")
              && ChoiceOf(c).value.isCorrect == ToBool(Index(c, "is_correct"))
  {
  }

  /**
   * A record that passes the early checks is accepted exactly when one of its
   * choices survives; an accepted record carries `question`, the surviving
   * choices and the two feedback texts, unchanged.
   */
  lemma AcceptedExactly(q: Json)
    ensures QuestionOf(q).Some? <==>
              EarlyRejection(q).None? && exists j :: 0 <= j < |RawChoices(q)| && ChoiceOf(RawChoices(q)[j]).Some?
    ensures QuestionOf(q).Some? ==>
              QuestionOf(q).value ==
                Question(Index(q, "question"), FilterMap(RawChoices(q), ChoiceOf),
                         Feedback(Index(Index(q, "feedback"), "correct_feedback"),
                                  Index(Index(q, "feedback"), "incorrect_feedback")))
  {
    FilterMapEmpty(RawChoices(q), ChoiceOf);
  }

  /** If no choice sets `is_correct`, the record is dropped as having no valid choice; no choice is taken as correct by default. */
  lemma NoIsCorrectRejected(q: Json, index: nat)
    requires EarlyRejection(q).None?
    requires forall j :: 0 <= j < |RawChoices(q)| ==> !Isset(RawChoices(q)[j], "is_correct")
    ensures QuestionOf(q) == None
    ensures QuestionLog(q, index) == ChoiceLog(RawChoices(q), index) + [QuestionRejected(index, NoValidChoices)]
  {
    FilterMapEmpty(RawChoices(q), ChoiceOf);
  }

  // ---------------------------------------------------------------------
  // Finding: a record that is not a PHP array
  // ---------------------------------------------------------------------

  /** What parseQuizData does as written. */
  datatype AsWrittenOutcome = Returned(result: Option<seq<Question>>) | UncaughtTypeError

  /**
   * As written, processQuestion declares `array $question`; a record that is
   * a scalar or NULL raises a TypeError, which is an Error and not an
   * Exception, so the surrounding `catch (\Exception $e)` does not catch it.
   */
  function ParseQuizDataAsWritten(apiData: Json, decode: Json -> Decoded): (r: AsWrittenOutcome)
    requires IsArray(apiData)
    ensures r.Returned? && Unwrap(apiData, decode).Ok? ==> forall j :: 0 <= j < |Unwrap(apiData, decode).value| ==> IsArray(Unwrap(apiData, decode).value[j])
  {
    match Unwrap(apiData, decode)
    case Err(_) => Returned(None)
    case Ok(records) =>
      if exists j :: 0 <= j < |records| && !IsArray(records[j]) then UncaughtTypeError
      else Returned(Some(FilterMap(records, QuestionOf)))
  }

  /** The API response `[{"field_quiz_data": "[null]"}]`. */
  const NullRecordResponse := Arr([Obj([("field_quiz_data", Str("[null]"))])])

  /** Entity and JSON decoding of that response's blob. */
  function DecodeNullRecord(raw: Json): Decoded {
    Decoded(Arr([Null]))
  }

  /** As written, the single NULL record aborts the request; the corrected parser drops it and returns an empty list. */
  lemma NullRecordCrashesAsWritten()
    ensures ParseQuizDataAsWritten(NullRecordResponse, DecodeNullRecord) == UncaughtTypeError
    ensures ParsedQuestions(NullRecordResponse, DecodeNullRecord) == Some([])
  {
    assert Values(NullRecordResponse)[0] == Obj([("field_quiz_data", Str("[null]"))]);
    assert Index(Values(NullRecordResponse)[0], "field_quiz_data") == Str("[null]");
    assert Unwrap(NullRecordResponse, DecodeNullRecord) == Ok([Null]);
    assert !IsArray([Null][0]);
  }

  /** Corrected: a record that is not a PHP array is dropped as lacking the required fields, like `isset` reports. */
  lemma NonArrayRecordRejected(q: Json, index: nat)
    requires !IsArray(q)
    ensures QuestionOf(q) == None
    ensures QuestionLog(q, index) == [QuestionRejected(index, MissingRequiredFields)]
  {
  }

  /** On records that are all PHP arrays the corrected parser returns what the original returns. */
  lemma CorrectionAgreesOnArrayRecords(apiData: Json, decode: Json -> Decoded)
    requires IsArray(apiData)
    requires Unwrap(apiData, decode).Ok? ==>
               forall j :: 0 <= j < |Unwrap(apiData, decode).value| ==> IsArray(Unwrap(apiData, decode).value[j])
    ensures ParseQuizDataAsWritten(apiData, decode) == Returned(ParsedQuestions(apiData, decode))
  {
  }
}
