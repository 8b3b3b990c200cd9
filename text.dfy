/**
 * The text sub-application: the non-empty text validator and the shaping of
 * each endpoint's input and output around its (opaque) processor.
 */
module TextRouter {
  import opened Wrappers
  import opened Response

  const EmptyTextMessage := "text field can't be empty"

  /** A request body holding one text that passed `TextMustBeValid`. */
  datatype TextRequest = TextRequest(text: string)

  /** The message a `str` field gives for a null or missing value, before any validator runs. */
  const NoTextMessage := "none is not an allowed value"

  /**
   * Validation of the `text: str` field followed by `TextRequest.text_must_be_valid`:
   * a null or missing value fails the `str` type check first, so it never reaches the
   * validator's own `None` test; the empty string is refused by the validator.
   */
  function TextMustBeValid(v: Option<string>): (r: Result<string, Failure>)
    ensures r.Success? <==> v.Some? && v.value != ""
    ensures r.Success? ==> r.value == v.value
    ensures v.None? ==> r == Failure(ValidationError(NoTextMessage))
    ensures v == Some("") ==> r == Failure(ValidationError(EmptyTextMessage))
  {
    if v.None? then Failure(ValidationError(NoTextMessage))
    else if v.value == "" then Failure(ValidationError(EmptyTextMessage))
    else Success(v.value)
  }

  /** One refused element of a list body: its position (location `body`, `index`, `text`) and its error. */
  datatype ElementError = ElementError(index: nat, error: Failure)

  /** `errs` lists every refused element of `raw` with its own error, once each, in body order. */
  ghost predicate ReportsEveryRefusal(raw: seq<Option<string>>, errs: seq<ElementError>)
  {
    && (forall k :: 0 <= k < |errs| ==>
          errs[k].index < |raw| && TextMustBeValid(raw[errs[k].index]) == Failure(errs[k].error))
    && (forall k, l :: 0 <= k < l < |errs| ==> errs[k].index < errs[l].index)
    && (forall i :: 0 <= i < |raw| && TextMustBeValid(raw[i]).Failure? ==>
          exists k :: 0 <= k < |errs| && errs[k].index == i)
  }

  /** Every element is validated; the errors of all refused ones are collected. */
  function Refusals(raw: seq<Option<string>>): (errs: seq<ElementError>)
    ensures ReportsEveryRefusal(raw, errs)
  {
    if raw == [] then []
    else
      var n := |raw| - 1;
      var front := Refusals(raw[..n]);
      var errs := if TextMustBeValid(raw[n]).Failure? then front + [ElementError(n, TextMustBeValid(raw[n]).error)] else front;
      assert ReportsEveryRefusal(raw, errs) by {
        assert forall k :: 0 <= k < |front| ==> errs[k] == front[k];
        forall i | 0 <= i < |raw| && TextMustBeValid(raw[i]).Failure?
          ensures exists k :: 0 <= k < |errs| && errs[k].index == i
        {
          if i < n {
            assert raw[..n][i] == raw[i];
            var k :| 0 <= k < |front| && front[k].index == i;
            assert errs[k].index == i;
          } else {
            assert errs[|errs| - 1].index == i;
          }
        }
      }
      errs
  }

  /** The requests of a body whose every element is valid, in order. */
  function Accepted(raw: seq<Option<string>>): (r: seq<TextRequest>)
    requires forall i :: 0 <= i < |raw| ==> TextMustBeValid(raw[i]).Success?
    ensures |r| == |raw| && forall i :: 0 <= i < |raw| ==> Some(r[i].text) == raw[i]
  {
    if raw == [] then []
    else
      assert TextMustBeValid(raw[0]).Success?;
      [TextRequest(raw[0].value)] + Accepted(raw[1..])
  }

  /**
   * Validation of a `list[TextRequest]` body: accepted only when every element is;
   * otherwise the 422 lists every refused element with its index, in body order.
   */
  function ParseTextRequests(raw: seq<Option<string>>): (r: Result<seq<TextRequest>, seq<ElementError>>)
    ensures r.Success? <==> forall i :: 0 <= i < |raw| ==> TextMustBeValid(raw[i]).Success?
    ensures r.Success? ==> |r.value| == |raw| && forall i :: 0 <= i < |raw| ==> Some(r.value[i].text) == raw[i]
    ensures r.Failure? ==> |r.error| > 0 && ReportsEveryRefusal(raw, r.error)
  {
    var errs := Refusals(raw);
    if errs != [] then
      assert TextMustBeValid(raw[errs[0].index]).Failure?;
      Failure(errs)
    else Success(Accepted(raw))
  }

  /** A body with an empty and a null text reports both, at positions 0 and 1. */
  lemma BothRefusalsReported()
    ensures ParseTextRequests([Some(""), None])
         == Failure([ElementError(0, ValidationError(EmptyTextMessage)), ElementError(1, ValidationError(NoTextMessage))])
  {
    var raw: seq<Option<string>> := [Some(""), None];
    assert raw[..1] == [Some("")];
    assert raw[..1][..0] == [];
    assert TextMustBeValid(Some("")) == Failure(ValidationError(EmptyTextMessage));
    assert Refusals([]) == [];
    assert Refusals(raw[..1]) == [ElementError(0, ValidationError(EmptyTextMessage))];
    assert Refusals(raw) == [ElementError(0, ValidationError(EmptyTextMessage)), ElementError(1, ValidationError(NoTextMessage))];
  }

  /** `[p.text for p in payload]`. */
  function PayloadTexts(payload: seq<TextRequest>): (texts: seq<string>)
    ensures |texts| == |payload|
    ensures forall i :: 0 <= i < |payload| ==> texts[i] == payload[i].text
  {
    if payload == [] then [] else [payload[0].text] + PayloadTexts(payload[1..])
  }

  /** One classification of one text. */
  datatype LabelScore = LabelScore(labelName: string, score: real)

  /** `classifier`: the processor gets the payload texts, in payload order, unfiltered. */
  function Classifier(payload: seq<TextRequest>, classify: seq<string> -> seq<LabelScore>): (r: ApiResponse<seq<LabelScore>>)
    ensures forall texts: seq<string> ::
      |texts| == |payload| && (forall i :: 0 <= i < |payload| ==> texts[i] == payload[i].text) ==>
      r == WithData(classify(texts))
  {
    var texts := PayloadTexts(payload);
    assert forall t: seq<string> :: |t| == |payload| && (forall i :: 0 <= i < |payload| ==> t[i] == payload[i].text) ==> t == texts;
    WithData(classify(texts))
  }

  /** `sentiment_analyzer`: the same shaping as the classifier, with another processor. */
  function SentimentAnalyzer(payload: seq<TextRequest>, analyze: seq<string> -> seq<LabelScore>): (r: ApiResponse<seq<LabelScore>>)
    ensures forall texts: seq<string> ::
      |texts| == |payload| && (forall i :: 0 <= i < |payload| ==> texts[i] == payload[i].text) ==>
      r == WithData(analyze(texts))
  {
    var texts := PayloadTexts(payload);
    assert forall t: seq<string> :: |t| == |payload| && (forall i :: 0 <= i < |payload| ==> t[i] == payload[i].text) ==> t == texts;
    WithData(analyze(texts))
  }

  datatype Summary = Summary(summaryText: string)

  /** `summarizer`: the response data is the processor's first summary; none at all is an unhandled error. */
  function Summarizer(payload: TextRequest, summarize: string -> seq<Summary>): (r: Result<ApiResponse<Summary>, Failure>)
    ensures r.Success? <==> summarize(payload.text) != []
    ensures r.Success? ==> r.value == WithData(summarize(payload.text)[0])
  {
    var result := summarize(payload.text);
    if result == [] then Failure(UnhandledError("IndexError: list index out of range"))
    else Success(WithData(result[0]))
  }

  /** The body of `/question-answering`; its text is not run through the validator. */
  datatype QuestionAnswerRequest = QuestionAnswerRequest(text: string, questions: seq<string>)

  datatype Answer = Answer(score: real, start: int, end: int, answer: string)

  datatype QuestionAnswer = QuestionAnswer(question: string, answer: Answer)

  /** `question_answering`: one entry per question, in order, each with the processor's answer. */
  method QuestionAnswering(payload: QuestionAnswerRequest, answerQuestion: (string, string) -> Answer)
    returns (r: ApiResponse<seq<QuestionAnswer>>)
    ensures r.error.None? && r.data.Some?
    ensures |r.data.value| == |payload.questions|
    ensures forall i :: 0 <= i < |payload.questions| ==>
      r.data.value[i] == QuestionAnswer(payload.questions[i], answerQuestion(payload.text, payload.questions[i]))
  {
    var answers: seq<QuestionAnswer> := [];
    for k := 0 to |payload.questions|
      invariant |answers| == k
      invariant forall i :: 0 <= i < k ==>
        answers[i] == QuestionAnswer(payload.questions[i], answerQuestion(payload.text, payload.questions[i]))
    {
      var question := payload.questions[k];
      var answer := answerQuestion(payload.text, question);
      answers := answers + [QuestionAnswer(question, answer)];
    }
    r := WithData(answers);
  }

  datatype LabelRequest = LabelRequest(text: string, labels: seq<string>)

  datatype LabelOutput = LabelOutput(sequence: string, labels: seq<string>, scores: seq<real>)

  /**
   * The Python value `multi_label` holds: the declared default `True`, or,
   * the parameter being unannotated, the query string exactly as sent.
   */
  datatype MultiLabelArg = DefaultTrue | QueryString(raw: string)

  /**
   * `labelizer`: text and labels go to the zero-shot processor unchanged;
   * `multiLabel` is the query parameter, `None` when absent, never converted.
   */
  function Labelizer(payload: LabelRequest, multiLabel: Option<string>,
                     zeroShot: (string, seq<string>, MultiLabelArg) -> LabelOutput): (r: ApiResponse<LabelOutput>)
    ensures multiLabel.None? ==> r == WithData(zeroShot(payload.text, payload.labels, DefaultTrue))
    ensures multiLabel.Some? ==> r == WithData(zeroShot(payload.text, payload.labels, QueryString(multiLabel.value)))
  {
    var flag := if multiLabel.Some? then QueryString(multiLabel.value) else DefaultTrue;
    WithData(zeroShot(payload.text, payload.labels, flag))
  }
}
