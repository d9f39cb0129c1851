/**
 * The validating variant of `POST /generate_assignments` (main.py): short questions
 * are worth 2 marks and long ones 5; the request is rejected with a 400 before any
 * generation call when the computed total differs from `num_assignments`; otherwise
 * the question generator is called for the short and then the long questions and
 * each reply is shaped into `{question, marks}` records.
 *
 * The upstream completion service is a parameter: a total function from the
 * arguments of one generation call to the reply text or the text of the error the
 * call (or reading its reply) raised.
 */
module Assignments {
  import opened Wrappers
  import opened Http
  import opened ReplyText
  import Decimal

  const ShortMark: int := 2
  const LongMark: int := 5

  datatype QuestionType = Short | Long

  /** The request body; integers are unbounded and may be negative, as the request model does not restrict them. */
  datatype AssignmentRequest = AssignmentRequest(
    subject: string,
    shortQuestions: int,
    longQuestions: int,
    topics: seq<string>,
    numAssignments: int)

  datatype QuestionRecord = QuestionRecord(question: string, marks: int)

  datatype AssignmentResponse = AssignmentResponse(
    subject: string,
    totalMarks: int,
    shortQuestionMarks: int,
    longQuestionMarks: int,
    shortQuestions: seq<QuestionRecord>,
    longQuestions: seq<QuestionRecord>)

  /** The arguments of one call of the question generator, from which its prompt is built. */
  datatype GenerationCall = GenerationCall(
    subject: string,
    topics: seq<string>,
    count: int,
    qtype: QuestionType,
    marks: int)

  /** What one request does: the generation calls it issues, in order, and its response or error. */
  datatype Exchange = Exchange(calls: seq<GenerationCall>, outcome: Result<AssignmentResponse, HttpError>)

  function ShortCall(req: AssignmentRequest): GenerationCall {
    GenerationCall(req.subject, req.topics, req.shortQuestions, Short, ShortMark)
  }

  function LongCall(req: AssignmentRequest): GenerationCall {
    GenerationCall(req.subject, req.topics, req.longQuestions, Long, LongMark)
  }

  /** The 400 detail text: the computed total and the expected one, rendered with `str`. */
  function MismatchDetail(total: int, expected: int): (r: string)
    ensures "Total marks from questions = " <= r && r[|r| - 1] == '.'
    ensures forall k :: 0 <= k < |r| ==> r[k] != '\n'
  {
    "Total marks from questions = " + Decimal.IntToString(total) + ", but expected "
      + Decimal.IntToString(expected) + "."
  }

  /** Two strings followed by the same separator, which neither contains, are equal when the whole texts are. */
  lemma SplitAtSeparator(a1: string, r1: string, a2: string, r2: string, sep: char)
    requires sep !in a1 && sep !in a2
    requires r1 != [] && r1[0] == sep && r2 != [] && r2[0] == sep
    requires a1 + r1 == a2 + r2
    ensures a1 == a2 && r1 == r2
  {
    forall k | 0 <= k < |a1| ensures (a1 + r1)[k] != sep {
      assert (a1 + r1)[k] == a1[k];
    }
    forall k | 0 <= k < |a2| ensures (a2 + r2)[k] != sep {
      assert (a2 + r2)[k] == a2[k];
    }
    assert (a1 + r1)[|a1|] == sep && (a2 + r2)[|a2|] == sep;
    assert |a1| == |a2|;
    assert a1 == (a1 + r1)[..|a1|];
    assert a2 == (a2 + r2)[..|a2|];
    assert r1 == (a1 + r1)[|a1|..];
    assert r2 == (a2 + r2)[|a2|..];
  }

  /** A rendered integer holds no comma, so the comma after it marks where it ends. */
  lemma NoCommaInRenderedInt(i: int)
    ensures ',' !in Decimal.IntToString(i)
  {
  }

  lemma CancelPrefix(p: string, x: string, y: string)
    requires p + x == p + y
    ensures x == y
  {
    assert x == (p + x)[|p|..];
    assert y == (p + y)[|p|..];
  }

  lemma CancelSuffix(x: string, y: string, q: string)
    requires x + q == y + q
    ensures x == y
  {
    assert x == (x + q)[..|x|];
    assert y == (y + q)[..|y|];
  }

  /** A text made of two rendered integers between fixed parts, the middle one starting with a comma, determines both integers. */
  lemma RenderedPairInjective(pre: string, mid: string, post: string, t1: int, e1: int, t2: int, e2: int)
    requires mid != [] && mid[0] == ','
    requires pre + Decimal.IntToString(t1) + mid + Decimal.IntToString(e1) + post
          == pre + Decimal.IntToString(t2) + mid + Decimal.IntToString(e2) + post
    ensures t1 == t2 && e1 == e2
  {
    var a1, b1 := Decimal.IntToString(t1), Decimal.IntToString(e1);
    var a2, b2 := Decimal.IntToString(t2), Decimal.IntToString(e2);
    var r1, r2 := mid + (b1 + post), mid + (b2 + post);
    assert pre + a1 + mid + b1 + post == pre + (a1 + r1);
    assert pre + a2 + mid + b2 + post == pre + (a2 + r2);
    CancelPrefix(pre, a1 + r1, a2 + r2);
    NoCommaInRenderedInt(t1);
    NoCommaInRenderedInt(t2);
    SplitAtSeparator(a1, r1, a2, r2, ',');
    Decimal.IntToStringInjective(t1, t2);
    CancelPrefix(mid, b1 + post, b2 + post);
    CancelSuffix(b1, b2, post);
    Decimal.IntToStringInjective(e1, e2);
  }

  /** The 400 detail determines both numbers it reports. */
  lemma MismatchDetailInjective(t1: int, e1: int, t2: int, e2: int)
    requires MismatchDetail(t1, e1) == MismatchDetail(t2, e2)
    ensures t1 == t2 && e1 == e2
  {
    RenderedPairInjective("Total marks from questions = ", ", but expected ", ".", t1, e1, t2, e2);
  }

  /** The question texts of a list of records, in order. */
  function QuestionsOf(records: seq<QuestionRecord>): seq<string> {
    seq(|records|, k requires 0 <= k < |records| => records[k].question)
  }

  /** `[{"question": q, "marks": marks} for q in questions]`. */
  function WrapQuestions(questions: seq<string>, marks: int): (r: seq<QuestionRecord>)
    ensures QuestionsOf(r) == questions
    ensures forall rec :: rec in r ==> rec.marks == marks
  {
    seq(|questions|, k requires 0 <= k < |questions| => QuestionRecord(questions[k], marks))
  }

  /**
   * `generate_groq_questions` after the completion call: a failed call becomes a 500
   * carrying the error text, a reply becomes the first `count` parsed lines, each
   * wrapped with `marks`.
   */
  function GenerateQuestions(reply: Result<string, string>, count: int, marks: int)
    : (r: Result<seq<QuestionRecord>, HttpError>)
    ensures r.Failure? <==> reply.Failure?
    ensures reply.Failure? ==> r.error == HttpError(500, reply.error)
    ensures r.Success? && count >= 0 ==> |r.value| == Min(count, |ParseReply(reply.value)|)
    ensures r.Success? ==> |r.value| <= |ParseReply(reply.value)|
    ensures r.Success? ==> forall k :: 0 <= k < |r.value| ==>
      r.value[k] == QuestionRecord(ParseReply(reply.value)[k], marks)
  {
    match reply
    case Failure(e) => Failure(HttpError(ServerError, e))
    case Success(content) => Success(WrapQuestions(SlicePrefix(ParseReply(content), count), marks))
  }

  /** The `generate_assignments` handler of the validating variant. */
  function GenerateAssignments(req: AssignmentRequest, upstream: GenerationCall -> Result<string, string>)
    : (x: Exchange)
    ensures var total := 2 * req.shortQuestions + 5 * req.longQuestions;
      && ((x.outcome.Failure? && x.outcome.error.status == 400) <==> total != req.numAssignments)
      && (total != req.numAssignments ==>
            x.calls == [] && x.outcome.error.detail == MismatchDetail(total, req.numAssignments))
      && (total == req.numAssignments ==>
            x.calls == [ShortCall(req)] + if upstream(ShortCall(req)).Success? then [LongCall(req)] else [])
      && (x.outcome.Success? <==>
            total == req.numAssignments && upstream(ShortCall(req)).Success? && upstream(LongCall(req)).Success?)
    ensures x.outcome.Failure? && x.outcome.error.status != 400 ==>
      && x.outcome.error.status == 500
      && |x.calls| >= 1
      && upstream(x.calls[|x.calls| - 1]).Failure?
      && x.outcome.error.detail == upstream(x.calls[|x.calls| - 1]).error
    ensures x.outcome.Success? ==>
      var resp := x.outcome.value;
      && resp.subject == req.subject
      && resp.totalMarks == resp.shortQuestionMarks + resp.longQuestionMarks == req.numAssignments
      && resp.shortQuestionMarks == 2 * req.shortQuestions
      && resp.longQuestionMarks == 5 * req.longQuestions
      && (forall k :: 0 <= k < |resp.shortQuestions| ==> resp.shortQuestions[k].marks == 2)
      && (forall k :: 0 <= k < |resp.longQuestions| ==> resp.longQuestions[k].marks == 5)
      && Success(resp.shortQuestions) == GenerateQuestions(upstream(ShortCall(req)), req.shortQuestions, 2)
      && Success(resp.longQuestions) == GenerateQuestions(upstream(LongCall(req)), req.longQuestions, 5)
  {
    var total := req.shortQuestions * ShortMark + req.longQuestions * LongMark;
    if total != req.numAssignments then
      Exchange([], Failure(HttpError(BadRequest, MismatchDetail(total, req.numAssignments))))
    else
      match GenerateQuestions(upstream(ShortCall(req)), req.shortQuestions, ShortMark)
      case Failure(e) => Exchange([ShortCall(req)], Failure(e))
      case Success(shortQs) =>
        match GenerateQuestions(upstream(LongCall(req)), req.longQuestions, LongMark)
        case Failure(e) => Exchange([ShortCall(req), LongCall(req)], Failure(e))
        case Success(longQs) =>
          Exchange(
            [ShortCall(req), LongCall(req)],
            Success(AssignmentResponse(
              req.subject,
              total,
              req.shortQuestions * ShortMark,
              req.longQuestions * LongMark,
              shortQs,
              longQs)))
  }
}
