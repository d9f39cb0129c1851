/**
 * The reduced variant of `POST /generate_assignments` (main_v1.py): only short
 * questions, worth 2 marks each; the total is computed, never checked, so the
 * request is never rejected for mark reasons; the reply is shaped into bare
 * question strings.
 *
 * As in the validating variant, the upstream completion service is a parameter
 * giving, for the arguments of a generation call, the reply text or the text of
 * the error that the call or reading its reply raised.
 */
module AssignmentsV1 {
  import opened Wrappers
  import opened Http
  import opened ReplyText

  const ShortMark: int := 2

  datatype AssignmentRequest = AssignmentRequest(subject: string, shortQuestions: int, topics: seq<string>)

  datatype AssignmentResponse = AssignmentResponse(subject: string, totalMarks: int, shortQuestions: seq<string>)

  /** The arguments of the one call of the question generator, from which its prompt is built. */
  datatype GenerationCall = GenerationCall(subject: string, topics: seq<string>, count: int)

  /** What one request does: the generation calls it issues, in order, and its response or error. */
  datatype Exchange = Exchange(calls: seq<GenerationCall>, outcome: Result<AssignmentResponse, HttpError>)

  function ShortCall(req: AssignmentRequest): GenerationCall {
    GenerationCall(req.subject, req.topics, req.shortQuestions)
  }

  /**
   * `generate_groq_questions` after the completion call: a failed call becomes a 500
   * carrying the error text, a reply becomes the first `count` parsed lines.
   */
  function GenerateQuestions(reply: Result<string, string>, count: int): (r: Result<seq<string>, HttpError>)
    ensures r.Failure? <==> reply.Failure?
    ensures reply.Failure? ==> r.error == HttpError(500, reply.error)
    ensures r.Success? && count >= 0 ==> |r.value| == Min(count, |ParseReply(reply.value)|)
    ensures r.Success? ==>
      |r.value| <= |ParseReply(reply.value)| && r.value == ParseReply(reply.value)[..|r.value|]
  {
    match reply
    case Failure(e) => Failure(HttpError(ServerError, e))
    case Success(content) => Success(SlicePrefix(ParseReply(content), count))
  }

  /** The `generate_assignments` handler of the reduced variant. */
  function GenerateAssignments(req: AssignmentRequest, upstream: GenerationCall -> Result<string, string>)
    : (x: Exchange)
    ensures x.calls == [ShortCall(req)]
    ensures x.outcome.Success? <==> upstream(ShortCall(req)).Success?
    ensures x.outcome.Failure? ==>
      x.outcome.error == HttpError(500, upstream(ShortCall(req)).error)
    ensures x.outcome.Success? ==>
      && x.outcome.value.subject == req.subject
      && x.outcome.value.totalMarks == 2 * req.shortQuestions
      && Success(x.outcome.value.shortQuestions) == GenerateQuestions(upstream(ShortCall(req)), req.shortQuestions)
  {
    var total := req.shortQuestions * ShortMark;
    match GenerateQuestions(upstream(ShortCall(req)), req.shortQuestions)
    case Failure(e) => Exchange([ShortCall(req)], Failure(e))
    case Success(shortQs) => Exchange([ShortCall(req)], Success(AssignmentResponse(req.subject, total, shortQs)))
  }
}
