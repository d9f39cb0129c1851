/** How the two variants relate. */
module Variants {
  import opened Wrappers
  import Assignments
  import AssignmentsV1

  /**
   * Both variants shape a reply identically: the validating one only wraps each
   * question of the reduced one with its mark.
   */
  lemma ShapingAgrees(reply: Result<string, string>, count: int, marks: int)
    ensures var full := Assignments.GenerateQuestions(reply, count, marks);
      var bare := AssignmentsV1.GenerateQuestions(reply, count);
      && (full.Failure? <==> bare.Failure?)
      && (full.Failure? ==> full.error == bare.error)
      && (full.Success? ==>
            |full.value| == |bare.value|
            && forall k :: 0 <= k < |full.value| ==> full.value[k] == Assignments.QuestionRecord(bare.value[k], marks))
  {
  }

  /**
   * The reduced variant's total is the validating variant's total with no long
   * questions, and a request it serves would pass the validating check with that total.
   */
  lemma TotalsAgree(req: AssignmentsV1.AssignmentRequest, upstream: AssignmentsV1.GenerationCall -> Result<string, string>)
    requires AssignmentsV1.GenerateAssignments(req, upstream).outcome.Success?
    ensures var total := AssignmentsV1.GenerateAssignments(req, upstream).outcome.value.totalMarks;
      var full := Assignments.AssignmentRequest(req.subject, req.shortQuestions, 0, req.topics, total);
      forall up :: Assignments.GenerateAssignments(full, up).outcome.Failure? ==>
        Assignments.GenerateAssignments(full, up).outcome.error.status != 400
  {
  }
}
