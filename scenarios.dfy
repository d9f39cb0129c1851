/**
 * Worked requests and replies for the validating endpoint and the reply pipeline,
 * including the edge cases of the pipeline: a bullet-only line yields an empty
 * question, a carriage return survives, a trailing line feed leaves an empty last
 * piece that the filter drops, and a negative count drops items from the end.
 *
 * The replies are parameters pinned to their text by a precondition, so that the
 * verifier reasons about them through the general lemmas rather than by
 * evaluating the pipeline character by character.
 */
module Scenarios {
  import opened Wrappers
  import opened ReplyText
  import opened Assignments

  const ShortReply: string := "- What is a cell?\n- Define gene.\n\n"
  const LongReply: string := "Explain mitosis in detail."
  const Q1: string := "- What is a cell?"
  const Q2: string := "- Define gene."

  function Biology(numAssignments: int): AssignmentRequest {
    AssignmentRequest("Biology", 2, 1, ["Cells", "Genetics"], numAssignments)
  }

  /** An upstream service that answers every short-question call and every long-question call with a fixed reply. */
  function Upstream(shortReply: string, longReply: string): GenerationCall -> Result<string, string> {
    (c: GenerationCall) => if c.qtype == Short then Success(shortReply) else Success(longReply)
  }

  lemma ShortReplySplits(content: string)
    requires content == ShortReply
    ensures SplitLines(content) == [Q1, Q2, "", ""]
  {
    var pieces := [Q1, Q2, "", ""];
    assert pieces[1..] == [Q2, "", ""];
    assert JoinLines(["", ""]) == "\n";
    assert JoinLines([Q2, "", ""]) == Q2 + "\n\n";
    assert JoinLines(pieces) == content;
    SplitJoinLines(pieces);
  }

  lemma ShortReplyKeeps()
    ensures KeptLines([Q1, Q2, "", ""]) == [Q1, Q2]
  {
    assert !IsPySpace(Q1[2]) && !IsPySpace(Q2[2]);
    assert KeptLines([""]) == [];
    assert KeptLines(["", ""]) == [];
    assert KeptLines([Q2, "", ""]) == [Q2];
    assert [Q1, Q2, "", ""][1..] == [Q2, "", ""];
  }

  lemma ShortReplyStrips()
    ensures Strip(Q1, Bullets) == "What is a cell?"
    ensures Strip(Q2, Bullets) == "Define gene."
  {
    assert StrippedAt(Q1, Bullets, 2, |Q1|);
    StripCharacterised(Q1, Bullets, 2, |Q1|);
    assert Q1[2..|Q1|] == "What is a cell?";
    assert StrippedAt(Q2, Bullets, 2, |Q2|);
    StripCharacterised(Q2, Bullets, 2, |Q2|);
    assert Q2[2..|Q2|] == "Define gene.";
  }

  /** The short-question reply of the worked example: two questions, bullets gone, blank tail dropped. */
  lemma ShortReplyParses(content: string)
    requires content == ShortReply
    ensures ParseReply(content) == ["What is a cell?", "Define gene."]
  {
    ShortReplySplits(content);
    ShortReplyKeeps();
    ShortReplyStrips();
    ParseReplyFromKept(content, [Q1, Q2], ["What is a cell?", "Define gene."]);
  }

  /** The long-question reply of the worked example is one question, unchanged. */
  lemma LongReplyParses(content: string)
    requires content == LongReply
    ensures ParseReply(content) == [LongReply]
  {
    assert !IsPySpace(content[0]);
    OneLineReplyParses(content);
  }

  /** A successful reply yields the wrapped prefix of its parsed lines. */
  lemma QuestionsOfParsedReply(content: string, count: int, marks: int, parsed: seq<string>)
    requires ParseReply(content) == parsed
    ensures GenerateQuestions(Success(content), count, marks) == Success(WrapQuestions(SlicePrefix(parsed, count), marks))
  {
  }

  lemma BiologyShortQuestions(shortReply: string)
    requires ParseReply(shortReply) == ["What is a cell?", "Define gene."]
    ensures GenerateQuestions(Success(shortReply), 2, 2)
      == Success([QuestionRecord("What is a cell?", 2), QuestionRecord("Define gene.", 2)])
  {
    var qs := ["What is a cell?", "Define gene."];
    QuestionsOfParsedReply(shortReply, 2, 2, qs);
    assert SlicePrefix(qs, 2) == qs;
    assert WrapQuestions(qs, 2) == [QuestionRecord(qs[0], 2), QuestionRecord(qs[1], 2)];
  }

  lemma BiologyLongQuestions(longReply: string)
    requires ParseReply(longReply) == ["Explain mitosis in detail."]
    ensures GenerateQuestions(Success(longReply), 1, 5) == Success([QuestionRecord("Explain mitosis in detail.", 5)])
  {
    var qs := ["Explain mitosis in detail."];
    QuestionsOfParsedReply(longReply, 1, 5, qs);
    assert SlicePrefix(qs, 1) == qs;
    assert WrapQuestions(qs, 5) == [QuestionRecord(qs[0], 5)];
  }

  /**
   * 2 short and 1 long question against a declared total of 9 is accepted and shaped
   * as records, for any replies that parse as the worked example's do
   * (`ShortReplyParses` and `LongReplyParses` show that its replies qualify).
   */
  lemma BiologyAccepted(shortReply: string, longReply: string)
    requires ParseReply(shortReply) == ["What is a cell?", "Define gene."]
    requires ParseReply(longReply) == ["Explain mitosis in detail."]
    ensures GenerateAssignments(Biology(9), Upstream(shortReply, longReply)).outcome == Success(AssignmentResponse(
      "Biology", 9, 4, 5,
      [QuestionRecord("What is a cell?", 2), QuestionRecord("Define gene.", 2)],
      [QuestionRecord("Explain mitosis in detail.", 5)]))
  {
    BiologyShortQuestions(shortReply);
    BiologyLongQuestions(longReply);
    var up := Upstream(shortReply, longReply);
    assert up(ShortCall(Biology(9))) == Success(shortReply);
    assert up(LongCall(Biology(9))) == Success(longReply);
  }

  /** The same questions against a declared total of 10 are rejected before any generation call. */
  lemma BiologyRejected(shortReply: string, longReply: string)
    ensures var x := GenerateAssignments(Biology(10), Upstream(shortReply, longReply));
      && x.calls == []
      && x.outcome.Failure?
      && x.outcome.error.status == 400
      && x.outcome.error.detail == "Total marks from questions = 9, but expected 10."
  {
  }

  const BulletLine: string := " \U{2022} "
  const CrLine: string := "foo\r"
  const BulletReply: string := " \U{2022} \nfoo\r\n"

  lemma BulletReplySplits(content: string)
    requires content == BulletReply
    ensures SplitLines(content) == [BulletLine, CrLine, ""]
  {
    var pieces := [BulletLine, CrLine, ""];
    assert pieces[1..] == [CrLine, ""];
    assert JoinLines([CrLine, ""]) == CrLine + "\n";
    assert JoinLines(pieces) == content;
    SplitJoinLines(pieces);
  }

  lemma BulletReplyKeeps()
    ensures KeptLines([BulletLine, CrLine, ""]) == [BulletLine, CrLine]
  {
    assert !IsPySpace(BulletLine[1]) && !IsPySpace(CrLine[0]);
    assert [BulletLine, CrLine, ""][1..] == [CrLine, ""];
    assert KeptLines([""]) == [];
    assert KeptLines([CrLine, ""]) == [CrLine];
  }

  lemma BulletReplyStrips()
    ensures Strip(BulletLine, Bullets) == ""
    ensures Strip(CrLine, Bullets) == CrLine
  {
    StripEmptyIff(BulletLine, Bullets);
    StripKeepsCleanString(CrLine, Bullets);
  }

  /** A bullet-only line is kept by the whitespace filter and becomes an empty question; a carriage return survives. */
  lemma BulletOnlyLineAndCarriageReturn(content: string)
    requires content == BulletReply
    ensures ParseReply(content) == ["", "foo\r"]
  {
    BulletReplySplits(content);
    BulletReplyKeeps();
    BulletReplyStrips();
    ParseReplyFromKept(content, [BulletLine, CrLine], ["", CrLine]);
  }

  /** A negative count drops that many questions from the end, as a Python slice does. */
  lemma NegativeCountDropsFromEnd(shortReply: string, longReply: string)
    requires ParseReply(shortReply) == ["What is a cell?", "Define gene."]
    requires ParseReply(longReply) == ["Explain mitosis in detail."]
    ensures GenerateQuestions(Success(longReply), -1, 5) == Success([])
    ensures GenerateQuestions(Success(shortReply), -1, 2) == Success([QuestionRecord("What is a cell?", 2)])
  {
    var shortQs, longQs := ["What is a cell?", "Define gene."], ["Explain mitosis in detail."];
    QuestionsOfParsedReply(shortReply, -1, 2, shortQs);
    QuestionsOfParsedReply(longReply, -1, 5, longQs);
    assert SlicePrefix(shortQs, -1) == [shortQs[0]] && SlicePrefix(longQs, -1) == [];
    assert WrapQuestions([shortQs[0]], 2) == [QuestionRecord(shortQs[0], 2)];
  }
}
