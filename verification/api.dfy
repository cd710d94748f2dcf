/**
 The question endpoint: a question that is blank after stripping is refused
 with a client error before any retrieval happens; any other question is
 answered, and the reply echoes the question exactly as it was sent.
 */
module Api {
  import opened Text
  import Retrieval
  import Answer

  const BadRequest: int := 400
  const EmptyQuestion: string := "Vraag mag niet leeg zijn."

  /** What the endpoint returns: the echoed question with its answer, or an HTTP error. */
  datatype Reply =
    | Answered(question: string, answer: string)
    | Rejected(status: int, detail: string)

  /** `ask_question`, with the retrieval scores for this question supplied by the caller. */
  function Ask(question: string, sections: seq<string>, scores: seq<real>): (r: Reply)
    requires |sections| == |scores| > 0
    ensures r.Rejected? <==> AllSpace(question)
    ensures r.Rejected? ==> r.status == 400 && r.detail == EmptyQuestion
    ensures r.Answered? ==> r.question == question
    ensures r.Answered? ==>
      forall k :: Retrieval.IsFirstMax(scores, k) ==> r.answer == Answer.FormatAnswer(question, sections[k])
  {
    StripEmptyIffSpace(question);
    if Strip(question) == [] then Rejected(BadRequest, EmptyQuestion)
    else Answered(question, Answer.FormatAnswer(question, Retrieval.BestSection(sections, scores)))
  }

  /** A refused question does not depend on the sections or the scores: nothing is retrieved. */
  lemma RejectionIgnoresIndex(question: string, sections1: seq<string>, scores1: seq<real>,
                              sections2: seq<string>, scores2: seq<real>)
    requires |sections1| == |scores1| > 0 && |sections2| == |scores2| > 0
    requires Ask(question, sections1, scores1).Rejected?
    ensures Ask(question, sections1, scores1) == Ask(question, sections2, scores2)
  {
  }
}
