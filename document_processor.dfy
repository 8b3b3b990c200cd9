/**
 * Document question answering over one decoded page: the pipeline is asked
 * each question in turn, and the first answer of every non-empty output is
 * kept, tagged with its question.
 */
module DocumentProcessor {

  /** A decoded page or picture; its contents are opaque to the model. */
  datatype Image = Image(pixels: seq<int>)

  /** A value inside a pipeline record; scores are carried, never computed with. */
  datatype Json = JStr(s: string) | JInt(i: int) | JScore(score: real)

  /** One record of pipeline output (a dictionary). */
  type Record = map<string, Json>

  /** The pipeline's best answer with its `question` field set. */
  function Tagged(out: seq<Record>, question: string): Record
    requires out != []
  {
    out[0]["question" := JStr(question)]
  }

  /** What one question adds to the result: nothing for an empty output. */
  function Contribution(out: seq<Record>, question: string): seq<Record>
  {
    if out == [] then [] else [Tagged(out, question)]
  }

  /** The result of asking `questions` in order: the order-preserving filter-map over them. */
  function AnswerSpec(doc: Image, questions: seq<string>, pipe: (Image, string) -> seq<Record>): (r: seq<Record>)
    ensures |r| <= |questions|
  {
    if questions == [] then []
    else
      var n := |questions| - 1;
      AnswerSpec(doc, questions[..n], pipe) + Contribution(pipe(doc, questions[n]), questions[n])
  }

  /** `answer_question`: one pipeline call per question, in order, skipping empty outputs. */
  method AnswerQuestion(doc: Image, questions: seq<string>, pipe: (Image, string) -> seq<Record>)
    returns (result: seq<Record>, ghost calls: seq<string>)
    ensures calls == questions
    ensures result == AnswerSpec(doc, questions, pipe)
  {
    result := [];
    calls := [];
    for i := 0 to |questions|
      invariant calls == questions[..i]
      invariant result == AnswerSpec(doc, questions[..i], pipe)
    {
      var question := questions[i];
      var out := pipe(doc, question);
      calls := calls + [question];
      assert questions[..i + 1][..i] == questions[..i];
      if out == [] {
        continue;
      }
      out := out[0 := out[0]["question" := JStr(question)]];
      result := result + [out[0]];
    }
    assert questions[..|questions|] == questions;
  }

  /** Asking two batches in turn answers them in turn. */
  lemma {:induction false} AnswerSpecAppend(doc: Image, q1: seq<string>, q2: seq<string>, pipe: (Image, string) -> seq<Record>)
    ensures AnswerSpec(doc, q1 + q2, pipe) == AnswerSpec(doc, q1, pipe) + AnswerSpec(doc, q2, pipe)
  {
    if q2 != [] {
      var n := |q2| - 1;
      assert (q1 + q2)[..|q1 + q2| - 1] == q1 + q2[..n];
      assert (q1 + q2)[|q1 + q2| - 1] == q2[n];
      AnswerSpecAppend(doc, q1, q2[..n], pipe);
    } else {
      assert q1 + q2 == q1;
    }
  }

  /**
   * `r` lines up with the strictly increasing question indices `idx`: exactly
   * the questions whose output is non-empty, each contributing its tagged
   * first record.
   */
  ghost predicate IndexedBy(doc: Image, questions: seq<string>, pipe: (Image, string) -> seq<Record>,
                            r: seq<Record>, idx: seq<nat>)
  {
    && |idx| == |r|
    && (forall k :: 0 <= k < |idx| ==>
          && idx[k] < |questions|
          && pipe(doc, questions[idx[k]]) != []
          && r[k] == Tagged(pipe(doc, questions[idx[k]]), questions[idx[k]]))
    && (forall k, l :: 0 <= k < l < |idx| ==> idx[k] < idx[l])
    && (forall i :: 0 <= i < |questions| && pipe(doc, questions[i]) != [] ==> i in idx)
  }

  /** A question with empty output leaves result and indices as they were. */
  lemma IndexedBySkip(doc: Image, questions: seq<string>, pipe: (Image, string) -> seq<Record>,
                      r: seq<Record>, idx: seq<nat>)
    requires questions != [] && pipe(doc, questions[|questions| - 1]) == []
    requires IndexedBy(doc, questions[..|questions| - 1], pipe, r, idx)
    ensures IndexedBy(doc, questions, pipe, r, idx)
  {
    var n := |questions| - 1;
    assert forall j :: 0 <= j < n ==> questions[..n][j] == questions[j];
  }

  /** A question with non-empty output appends its tagged record and its index. */
  lemma IndexedByKeep(doc: Image, questions: seq<string>, pipe: (Image, string) -> seq<Record>,
                      r: seq<Record>, idx: seq<nat>)
    requires questions != [] && pipe(doc, questions[|questions| - 1]) != []
    requires IndexedBy(doc, questions[..|questions| - 1], pipe, r, idx)
    ensures var n := |questions| - 1;
      IndexedBy(doc, questions, pipe, r + [Tagged(pipe(doc, questions[n]), questions[n])], idx + [n])
  {
    var n := |questions| - 1;
    var idx' := idx + [n];
    var r' := r + [Tagged(pipe(doc, questions[n]), questions[n])];
    assert forall j :: 0 <= j < n ==> questions[..n][j] == questions[j];
    forall k | 0 <= k < |idx'|
      ensures idx'[k] < |questions| && pipe(doc, questions[idx'[k]]) != []
      ensures r'[k] == Tagged(pipe(doc, questions[idx'[k]]), questions[idx'[k]])
    {
      if k < |idx| {
        assert idx'[k] == idx[k] && r'[k] == r[k];
      }
    }
    IndexedByKeepComplete(doc, questions, pipe, idx);
  }

  lemma IndexedByKeepComplete(doc: Image, questions: seq<string>, pipe: (Image, string) -> seq<Record>,
                              idx: seq<nat>)
    requires questions != []
    requires forall i :: 0 <= i < |questions| - 1 && pipe(doc, questions[i]) != [] ==> i in idx
    ensures forall i :: 0 <= i < |questions| && pipe(doc, questions[i]) != [] ==> i in idx + [|questions| - 1]
  {
    forall i | 0 <= i < |questions| && pipe(doc, questions[i]) != [] ensures i in idx + [|questions| - 1] {
      if i < |questions| - 1 {
        assert i in idx;
      }
    }
  }

  /** The result of `AnswerSpec` is aligned with some strictly increasing choice of question indices. */
  lemma {:induction false} AnswerSpecIndices(doc: Image, questions: seq<string>, pipe: (Image, string) -> seq<Record>)
    returns (idx: seq<nat>)
    ensures IndexedBy(doc, questions, pipe, AnswerSpec(doc, questions, pipe), idx)
  {
    if questions == [] {
      idx := [];
    } else {
      var n := |questions| - 1;
      var prev := AnswerSpecIndices(doc, questions[..n], pipe);
      if pipe(doc, questions[n]) == [] {
        IndexedBySkip(doc, questions, pipe, AnswerSpec(doc, questions[..n], pipe), prev);
        idx := prev;
      } else {
        IndexedByKeep(doc, questions, pipe, AnswerSpec(doc, questions[..n], pipe), prev);
        idx := prev + [n];
      }
    }
  }

  /** When every question gets an answer, the result is one tagged record per question, in order. */
  lemma {:induction false} AnswerSpecAllAnswered(doc: Image, questions: seq<string>, pipe: (Image, string) -> seq<Record>)
    requires forall i :: 0 <= i < |questions| ==> pipe(doc, questions[i]) != []
    ensures |AnswerSpec(doc, questions, pipe)| == |questions|
    ensures forall i :: 0 <= i < |questions| ==>
      AnswerSpec(doc, questions, pipe)[i] == Tagged(pipe(doc, questions[i]), questions[i])
  {
    if questions != [] {
      var n := |questions| - 1;
      assert forall j :: 0 <= j < n ==> questions[..n][j] == questions[j];
      AnswerSpecAllAnswered(doc, questions[..n], pipe);
    }
  }

  /** When no question gets an answer, the result is empty. */
  lemma {:induction false} AnswerSpecNoneAnswered(doc: Image, questions: seq<string>, pipe: (Image, string) -> seq<Record>)
    requires forall i :: 0 <= i < |questions| ==> pipe(doc, questions[i]) == []
    ensures AnswerSpec(doc, questions, pipe) == []
  {
    if questions != [] {
      var n := |questions| - 1;
      assert forall j :: 0 <= j < n ==> questions[..n][j] == questions[j];
      AnswerSpecNoneAnswered(doc, questions[..n], pipe);
    }
  }
}
