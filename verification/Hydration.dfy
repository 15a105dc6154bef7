/** Question hydration: one batched findAllById, then each found Question is
    projected onto a QuestionWrapper that carries the id, the title and the
    four options, and never the right answer. */
module Hydration {
  import opened Entities
  import opened Repository

  /** The stream's map step: a new wrapper with the question's id, title and options. */
  function Wrap(q: Question): QuestionWrapper {
    QuestionWrapper(q.id, q.questionTitle, q.option1, q.option2, q.option3, q.option4)
  }

  /** `questions.stream().map(...).collect(toList())`. */
  function WrapAll(qs: seq<Question>): (ws: seq<QuestionWrapper>)
    ensures |ws| == |qs|
    ensures forall k :: 0 <= k < |qs| ==> ws[k] == Wrap(qs[k])
  {
    if qs == [] then [] else [Wrap(qs[0])] + WrapAll(qs[1..])
  }

  /** getQuestionsFromId against a store snapshot, when the store answers. */
  function Hydrate(docs: seq<Question>, ids: seq<int>): (ws: seq<QuestionWrapper>)
    ensures |ws| <= |docs|
    ensures ids == [] ==> ws == []
  {
    WrapAll(FilterByIds(docs, ids))
  }

  /** w shows q to a quiz taker: the id, the title and the four options, unchanged. */
  predicate Presents(w: QuestionWrapper, q: Question) {
    && w.id == q.id
    && w.questionTitle == q.questionTitle
    && w.option1 == q.option1
    && w.option2 == q.option2
    && w.option3 == q.option3
    && w.option4 == q.option4
  }

  /** The hydrator returns exactly one wrapper for every stored question whose
      id was asked for, and nothing for ids that are not stored: each wrapper
      presents the stored question with its id, no two wrappers share an id,
      and every requested stored question has its wrapper. */
  lemma HydrateMeaning(docs: seq<Question>, ids: seq<int>)
    requires DistinctIds(docs)
    ensures var ws := Hydrate(docs, ids);
      && (forall w :: w in ws ==>
            w.id in ids && Find(docs, w.id).Some? && Presents(w, Find(docs, w.id).value))
      && (forall q :: q in docs && q.id in ids ==> Wrap(q) in ws)
      && (forall i, j :: 0 <= i < j < |ws| ==> ws[i].id != ws[j].id)
      && (ids == [] ==> ws == [])
  {
    var found := FilterByIds(docs, ids);
    var ws := Hydrate(docs, ids);
    forall w | w in ws
      ensures w.id in ids && Find(docs, w.id).Some? && Presents(w, Find(docs, w.id).value)
    {
      var k :| 0 <= k < |ws| && ws[k] == w;
      assert found[k] in found;
      FindUnique(docs, found[k]);
    }
    forall q | q in docs && q.id in ids ensures Wrap(q) in ws {
      var k :| 0 <= k < |found| && found[k] == q;
      assert ws[k] == Wrap(q);
    }
    if ids == [] {
      assert found == [];
    }
  }

  /** The two snapshots differ at most in the right answers. */
  predicate SameExceptAnswers(d1: seq<Question>, d2: seq<Question>) {
    |d1| == |d2| &&
    forall k :: 0 <= k < |d1| ==> d1[k].(rightAnswer := Null) == d2[k].(rightAnswer := Null)
  }

  /** Nothing of the right answer reaches the caller: two stores that differ only
      in their right answers give the same wrappers for every request. */
  lemma {:induction false} HydrateHidesAnswers(d1: seq<Question>, d2: seq<Question>, ids: seq<int>)
    requires SameExceptAnswers(d1, d2)
    ensures Hydrate(d1, ids) == Hydrate(d2, ids)
  {
    if d1 != [] {
      assert d1[0].(rightAnswer := Null) == d2[0].(rightAnswer := Null);
      assert SameExceptAnswers(d1[1..], d2[1..]) by {
        forall k | 0 <= k < |d1| - 1
          ensures d1[1..][k].(rightAnswer := Null) == d2[1..][k].(rightAnswer := Null)
        {
          assert d1[1..][k] == d1[k + 1];
          assert d2[1..][k] == d2[k + 1];
        }
      }
      HydrateHidesAnswers(d1[1..], d2[1..], ids);
    }
  }
}
