/** Scoring: one batched findAllById for the ids the responses mention, a map
    from id to right answer built with Collectors.toMap, and a pass over the
    responses that adds one for every response whose trimmed text equals the
    stored answer ignoring case. */
module Scoring {
  import opened Entities
  import opened Repository
  import opened JavaStrings

  /** `responses.stream().map(Response::getId).collect(toList())`. */
  function ResponseIds(rs: seq<Response>): (ids: seq<int>)
    ensures |ids| == |rs|
    ensures forall k :: 0 <= k < |rs| ==> ids[k] == rs[k].id
  {
    seq(|rs|, k requires 0 <= k < |rs| => rs[k].id)
  }

  /** Collectors.toMap(Question::getId, Question::getRightAnswer), accumulated in
      encounter order. A null right answer (the collector rejects null values)
      or an id met a second time (a duplicate key) throws: None. */
  function AnswerMap(qs: seq<Question>): Option<map<int, string>>
    decreases |qs|
  {
    if qs == [] then Some(map[])
    else
      match AnswerMap(qs[..|qs| - 1])
      case None => None
      case Some(m) =>
        var q := qs[|qs| - 1];
        if q.rightAnswer.Null? || q.id in m then None
        else Some(m[q.id := q.rightAnswer.value])
  }

  /** For questions with distinct ids, the map is built exactly when no right
      answer among them is null, and it then maps the id of each of them, and
      nothing else, to its right answer. */
  lemma AnswerMapMeaning(qs: seq<Question>)
    requires DistinctIds(qs)
    ensures AnswerMap(qs).Some? <==> forall q :: q in qs ==> q.rightAnswer.Present?
    ensures AnswerMap(qs).Some? ==>
      && (forall id :: id in AnswerMap(qs).value <==> id in Ids(qs))
      && (forall q :: q in qs ==> AnswerMap(qs).value[q.id] == q.rightAnswer.value)
  {
    AnswerMapKeys(qs);
    AnswerMapBuilt(qs);
    AnswerMapValues(qs);
  }

  /** The keys of a built map are the ids of the questions. */
  lemma {:induction false} AnswerMapKeys(qs: seq<Question>)
    ensures AnswerMap(qs).Some? ==> forall id :: id in AnswerMap(qs).value <==> id in Ids(qs)
    decreases |qs|
  {
    if qs != [] {
      var init := qs[..|qs| - 1];
      AnswerMapKeys(init);
      assert Ids(qs) == Ids(init) + [qs[|qs| - 1].id];
    }
  }

  /** With distinct ids, only a null right answer stops the map being built. */
  lemma {:induction false} AnswerMapBuilt(qs: seq<Question>)
    requires DistinctIds(qs)
    ensures AnswerMap(qs).Some? <==> forall q :: q in qs ==> q.rightAnswer.Present?
    decreases |qs|
  {
    if qs != [] {
      var init := qs[..|qs| - 1];
      var q := qs[|qs| - 1];
      assert DistinctIds(init);
      AnswerMapBuilt(init);
      AnswerMapKeys(init);
      LastIdIsNew(qs);
      assert qs == init + [q];
      assert forall x :: x in qs <==> x in init || x == q;
    }
  }

  /** Every question's id maps to its own right answer. */
  lemma {:induction false} AnswerMapValues(qs: seq<Question>)
    requires DistinctIds(qs)
    ensures AnswerMap(qs).Some? ==> forall q :: q in qs ==>
      q.rightAnswer.Present? && q.id in AnswerMap(qs).value && AnswerMap(qs).value[q.id] == q.rightAnswer.value
    decreases |qs|
  {
    if qs != [] && AnswerMap(qs).Some? {
      var init := qs[..|qs| - 1];
      var q := qs[|qs| - 1];
      assert DistinctIds(init);
      AnswerMapValues(init);
      var m := AnswerMap(init).value;
      assert AnswerMap(qs).value == m[q.id := q.rightAnswer.value];
      forall x | x in qs
        ensures x.rightAnswer.Present? && x.id in AnswerMap(qs).value && AnswerMap(qs).value[x.id] == x.rightAnswer.value
      {
        if x != q {
          var k :| 0 <= k < |qs| && qs[k] == x;
          assert k < |init| && init[k] == x;
          assert x.id != q.id;
        }
      }
    }
  }

  /** With distinct ids, the last question's id is not among the earlier ones. */
  lemma LastIdIsNew(qs: seq<Question>)
    requires DistinctIds(qs) && qs != []
    ensures qs[|qs| - 1].id !in Ids(qs[..|qs| - 1])
  {
    var init := qs[..|qs| - 1];
    forall k | 0 <= k < |init| ensures Ids(init)[k] != qs[|qs| - 1].id {
      assert init[k] == qs[k];
    }
  }

  /** One pass of the loop body. A response whose id has no stored answer adds
      0; otherwise trim() on a null text throws (None); otherwise it adds 1 when
      the stored answer equalsIgnoreCase the trimmed text, else 0. */
  function Point(m: map<int, string>, r: Response): (p: Option<nat>)
    ensures p.Some? ==> p.value <= 1
  {
    if r.id !in m then Some(0)
    else if r.response.Null? then None
    else if EqualsIgnoreCase(m[r.id], Trim(r.response.value)) then Some(1)
    else Some(0)
  }

  /** The counter after the loop has seen rs, or None if an iteration threw. */
  function Tally(m: map<int, string>, rs: seq<Response>): (t: Option<nat>)
    ensures t.Some? ==> t.value <= |rs|
    decreases |rs|
  {
    if rs == [] then Some(0)
    else
      match Tally(m, rs[..|rs| - 1])
      case None => None
      case Some(score) =>
        match Point(m, rs[|rs| - 1])
        case None => None
        case Some(p) => Some(score + p)
  }

  /** getScore against a store snapshot, when the store answers: None when the
      map cannot be built or the loop throws, else the number of points. */
  function Score(docs: seq<Question>, rs: seq<Response>): (s: Option<nat>)
    ensures s.Some? ==> s.value <= |rs|
  {
    match AnswerMap(FilterByIds(docs, ResponseIds(rs)))
    case None => None
    case Some(m) => Tally(m, rs)
  }

  /** Reference definition of a correct response, read off the store directly:
      a question with the id is stored, both texts are non-null, and the stored
      answer equals the submitted text after trim(), ignoring case. */
  predicate AnsweredCorrectly(docs: seq<Question>, r: Response) {
    match Find(docs, r.id)
    case None => false
    case Some(q) =>
      && q.rightAnswer.Present?
      && r.response.Present?
      && EqualsIgnoreCase(q.rightAnswer.value, Trim(r.response.value))
  }

  /** A response that makes trim() throw: its id is stored and its text is null. */
  predicate NullForStoredId(docs: seq<Question>, r: Response) {
    Find(docs, r.id).Some? && r.response.Null?
  }

  /** How many responses are correct, each counted on its own. */
  function CorrectCount(docs: seq<Question>, rs: seq<Response>): (n: nat)
    ensures n <= |rs|
  {
    if rs == [] then 0
    else (if AnsweredCorrectly(docs, rs[0]) then 1 else 0) + CorrectCount(docs, rs[1..])
  }

  /** Counting is additive over concatenation, so a response submitted twice
      is counted twice. */
  lemma {:induction false} CorrectCountAppend(docs: seq<Question>, a: seq<Response>, b: seq<Response>)
    ensures CorrectCount(docs, a + b) == CorrectCount(docs, a) + CorrectCount(docs, b)
    decreases |a|
  {
    if a != [] {
      assert (a + b)[1..] == a[1..] + b;
      CorrectCountAppend(docs, a[1..], b);
    } else {
      assert a + b == b;
    }
  }

  /** The map agrees with the store on every id the responses mention. */
  ghost predicate AgreesWith(m: map<int, string>, docs: seq<Question>, rs: seq<Response>) {
    forall k :: 0 <= k < |rs| ==>
      && (rs[k].id in m <==> Find(docs, rs[k].id).Some?)
      && (rs[k].id in m ==> Find(docs, rs[k].id).value.rightAnswer == Present(m[rs[k].id]))
  }

  /** The loop over a map that agrees with the store throws exactly when some
      response has a stored id and a null text; otherwise it counts the correct
      responses. */
  lemma {:induction false} TallyMeaning(m: map<int, string>, docs: seq<Question>, rs: seq<Response>)
    requires AgreesWith(m, docs, rs)
    ensures Tally(m, rs).None? <==> exists k :: 0 <= k < |rs| && NullForStoredId(docs, rs[k])
    ensures Tally(m, rs).Some? ==> Tally(m, rs).value == CorrectCount(docs, rs)
    decreases |rs|
  {
    if rs != [] {
      var init := rs[..|rs| - 1];
      var r := rs[|rs| - 1];
      assert AgreesWith(m, docs, init) by {
        forall k | 0 <= k < |init| ensures init[k] == rs[k] { }
      }
      TallyMeaning(m, docs, init);
      assert rs == init + [r];
      CorrectCountAppend(docs, init, [r]);
      assert CorrectCount(docs, [r]) == if AnsweredCorrectly(docs, r) then 1 else 0;
      assert (exists k :: 0 <= k < |rs| && NullForStoredId(docs, rs[k])) <==>
        (exists k :: 0 <= k < |init| && NullForStoredId(docs, init[k])) || NullForStoredId(docs, r)
      by {
        if exists k :: 0 <= k < |rs| && NullForStoredId(docs, rs[k]) {
          var k :| 0 <= k < |rs| && NullForStoredId(docs, rs[k]);
          if k < |init| {
            assert init[k] == rs[k];
          }
        }
        if exists k :: 0 <= k < |init| && NullForStoredId(docs, init[k]) {
          var k :| 0 <= k < |init| && NullForStoredId(docs, init[k]);
          assert rs[k] == init[k];
        }
      }
    }
  }

  /** Once an iteration has thrown, the loop over any longer list has thrown too. */
  lemma {:induction false} TallyStaysFailed(m: map<int, string>, rs: seq<Response>, k: nat)
    requires k <= |rs|
    requires Tally(m, rs[..k]).None?
    ensures Tally(m, rs).None?
    decreases |rs| - k
  {
    if k < |rs| {
      assert rs[..k + 1][..k] == rs[..k];
      TallyStaysFailed(m, rs, k + 1);
    } else {
      assert rs[..k] == rs;
    }
  }

  /** An empty list of responses scores 0 and never fails. */
  lemma NoResponsesScoreZero(docs: seq<Question>)
    ensures Score(docs, []) == Some(0)
  {
  }

  /** What getScore computes, read off the store: it fails exactly when a stored
      question the responses ask about has a null right answer, or a response to
      a stored question has a null text; otherwise the score is the number of
      correct responses, which lies between 0 and the number of responses. */
  lemma ScoreMeaning(docs: seq<Question>, rs: seq<Response>)
    requires DistinctIds(docs)
    ensures Score(docs, rs).None? <==>
      || (exists q :: q in docs && q.id in ResponseIds(rs) && q.rightAnswer.Null?)
      || (exists k :: 0 <= k < |rs| && NullForStoredId(docs, rs[k]))
    ensures Score(docs, rs).Some? ==>
      Score(docs, rs).value == CorrectCount(docs, rs) <= |rs|
  {
    var ids := ResponseIds(rs);
    var found := FilterByIds(docs, ids);
    AnswerMapMeaning(found);
    if AnswerMap(found).Some? {
      var m := AnswerMap(found).value;
      forall k | 0 <= k < |rs|
        ensures && (rs[k].id in m <==> Find(docs, rs[k].id).Some?)
                && (rs[k].id in m ==> Find(docs, rs[k].id).value.rightAnswer == Present(m[rs[k].id]))
      {
        var id := rs[k].id;
        assert id in ids by { assert ids[k] == id; }
        if id in m {
          var j :| 0 <= j < |found| && Ids(found)[j] == id;
          assert found[j] in found;
          FindUnique(docs, found[j]);
        }
        match Find(docs, id)
        case Some(q) =>
          assert q in found;
          var j :| 0 <= j < |found| && found[j] == q;
          assert Ids(found)[j] == id;
        case None =>
      }
      assert AgreesWith(m, docs, rs);
      TallyMeaning(m, docs, rs);
    }
  }
}
