/** The Mongo collection behind QuestionRepository, as a sequence of documents
    in the collection's natural order whose ids are distinct (the _id key).
    The three queries the service uses are filters over that sequence, and
    deleteById removes the one document with the id. */
module Repository {
  import opened Entities

  /** The _id key is unique within the collection. */
  ghost predicate DistinctIds(qs: seq<Question>) {
    forall i, j :: 0 <= i < j < |qs| ==> qs[i].id != qs[j].id
  }

  /** The ids of a list of questions, in order (the `map(Question::getId)` step). */
  function Ids(qs: seq<Question>): (ids: seq<int>)
    ensures |ids| == |qs|
    ensures forall k :: 0 <= k < |qs| ==> ids[k] == qs[k].id
  {
    if qs == [] then [] else [qs[0].id] + Ids(qs[1..])
  }

  /** findByCategory: the documents whose category equals the given one, in natural order. */
  function FilterByCategory(docs: seq<Question>, category: string): (r: seq<Question>)
    ensures |r| <= |docs|
    ensures forall q :: q in r <==> q in docs && q.category == category
    ensures DistinctIds(docs) ==> DistinctIds(r)
  {
    if docs == [] then []
    else
      var rest := FilterByCategory(docs[1..], category);
      assert forall q :: q in docs <==> q == docs[0] || q in docs[1..];
      if docs[0].category == category then [docs[0]] + rest else rest
  }

  /** findAllById: the documents whose id occurs in ids, each once, in natural order. */
  function FilterByIds(docs: seq<Question>, ids: seq<int>): (r: seq<Question>)
    ensures |r| <= |docs|
    ensures forall q :: q in r <==> q in docs && q.id in ids
    ensures DistinctIds(docs) ==> DistinctIds(r)
  {
    if docs == [] then []
    else
      var rest := FilterByIds(docs[1..], ids);
      assert forall q :: q in docs <==> q == docs[0] || q in docs[1..];
      if docs[0].id in ids then [docs[0]] + rest else rest
  }

  /** findById: the document with the id, if there is one. */
  function Find(docs: seq<Question>, id: int): (r: Option<Question>)
    ensures r.Some? ==> r.value in docs && r.value.id == id
    ensures r.None? ==> forall q :: q in docs ==> q.id != id
  {
    if docs == [] then None
    else if docs[0].id == id then Some(docs[0])
    else
      assert forall q :: q in docs <==> q == docs[0] || q in docs[1..];
      Find(docs[1..], id)
  }

  /** deleteById: every document except the one with the id. */
  function Remove(docs: seq<Question>, id: int): (r: seq<Question>)
    ensures |r| <= |docs|
    ensures forall q :: q in r <==> q in docs && q.id != id
    ensures DistinctIds(docs) ==> DistinctIds(r)
  {
    if docs == [] then []
    else
      var rest := Remove(docs[1..], id);
      assert forall q :: q in docs <==> q == docs[0] || q in docs[1..];
      if docs[0].id != id then [docs[0]] + rest else rest
  }

  /** With unique ids, the id determines the document: Find returns exactly
      the document that carries the id. */
  lemma FindUnique(docs: seq<Question>, q: Question)
    requires DistinctIds(docs)
    requires q in docs
    ensures Find(docs, q.id) == Some(q)
  {
    var r := Find(docs, q.id);
    var i :| 0 <= i < |docs| && docs[i] == q;
    var j :| 0 <= j < |docs| && docs[j] == r.value;
  }

  /** Seen as a map from id to document, deleting an id drops that one entry
      and leaves every other entry as it was. */
  lemma RemoveDropsOnlyThatEntry(docs: seq<Question>, id: int, other: int)
    requires DistinctIds(docs)
    ensures Find(Remove(docs, id), id) == None
    ensures other != id ==> Find(Remove(docs, id), other) == Find(docs, other)
    ensures Find(docs, id).Some? ==> |Remove(docs, id)| == |docs| - 1
    ensures Find(docs, id).None? ==> Remove(docs, id) == docs
  {
    var r := Remove(docs, id);
    if other != id {
      match Find(docs, other)
      case Some(q) =>
        FindUnique(r, q);
      case None =>
    }
    RemoveCount(docs, id);
  }

  lemma {:induction false} RemoveCount(docs: seq<Question>, id: int)
    requires DistinctIds(docs)
    ensures Find(docs, id).Some? ==> |Remove(docs, id)| == |docs| - 1
    ensures Find(docs, id).None? ==> Remove(docs, id) == docs
  {
    if docs != [] {
      assert DistinctIds(docs[1..]);
      RemoveCount(docs[1..], id);
      if docs[0].id == id {
        assert forall q :: q in docs[1..] ==> q.id != id;
      }
    }
  }

  /** The store: the documents of the question collection. */
  class QuestionRepository {
    var documents: seq<Question>

    ghost predicate Valid()
      reads this
    {
      DistinctIds(documents)
    }

    constructor (documents: seq<Question>)
      requires DistinctIds(documents)
      ensures Valid() && this.documents == documents
    {
      this.documents := documents;
    }

    function FindByCategory(category: string): seq<Question>
      reads this
    {
      FilterByCategory(documents, category)
    }

    function FindAllById(ids: seq<int>): seq<Question>
      reads this
    {
      FilterByIds(documents, ids)
    }

    function FindById(id: int): Option<Question>
      reads this
    {
      Find(documents, id)
    }

    method DeleteById(id: int)
      requires Valid()
      modifies this
      ensures Valid()
      ensures documents == Remove(old(documents), id)
    {
      documents := Remove(documents, id);
    }
  }
}
