/** QuestionService: the four operations with logic, over the repository.
    Every repository call may throw (the database is unreachable or fails);
    the flag `storeError` says that it does, and each operation then answers
    with its error value and INTERNAL_SERVER_ERROR. */
module Service {
  import opened Entities
  import opened Repository
  import opened JavaStrings
  import opened QuizSelection
  import opened Hydration
  import opened Scoring

  class QuestionService {
    const repository: QuestionRepository

    constructor (repository: QuestionRepository)
      ensures this.repository == repository
    {
      this.repository := repository;
    }

    /** deleteQuestion: look the id up; if a question has it, delete it and
        answer NO_CONTENT, otherwise leave the store alone and answer NOT_FOUND. */
    method DeleteQuestion(id: int, storeError: bool) returns (status: HttpStatus)
      requires repository.Valid()
      modifies repository
      ensures repository.Valid()
      ensures status == (if storeError then InternalServerError
                         else if Find(old(repository.documents), id).Some? then NoContent
                         else NotFound)
      ensures repository.documents ==
                (if status == NoContent then Remove(old(repository.documents), id)
                 else old(repository.documents))
    {
      if storeError {
        return InternalServerError;
      }
      var questionOptional := repository.FindById(id);
      if questionOptional.Some? {
        repository.DeleteById(id);
        status := NoContent;
      } else {
        status := NotFound;
      }
    }

    /** getQuestionsForQuiz: fetch the category; answer [] for an empty one and
        all ids for too few; otherwise shuffle the fetched list in place and take
        the ids of its first numberOfQuestions elements. `nextInt` is the random
        source Collections.shuffle draws from. */
    method GetQuestionsForQuiz(categoryName: string, numberOfQuestions: int, nextInt: nat -> nat, storeError: bool)
      returns (r: ResponseEntity<seq<int>>)
      requires DrawsBelow(nextInt)
      ensures storeError ==> r == ResponseEntity([], InternalServerError)
      ensures !storeError ==> r == Selection(repository.FindByCategory(categoryName), numberOfQuestions, nextInt)
    {
      if storeError {
        return ResponseEntity([], InternalServerError);
      }
      var questionsByCategory := repository.FindByCategory(categoryName);
      if |questionsByCategory| == 0 {
        return ResponseEntity([], Ok);
      }
      if |questionsByCategory| < numberOfQuestions {
        return ResponseEntity(Ids(questionsByCategory), Ok);
      }
      var list := new Question[|questionsByCategory|](k requires 0 <= k < |questionsByCategory| => questionsByCategory[k]);
      assert list[..] == questionsByCategory;
      Shuffle(list, nextInt);
      if numberOfQuestions < 0 {
        // Stream.limit rejects a negative size; the exception is caught
        return ResponseEntity([], InternalServerError);
      }
      r := ResponseEntity(Ids(list[..numberOfQuestions]), Ok);
    }

    /** getQuestionsFromId: one findAllById, each found question wrapped. */
    function GetQuestionsFromId(questionsId: seq<int>, storeError: bool): (r: ResponseEntity<seq<QuestionWrapper>>)
      requires repository.Valid()
      reads repository
      ensures r.status == (if storeError then InternalServerError else Ok)
      ensures storeError ==> r.body == []
      ensures !storeError ==> r.body == Hydrate(repository.documents, questionsId)
      ensures forall w :: w in r.body ==>
        && w.id in questionsId
        && Find(repository.documents, w.id).Some?
        && Presents(w, Find(repository.documents, w.id).value)
      ensures !storeError ==>
        forall q :: q in repository.documents && q.id in questionsId ==> Wrap(q) in r.body
      ensures forall i, j :: 0 <= i < j < |r.body| ==> r.body[i].id != r.body[j].id
    {
      if storeError then ResponseEntity([], InternalServerError)
      else
        HydrateMeaning(repository.documents, questionsId);
        ResponseEntity(WrapAll(repository.FindAllById(questionsId)), Ok)
    }

    /** getScore: build the id to right-answer map from one findAllById, then
        walk the responses with a counter. Any exception answers 0 with
        INTERNAL_SERVER_ERROR. */
    method GetScore(responses: seq<Response>, storeError: bool) returns (r: ResponseEntity<int>)
      ensures 0 <= r.body <= |responses|
      ensures r.status == Ok || (r.status == InternalServerError && r.body == 0)
      ensures storeError ==> r.status == InternalServerError
      ensures !storeError && responses == [] ==> r == ResponseEntity(0, Ok)
      ensures !storeError && Score(repository.documents, responses).Some? ==>
                r == ResponseEntity(Score(repository.documents, responses).value, Ok)
      ensures !storeError && Score(repository.documents, responses).None? ==>
                r == ResponseEntity(0, InternalServerError)
    {
      if storeError {
        return ResponseEntity(0, InternalServerError);
      }
      if responses == [] {
        NoResponsesScoreZero(repository.documents);
      }
      var questionIds := ResponseIds(responses);
      var originalQuestions := repository.FindAllById(questionIds);
      var rightAnswersMap := AnswerMap(originalQuestions);
      if rightAnswersMap.None? {
        return ResponseEntity(0, InternalServerError);
      }
      var answers := rightAnswersMap.value;
      var score := 0;
      var i := 0;
      while i < |responses|
        invariant 0 <= i <= |responses|
        invariant Tally(answers, responses[..i]) == Some(score)
      {
        var response := responses[i];
        assert responses[..i + 1][..i] == responses[..i];
        if response.id in answers {
          var correctAnswer := answers[response.id];
          if response.response.Null? {
            // trim() on a null text throws; the exception is caught
            TallyStaysFailed(answers, responses, i + 1);
            return ResponseEntity(0, InternalServerError);
          }
          if EqualsIgnoreCase(correctAnswer, Trim(response.response.value)) {
            score := score + 1;
          }
        }
        i := i + 1;
      }
      assert responses[..i] == responses;
      r := ResponseEntity(score, Ok);
    }
  }
}
