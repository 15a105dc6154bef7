# Question service: a verified model of quiz assembly, hydration, scoring and deletion

This project models the part of the question-service `QuestionService` that
has logic of its own. That part has four operations over the question store.

- **getQuestionsForQuiz** first fetches the category's questions.
  - An empty category gives `[]` with OK.
  - A category with fewer questions than requested gives all of their ids, in fetch order.
  - Otherwise the fetched list is shuffled in place with `Collections.shuffle`. The ids of its first `numberOfQuestions` elements are returned.
- **getQuestionsFromId** does one batched `findAllById`. It projects every found question onto a `QuestionWrapper`, which carries the id, the title and the four options but no right answer.
- **getScore** does one batched `findAllById` and builds an id → right-answer map with `Collectors.toMap`. It then walks the responses with a counter. A response adds 1 when the stored answer `equalsIgnoreCase` the submitted text after `trim()`.
- **deleteQuestion** looks the id up.
  - If a question has that id, it is deleted and the answer is NO_CONTENT.
  - Otherwise the store is left alone and the answer is NOT_FOUND.

Every operation catches exceptions and answers INTERNAL_SERVER_ERROR with its error value.

The modules follow the program's structure:

- `Entities`: Question, QuestionWrapper, Response, HTTP status, and a Java reference that may be null.
- `Repository`: the Mongo collection.
  - It is a class whose `documents` field is the sequence of stored documents, in natural order, with distinct ids.
  - The three queries are filters over that sequence.
  - `deleteById` reassigns the sequence.
- `QuizSelection`: the JDK's `Collections.shuffle` loop and the quiz selector.
  - The loop is a method over an array, proved equal to a functional specification.
  - The selector's result is stated as a function of the fetched list.
- `Hydration`: the wrapper projection.
- `JavaStrings`: `String.trim()` and `String.equalsIgnoreCase()`.
- `Scoring`: the answer map and the scoring loop's specification.
  - The loop is checked against a reference count that reads the store directly.
- `Service`: the `QuestionService` class, with the four operations as members.
- `Scenarios`: a few concrete quiz and scoring cases.

Randomness and store failures become parameters:

- **Random source.** `Collections.shuffle` draws `nextInt(i)` once for each `i` from the list size down to 2. The model takes the draws as a function `nextInt: nat -> nat` from the bound to the value drawn. `DrawsBelow` requires every draw to lie below its bound.
- **Store failures.** A failure of any repository call is the flag `storeError`.

### Behaviour of QuestionService worth noting

- **Empty category.** The emptiness test (QuestionService.java:86-88) comes before any look at the count. So an empty category answers `[]` with OK, even for a negative count.
- **Count equal to the category size.** The comparison at QuestionService.java:91 is a strict `size < numberOfQuestions`. A count equal to the size therefore takes the shuffle branch and returns every id in shuffled order, not in fetch order.
- **Negative count.** The count is never checked up front. On a non-empty category a negative count reaches `Stream.limit` (QuestionService.java:106), which throws. The handler at :112-115 then answers `[]` with INTERNAL_SERVER_ERROR.
- **Store failure in the hydrator.** A store failure is caught at QuestionService.java:166-169 and answers `[]` with INTERNAL_SERVER_ERROR.

## Model

| member | source | states |
|---|---|---|
| Service.QuestionService.GetQuestionsForQuiz | src/main/java/com/example/question_service/service/QuestionService.java:80-118 | A store failure gives `[]` with INTERNAL_SERVER_ERROR. Otherwise the answer, computed by shuffling an array in place, equals `Selection` of the category's fetched questions. |
| QuizSelection.SelectionMeaning | src/main/java/com/example/question_service/service/QuestionService.java:83-111 | The status is OK exactly when the category is empty or the count is non-negative, and otherwise it is INTERNAL_SERVER_ERROR with `[]`. Every returned id belongs to the category and no id is returned twice. An empty category gives `[]`. Too few questions give all ids in fetch order. Otherwise exactly `numberOfQuestions` ids come back, the front of a rearrangement of the category's ids. Asking for the size gives all of them. |
| QuizSelection.SelectionReachesEveryPrefix | src/main/java/com/example/question_service/service/QuestionService.java:101-108 | The converse of SelectionMeaning in the shuffle branch: every `numberOfQuestions`-long front of a rearrangement of the category's ids is the answer for some random source. |
| QuizSelection.SelectionShufflesIds | src/main/java/com/example/question_service/service/QuestionService.java:102-108 | In the shuffle branch, taking ids after shuffling the questions equals shuffling the ids and taking the front. |
| QuizSelection.ShuffledPrefixMeaning | src/main/java/com/example/question_service/service/QuestionService.java:101-108 | The first n ids of the shuffled questions are n distinct ids of the category. They are the front of a rearrangement of all its ids, and all of them when n is the size. |
| QuizSelection.ShuffledPrefix | src/main/java/com/example/question_service/service/QuestionService.java:105-108 | The first n elements of a shuffled sequence number n. Each is taken from the input. They are distinct when the input is, and they are the front of a permutation of the input. |
| QuizSelection.Selection | src/main/java/com/example/question_service/service/QuestionService.java:83-111 | getQuestionsForQuiz's answer once the category is fetched. The status is OK, or INTERNAL_SERVER_ERROR with `[]`, and the body is never longer than the category. `SelectionMeaning` and `SelectionReachesEveryPrefix` prove the rest of what it means. |
| QuizSelection.ShuffleFrom | src/main/java/com/example/question_service/service/QuestionService.java:102 | The `Collections.shuffle` loop from position i down. It keeps the length. `ShuffleFromPermutes` and `ShuffleFromReaches` prove what it means. |
| QuizSelection.Shuffled | src/main/java/com/example/question_service/service/QuestionService.java:102 | `Collections.shuffle` over the whole list. It keeps the length. `ShuffleFromPermutes` and `EveryArrangementReachable` prove what it means. |
| QuizSelection.Shuffle | src/main/java/com/example/question_service/service/QuestionService.java:102 | `Collections.shuffle` in place: the array ends up equal to `Shuffled` of its old contents, for the same random draws. |
| QuizSelection.Swap | src/main/java/com/example/question_service/service/QuestionService.java:102 | `Collections.swap`: the two positions exchange their elements, and every other position is unchanged. |
| QuizSelection.SwapPermutes | src/main/java/com/example/question_service/service/QuestionService.java:102 | A swap keeps the multiset of elements and keeps distinct elements distinct. |
| QuizSelection.ShuffleFromPermutes | src/main/java/com/example/question_service/service/QuestionService.java:102 | The shuffle is a permutation: same multiset, and distinct elements stay distinct. |
| QuizSelection.EveryArrangementReachable | src/main/java/com/example/question_service/service/QuestionService.java:102 | Every rearrangement of the list is the shuffle's outcome for some random source that respects the bounds. |
| QuizSelection.ShuffleFromReaches | src/main/java/com/example/question_service/service/QuestionService.java:102 | The inductive step of reachability: when positions from i on are already in place, some random source gives the target arrangement. |
| QuizSelection.ShuffleFromReadsBelow | src/main/java/com/example/question_service/service/QuestionService.java:102 | The shuffle from position i depends only on the draws with bounds up to i. |
| QuizSelection.ShuffleFromIds | src/main/java/com/example/question_service/service/QuestionService.java:102-107 | Shuffling the questions and then mapping to ids equals shuffling their ids. |
| Repository.FilterByCategory | src/main/java/com/example/question_service/repository/QuestionRepository.java:9 | `findByCategory` returns exactly the stored questions with that category, with no more entries than the store and with distinct ids. |
| Repository.Ids | src/main/java/com/example/question_service/service/QuestionService.java:95-97 | `map(Question::getId)`: same length, and each position holds the id of the question at that position. |
| Service.QuestionService.GetQuestionsFromId | src/main/java/com/example/question_service/service/QuestionService.java:142-170 | A store failure gives `[]` with INTERNAL_SERVER_ERROR. Otherwise the status is OK and the body is the hydration of the requested ids against the store. Every wrapper has a requested id and presents the stored question with that id. Every requested stored question has a wrapper. No two wrappers share an id. |
| Repository.FilterByIds | src/main/java/com/example/question_service/service/QuestionService.java:148 | `findAllById` returns exactly the stored questions whose id was asked for, each once, with distinct ids. |
| Hydration.Wrap | src/main/java/com/example/question_service/service/QuestionService.java:153-162 | The stream's map step from a question to a wrapper. `HydrateMeaning` proves it presents the question, and `HydrateHidesAnswers` proves it carries no right answer. |
| Hydration.Hydrate | src/main/java/com/example/question_service/service/QuestionService.java:148-162 | getQuestionsFromId's body when the store answers. It has at most as many wrappers as the store has questions, and none for an empty request. `HydrateMeaning` proves the rest of what it means. |
| Hydration.WrapAll | src/main/java/com/example/question_service/service/QuestionService.java:153-162 | One wrapper per question, in order, each the question's projection. |
| Hydration.HydrateMeaning | src/main/java/com/example/question_service/service/QuestionService.java:148-165 | Every wrapper has a requested id. It belongs to a stored question and copies that question's id, title and four options unchanged. Every stored question that was asked for has its wrapper. No two wrappers share an id, and `[]` gives `[]`. |
| Hydration.HydrateHidesAnswers | src/main/java/com/example/question_service/service/QuestionService.java:153-162 | Two stores that differ only in right answers give identical wrappers for every request, so no right answer reaches the caller. |
| Service.QuestionService.GetScore | src/main/java/com/example/question_service/service/QuestionService.java:172-204 | The score lies between 0 and the number of responses. The status is OK, or INTERNAL_SERVER_ERROR with 0. No responses score 0 with OK. Otherwise the loop's result is `Score`'s value with OK, or 0 with INTERNAL_SERVER_ERROR when `Score` fails. |
| Scoring.ScoreMeaning | src/main/java/com/example/question_service/service/QuestionService.java:173-202 | The score fails exactly when a stored question that a response asks about has a null right answer, or a response to a stored question has a null text. Otherwise it equals the number of correct responses, at most the number of responses. |
| Scoring.ResponseIds | src/main/java/com/example/question_service/service/QuestionService.java:176-178 | The ids of the responses, position by position. |
| Scoring.AnswerMap | src/main/java/com/example/question_service/service/QuestionService.java:184-185 | `Collectors.toMap(Question::getId, Question::getRightAnswer)`, failing on a null value or a repeated key. `AnswerMapMeaning` proves what it means. |
| Scoring.AnswerMapMeaning | src/main/java/com/example/question_service/service/QuestionService.java:184-185 | For questions with distinct ids, `toMap` succeeds exactly when no right answer is null. It then maps each question's id, and no other key, to its right answer. |
| Scoring.AnswerMapKeys | src/main/java/com/example/question_service/service/QuestionService.java:184-185 | The keys of a built map are exactly the ids of the questions. |
| Scoring.AnswerMapBuilt | src/main/java/com/example/question_service/service/QuestionService.java:184-185 | With distinct ids, the map is built exactly when no right answer is null. |
| Scoring.AnswerMapValues | src/main/java/com/example/question_service/service/QuestionService.java:184-185 | With distinct ids, every question's id is a key, and it maps to that question's right answer. |
| Scoring.Point | src/main/java/com/example/question_service/service/QuestionService.java:190-195 | One iteration of the loop adds at most 1. `TallyMeaning` proves when it adds 1 and when it throws. |
| Scoring.Tally | src/main/java/com/example/question_service/service/QuestionService.java:188-196 | The counter after the loop never exceeds the number of responses seen. `TallyMeaning` ties it to the reference count. |
| Scoring.Score | src/main/java/com/example/question_service/service/QuestionService.java:176-198 | getScore's result when the store answers never exceeds the number of responses. `ScoreMeaning` proves when it fails and what it counts. |
| Scoring.TallyMeaning | src/main/java/com/example/question_service/service/QuestionService.java:188-196 | Over a map that agrees with the store, the loop throws exactly when some response has a stored id and a null text. Otherwise it counts the correct responses. |
| Scoring.CorrectCount | src/main/java/com/example/question_service/service/QuestionService.java:188-196 | The reference count of correct responses never exceeds the number of responses. |
| Scoring.CorrectCountAppend | src/main/java/com/example/question_service/service/QuestionService.java:188-196 | The count is additive over concatenation, so each of several responses to the same id is counted. |
| Scoring.TallyStaysFailed | src/main/java/com/example/question_service/service/QuestionService.java:193 | Once an iteration has thrown, the loop over the whole list has thrown. |
| Scoring.NoResponsesScoreZero | src/main/java/com/example/question_service/service/QuestionService.java:173-198 | An empty response list scores 0 and does not fail. |
| JavaStrings.LeadingCount | src/main/java/com/example/question_service/service/QuestionService.java:193 | The leading run of characters at or below U+0020 is all trimmable, and the character after it is not. |
| JavaStrings.TrailingCount | src/main/java/com/example/question_service/service/QuestionService.java:193 | The trailing run of characters at or below U+0020 is all trimmable, and the character before it is not. |
| JavaStrings.Trim | src/main/java/com/example/question_service/service/QuestionService.java:193 | `trim()` never lengthens its argument, and the result neither starts nor ends with a trimmable character. |
| JavaStrings.TrimRemovesOnlyOuterSpace | src/main/java/com/example/question_service/service/QuestionService.java:193 | The input is a trimmable run, then `trim()`'s result, then a trimmable run. Nothing inside is removed. |
| JavaStrings.TrimIdempotent | src/main/java/com/example/question_service/service/QuestionService.java:193 | Trimming twice equals trimming once. |
| JavaStrings.ToUpper | src/main/java/com/example/question_service/service/QuestionService.java:193 | No ASCII lower-case letter survives upper-casing. |
| JavaStrings.ToLower | src/main/java/com/example/question_service/service/QuestionService.java:193 | No ASCII upper-case letter survives lower-casing. |
| JavaStrings.CaseMappingLaws | src/main/java/com/example/question_service/service/QuestionService.java:193 | Both case mappings are idempotent, and each undoes the other up to case: `ToUpper(ToLower(c)) == ToUpper(c)` and `ToLower(ToUpper(c)) == ToLower(c)`. |
| JavaStrings.CharEqualsIgnoreCase | src/main/java/com/example/question_service/service/QuestionService.java:193 | The per-character test of `equalsIgnoreCase`. `CharEqualsIgnoreCaseIsUpperEquality` proves what it means. |
| JavaStrings.EqualsIgnoreCase | src/main/java/com/example/question_service/service/QuestionService.java:193 | `equalsIgnoreCase` with a non-null argument. `EqualsIgnoreCaseIsUpperCaseEquality` proves it holds exactly when the upper-case forms are equal. |
| JavaStrings.CharEqualsIgnoreCaseIsUpperEquality | src/main/java/com/example/question_service/service/QuestionService.java:193 | The three-way character test of `equalsIgnoreCase` holds exactly when the upper cases are equal. |
| JavaStrings.EqualsIgnoreCaseIsUpperCaseEquality | src/main/java/com/example/question_service/service/QuestionService.java:193 | `equalsIgnoreCase` holds exactly when the two strings' upper-case forms are equal. |
| Service.QuestionService.DeleteQuestion | src/main/java/com/example/question_service/service/QuestionService.java:54-73 | A store failure gives INTERNAL_SERVER_ERROR. A present id gives NO_CONTENT and removes that question. A missing id gives NOT_FOUND and leaves the store unchanged. The store keeps distinct ids. |
| Repository.QuestionRepository.DeleteById | src/main/java/com/example/question_service/service/QuestionService.java:60 | The documents become every document except the one with the id, and ids stay distinct. |
| Repository.Find | src/main/java/com/example/question_service/service/QuestionService.java:57 | `findById` finds a stored question with the id, or reports that no stored question has it. |
| Repository.FindUnique | src/main/java/com/example/question_service/service/QuestionService.java:57 | With distinct ids, `findById` returns exactly the question that carries the id. |
| Repository.Remove | src/main/java/com/example/question_service/service/QuestionService.java:60 | What `deleteById` leaves: exactly the stored questions without that id, with ids still distinct. |
| Repository.RemoveDropsOnlyThatEntry | src/main/java/com/example/question_service/service/QuestionService.java:57-66 | After deletion the id is absent and every other id finds what it found before. The store shrinks by one when the id was present and is unchanged when it was not. |
| Repository.RemoveCount | src/main/java/com/example/question_service/service/QuestionService.java:59-66 | Deleting a present id removes one document. Deleting a missing id removes none. |
| Scenarios.ThreeOfFive | src/main/java/com/example/question_service/service/QuestionService.java:101-108 | A category with ids 1 to 5, asked for 3, answers OK with 3 distinct ids from 1 to 5 for every random source. |
| Scenarios.ParisMatches | src/main/java/com/example/question_service/service/QuestionService.java:188-196 | A stored answer "Paris" and the response " paris " score 1. |
| Scenarios.LondonMisses | src/main/java/com/example/question_service/service/QuestionService.java:188-196 | A stored answer "Paris" and the response "London" score 0. |
| Scenarios.UnknownIdsScoreZero | src/main/java/com/example/question_service/service/QuestionService.java:188-196 | Two responses to an id that is not stored score 0 without failing, even when one has a null text. |

## Left out

- **Pass-through operations.** `getAllQuestions`, `getQuestionByCategory`, `addQuestion` and `deleteAllQuestions` (QuestionService.java:25-52, 75-78) delegate to the store with no branching, so they are not modelled.
- **Dead code.** The commented-out old versions of `getQuestionsFromId` and `getScore` are not modelled.
- **Logging.** slf4j calls have no effect on results and are left out.
- **Framework plumbing.** Spring dependency injection and `ResponseEntity` headers are left out. The HTTP routing in QuestionController.java is not part of this model.
- **The store.**
  - The MongoDB query engine is not modelled. The two queries are filters on exact equality over the documents in natural order.
  - The order in which Mongo returns documents is taken to be that natural order.
  - A repository failure is the flag `storeError`. A delete is taken to be atomic: a failure leaves the store unchanged.
- **Shuffle uniformity.** That every arrangement is equally likely is a probabilistic claim and is not modelled. The model proves that the shuffle is a permutation and that every arrangement is reachable.
- **Random source.** The random source is the caller-supplied function `nextInt`. The JDK's `Random` and its seed are not modelled.
- **Unicode in `equalsIgnoreCase`.** Unicode case mapping is not modelled. Case mapping is ASCII only, so `JavaStrings.CharEqualsIgnoreCaseIsUpperEquality` holds for this mapping and not for every Unicode character.
- **Java nulls.** Only the right answer and the submitted text may be null.
  - A null question title or option would be copied unchanged by the projection, so nullness there has no effect.
  - A null list, a null list element or a null id is not modelled.
- Service.QuestionService.GetScore: the 32-bit `int` counter is not modelled. It cannot overflow here, because it never exceeds the number of responses.
- **Entity classes.** The entity classes Question, QuestionWrapper and Response are not part of this model beyond their fields. Their getters and setters are plain field access.
