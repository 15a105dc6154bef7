/** The values the question service works with: the stored Question document,
    the answer-free QuestionWrapper sent to quiz takers, a submitted Response,
    and the HTTP status paired with every service result. */
module Entities {

  /** A Java reference that may be null. */
  datatype Nullable<+T> = Null | Present(value: T)

  /** The outcome of a computation that may throw: None stands for the exception. */
  datatype Option<+T> = None | Some(value: T)

  /** A stored multiple-choice question (the Mongo document). Only the right
      answer is modelled as possibly null: it is the only field whose nullness
      changes what the service does. */
  datatype Question = Question(
    id: int,
    questionTitle: string,
    option1: string,
    option2: string,
    option3: string,
    option4: string,
    rightAnswer: Nullable<string>,
    category: string)

  /** The caller-safe view of a question: it has no right-answer field at all. */
  datatype QuestionWrapper = QuestionWrapper(
    id: int,
    questionTitle: string,
    option1: string,
    option2: string,
    option3: string,
    option4: string)

  /** One submitted answer: the question id and the free-form text, which may be null. */
  datatype Response = Response(id: int, response: Nullable<string>)

  /** The HTTP statuses the core returns. */
  datatype HttpStatus = Ok | NoContent | NotFound | InternalServerError

  /** A body paired with its status, as Spring's ResponseEntity. */
  datatype ResponseEntity<+T> = ResponseEntity(body: T, status: HttpStatus)
}
