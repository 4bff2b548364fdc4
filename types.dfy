/** The records shared by the parser, the session engine, the app state and
    the dashboard (types.ts), and the two wrappers used for absent values and
    error returns. */
module Types {

  /** A value that may be absent (`undefined` in the source). */
  datatype Option<+T> = None | Some(value: T)

  /** Either a value or an error message. */
  datatype Result<+T, +E> = Success(value: T) | Failure(error: E)

  /** One multiple-choice question. `options` keep their labels as authored;
      `correctAnswer` is the text of the right option. */
  datatype Question = Question(id: string, text: string, options: seq<string>, correctAnswer: string)

  /** A quiz. `createdAt` is a millisecond timestamp, taken as an opaque integer. */
  datatype Quiz = Quiz(id: string, title: string, description: Option<string>,
                       questions: seq<Question>, createdAt: int)

  /** The outcome of one completed attempt. */
  datatype QuizResult = QuizResult(id: string, quizId: string, quizTitle: string,
                                   score: int, totalQuestions: int, date: int)
}
