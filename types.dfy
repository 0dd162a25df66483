/** The quiz content a session is played over: questions grouped in categories. */
module Types {

  /** An optional value, as the component's `number | null` and `boolean | null` state cells. */
  datatype Option<+T> = None | Some(value: T)

  /** One multiple-choice question; `correctAnswer` is an index into `options`. */
  datatype Question = Question(id: string, question: string, options: seq<string>, correctAnswer: int)

  /** A category: display data and the ordered questions a session plays through. */
  datatype Category = Category(
    id: string,
    title: string,
    description: string,
    icon: string,
    questions: seq<Question>)

  /** The correct answer is a valid index into the options. */
  predicate WellFormed(q: Question)
  {
    0 <= q.correctAnswer < |q.options|
  }

  /** A category a session can be played over: at least one question, each well formed. */
  predicate Playable(c: Category)
  {
    |c.questions| >= 1 && forall k :: 0 <= k < |c.questions| ==> WellFormed(c.questions[k])
  }

  /** A recorded answer is either no answer or an index of one of the question's buttons. */
  predicate ValidChoice(q: Question, choice: Option<int>)
  {
    choice.Some? ==> 0 <= choice.value < |q.options|
  }

  /** Every recorded answer in `answers` is a valid choice for the question at its position. */
  predicate ValidHistory(qs: seq<Question>, answers: seq<Option<int>>)
    requires |answers| <= |qs|
  {
    forall k :: 0 <= k < |answers| ==> ValidChoice(qs[k], answers[k])
  }
}
