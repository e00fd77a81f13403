/** The records the survey API returns (2022 catalog), as values. */
module SurveyTypes {
  import opened Values

  /** A catalog question; `kind` is the API's `type` field. */
  datatype Question = Question(index: int, kind: string, categoryId: string, text: string, topic: string, id: string)

  datatype Category = Category(index: int, text: string, description: string, id: string)

  /** The question an answer refers to, as nested in the answer. */
  datatype AnswerQuestion = AnswerQuestion(id: string, topic: string, category: string)

  /** An answer as fetched; any field may be absent, the nested question included. */
  datatype NestedAnswer = NestedAnswer(
    knowledge: Option<int>,
    motivation: Option<int>,
    customScaleValue: Option<int>,
    updatedAt: Option<string>,
    question: Option<AnswerQuestion>)

  /** An answer after normalisation: the question's id, topic and category copied inline. */
  datatype InlineAnswer = InlineAnswer(
    knowledge: Option<int>,
    motivation: Option<int>,
    customScaleValue: Option<int>,
    updatedAt: Option<string>,
    category: string,
    topic: string,
    questionId: string)

  /** One user's answer set as fetched. */
  datatype UserAnswers = UserAnswers(
    username: string, email: string, formDefinitionId: string, updatedAt: string,
    answers: seq<NestedAnswer>)

  /** One user's answer set with the answers normalised. */
  datatype UserQuestionAnswers = UserQuestionAnswers(
    username: string, email: string, formDefinitionId: string, updatedAt: string,
    answers: seq<InlineAnswer>)

  datatype UserAttribute = UserAttribute(name: string, value: string)

  /** A directory entry: the first attribute holds the email. */
  datatype User = User(username: string, attributes: seq<UserAttribute>)
}
