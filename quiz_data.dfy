/** The quiz payload exchanged between the generator, the store and the exam
    page, and the shape of a model reply once `JSON.parse` has read it. */
module QuizData {
  import opened Wrappers

  /** One multiple-choice item. A field the model left out is the empty
      string, or the empty list for `options`. */
  datatype Question = Question(
    question: string,
    options: seq<string>,
    answer: string,
    difficulty: string,
    explanation: string)

  datatype KeyEntities = KeyEntities(
    people: seq<string>,
    organizations: seq<string>,
    locations: seq<string>)

  const NoEntities: KeyEntities := KeyEntities([], [], [])

  /** The quiz payload returned to clients and stored as `full_quiz_data`. */
  datatype Payload = Payload(
    url: string,
    title: string,
    summary: string,
    keyEntities: KeyEntities,
    sections: seq<string>,
    quiz: seq<Question>,
    relatedTopics: seq<string>)

  /** What `JSON.parse` yields for a model reply, as far as the generator
      reads it: the `quiz` array (absent is empty), whether normalising it
      throws a TypeError, and the optional top-level fields. `quizThrows`
      holds when `(parsed.quiz || []).map(...)` cannot run: `quiz` is
      truthy but not an array, an item is `null`, or an item's `options`
      is truthy and has no `slice` (a number, an object, `true`). */
  datatype ParsedReply = ParsedReply(
    quiz: seq<Question>,
    quizThrows: bool,
    summary: Option<string>,
    keyEntities: Option<KeyEntities>,
    sections: Option<seq<string>>,
    relatedTopics: Option<seq<string>>)

  /** `quiz.map((q) => q.question)`. */
  function QuestionTexts(qs: seq<Question>): (r: seq<string>)
    ensures |r| == |qs|
    ensures forall i :: 0 <= i < |qs| ==> r[i] == qs[i].question
  {
    seq(|qs|, i requires 0 <= i < |qs| => qs[i].question)
  }

  /** `new Set(quiz.map((q) => q.question))`. */
  function QuestionSet(qs: seq<Question>): (r: set<string>)
    ensures forall t :: t in r <==> t in QuestionTexts(qs)
    ensures forall i :: 0 <= i < |qs| ==> qs[i].question in r
  {
    set t | t in QuestionTexts(qs)
  }

  lemma QuestionTextsAppend(a: seq<Question>, b: seq<Question>)
    ensures QuestionTexts(a + b) == QuestionTexts(a) + QuestionTexts(b)
  {
  }

  lemma QuestionSetAppend(a: seq<Question>, b: seq<Question>)
    ensures QuestionSet(a + b) == QuestionSet(a) + QuestionSet(b)
  {
    QuestionTextsAppend(a, b);
  }

  /** Pushing one item adds its question to the set. */
  lemma QuestionSetPush(a: seq<Question>, q: Question)
    ensures QuestionSet(a + [q]) == QuestionSet(a) + {q.question}
  {
    QuestionSetAppend(a, [q]);
    assert QuestionTexts([q]) == [q.question];
  }
}
