/** The deterministic placeholder quiz used when no model key is configured
    or generation fails (backend/src/services/fallback.js). */
module Fallback {
  import opened JsBuiltins
  import opened QuizData

  const BaseOptions: seq<string> := ["Yes", "No", "Not stated", "Irrelevant"]
  const PlaceholderCount: nat := 5
  const MaxSections: nat := 8
  const FallbackExplanation: string := "Fallback used because Gemini API quota was exceeded or key missing."
  const SummaryHead: string := "Placeholder summary for "
  const SummaryTail: string := ". Configure GEMINI_API_KEY for real AI output."
  const FixedTopics: seq<string> := ["Wikipedia", "Article", "Reference"]

  /** The one question the fallback repeats. */
  function Placeholder(title: string): Question {
    Question(
      "Is this article about '" + title + "'?",
      BaseOptions,
      "Yes",
      "easy",
      FallbackExplanation)
  }

  function PlaceholderSummary(title: string): string {
    SummaryHead + title + SummaryTail
  }

  /** The payload `fallbackQuiz` returns, as a value. An absent `sections`
      argument is the empty list here; both give `[]`. */
  function FallbackPayload(url: string, title: string, sections: seq<string>): (p: Payload)
    ensures |p.quiz| == PlaceholderCount
    ensures forall i :: 0 <= i < |p.quiz| ==> p.quiz[i] == Placeholder(title)
  {
    Payload(url, title, PlaceholderSummary(title), NoEntities,
            SliceTo(sections, MaxSections),
            seq(PlaceholderCount, _ => Placeholder(title)),
            FixedTopics)
  }

  /** `fallbackQuiz(url, title, article_text, sections)`: five pushes of the
      placeholder, then the payload literal. `articleText` is not read. */
  method FallbackQuiz(url: string, title: string, articleText: string, sections: seq<string>)
    returns (p: Payload)
    ensures p == FallbackPayload(url, title, sections)
  {
    var quiz: seq<Question> := [];
    for i := 0 to PlaceholderCount
      invariant |quiz| == i
      invariant forall k :: 0 <= k < i ==> quiz[k] == Placeholder(title)
    {
      quiz := quiz + [Placeholder(title)];
    }
    p := Payload(url, title, PlaceholderSummary(title), NoEntities,
                 SliceTo(sections, MaxSections), quiz, FixedTopics);
  }

  /** The shape every fallback payload has: five identical easy yes/no items
      whose answer is one of their options, at most eight of the given
      sections in their order, no entities, three fixed related topics, and
      the url and title echoed. */
  lemma FallbackShape(url: string, title: string, sections: seq<string>)
    ensures var p := FallbackPayload(url, title, sections);
      && p.url == url && p.title == title
      && |p.quiz| == 5
      && (forall i :: 0 <= i < 5 ==>
            && p.quiz[i].question == "Is this article about '" + title + "'?"
            && p.quiz[i].options == ["Yes", "No", "Not stated", "Irrelevant"]
            && p.quiz[i].answer == "Yes"
            && p.quiz[i].answer in p.quiz[i].options
            && p.quiz[i].difficulty == "easy")
      && |p.sections| == Min(8, |sections|)
      && p.sections == sections[..|p.sections|]
      && p.keyEntities == KeyEntities([], [], [])
      && p.relatedTopics == ["Wikipedia", "Article", "Reference"]
  {
  }

  /** No sections given, none returned. */
  lemma FallbackNoSections(url: string, title: string)
    ensures FallbackPayload(url, title, []).sections == []
  {
  }
}
