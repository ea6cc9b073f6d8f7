/** `generateQuizPayload` of backend/src/services/llmQuizGenerator.js: one
    model call for the whole quiz, up to three supplemental calls for the
    questions still missing, and the fallback quiz when there is no key or a
    call fails. The model is an oracle from the call's position and prompt to
    its reply; `JSON.parse` is the oracle `parse` of the extraction. */
module QuizGenerator {
  import opened Wrappers
  import opened JsBuiltins
  import opened QuizData
  import opened JsonRepair
  import opened Fallback

  /** What a prompt asks for: `qCount` questions and, in a supplemental
      round, the questions already generated (listed as "None" when there
      are none). The article, url and title are the same in every prompt. */
  datatype Prompt = Prompt(qCount: nat, previous: Option<seq<string>>)

  /** The text of a model response, or a thrown `generateContent` /
      `response.text()`. */
  datatype Reply = Reply(text: string) | CallFailed

  type Model = (nat, Prompt) -> Reply

  const MaxSupplementalRounds: nat := 3
  const MaxOptions: nat := 4

  // ---------------------------------------------------- normalisation

  /** The `.map((q) => ({ ... options: (q.options || []).slice(0, 4) ... }))`
      applied to every reply: fields copied, options cut to four. */
  function NormalizeItems(qs: seq<Question>): (r: seq<Question>)
    ensures |r| == |qs|
    ensures forall i :: 0 <= i < |qs| ==>
      && r[i].question == qs[i].question
      && r[i].answer == qs[i].answer
      && r[i].difficulty == qs[i].difficulty
      && r[i].explanation == qs[i].explanation
      && |r[i].options| == Min(MaxOptions, |qs[i].options|)
      && r[i].options == qs[i].options[..|r[i].options|]
      && (|qs[i].options| <= MaxOptions ==> r[i].options == qs[i].options)
  {
    seq(|qs|, i requires 0 <= i < |qs| =>
      var q := qs[i];
      Question(q.question, SliceTo(q.options, MaxOptions), q.answer, q.difficulty, q.explanation))
  }

  predicate OptionsBounded(qs: seq<Question>) {
    forall i :: 0 <= i < |qs| ==> |qs[i].options| <= MaxOptions
  }

  // ------------------------------------------------------ deduplication

  /** The items of `more` that the dedup loop would push if it never stopped
      at `count`: a non-empty question not in `seen`, which from then on is
      seen itself. */
  function FreshItems(more: seq<Question>, seen: set<string>): seq<Question>
    decreases |more|
  {
    if more == [] then []
    else if more[0].question != "" && more[0].question !in seen then
      [more[0]] + FreshItems(more[1..], seen + {more[0].question})
    else
      FreshItems(more[1..], seen)
  }

  /** Every fresh item comes from `more`, has a non-empty question that is
      neither in `seen` nor asked by an earlier fresh item. */
  lemma {:induction false} FreshItemsSound(more: seq<Question>, seen: set<string>)
    ensures forall j :: 0 <= j < |FreshItems(more, seen)| ==>
      && FreshItems(more, seen)[j] in more
      && FreshItems(more, seen)[j].question != ""
      && FreshItems(more, seen)[j].question !in seen
      && FreshItems(more, seen)[j].question !in QuestionSet(FreshItems(more, seen)[..j])
    decreases |more|
  {
    if more != [] {
      var q := more[0];
      var f := FreshItems(more, seen);
      if q.question != "" && q.question !in seen {
        var seen' := seen + {q.question};
        FreshItemsSound(more[1..], seen');
        var g := FreshItems(more[1..], seen');
        assert f == [q] + g;
        forall j | 0 <= j < |f|
          ensures f[j] in more && f[j].question != "" && f[j].question !in seen
          ensures f[j].question !in QuestionSet(f[..j])
        {
          if j == 0 {
            assert f[..j] == [];
          } else {
            assert f[j] == g[j - 1];
            assert g[j - 1] in more[1..];
            assert f[..j] == [q] + g[..j - 1];
            QuestionSetAppend([q], g[..j - 1]);
          }
        }
      } else {
        FreshItemsSound(more[1..], seen);
        assert f == FreshItems(more[1..], seen);
        forall j | 0 <= j < |f| ensures f[j] in more {
          assert f[j] in more[1..];
        }
      }
    }
  }

  /** And none is missed: every non-empty question of `more` that is not in
      `seen` is the question of a fresh item. */
  lemma {:induction false} FreshItemsComplete(more: seq<Question>, seen: set<string>)
    ensures forall i :: 0 <= i < |more| && more[i].question != "" && more[i].question !in seen ==>
      more[i].question in QuestionSet(FreshItems(more, seen))
    decreases |more|
  {
    if more != [] {
      var q := more[0];
      var f := FreshItems(more, seen);
      if q.question != "" && q.question !in seen {
        var seen' := seen + {q.question};
        FreshItemsComplete(more[1..], seen');
        var g := FreshItems(more[1..], seen');
        assert f == [q] + g;
        QuestionSetAppend([q], g);
        assert QuestionSet(f) == QuestionSet([q]) + QuestionSet(g);
        assert [q][0].question in QuestionSet([q]);
        forall i | 0 <= i < |more| && more[i].question != "" && more[i].question !in seen
          ensures more[i].question in QuestionSet(f)
        {
          if i > 0 {
            assert more[i] == more[1..][i - 1];
            if more[i].question != q.question {
              assert more[i].question in QuestionSet(g);
            }
          }
        }
      } else {
        FreshItemsComplete(more[1..], seen);
        assert f == FreshItems(more[1..], seen);
        forall i | 0 <= i < |more| && more[i].question != "" && more[i].question !in seen
          ensures more[i].question in QuestionSet(f)
        {
          assert i > 0;
          assert more[i] == more[1..][i - 1];
        }
      }
    }
  }

  /** The `for (const mq of moreQuiz)` loop: push each item whose question is
      non-empty and not yet seen, mark it seen, stop once `count` is reached. */
  method AppendUnseen(quiz: seq<Question>, more: seq<Question>, count: nat) returns (r: seq<Question>)
    requires |quiz| < count
    ensures r == quiz + SliceTo(FreshItems(more, QuestionSet(quiz)), count - |quiz|)
  {
    r := quiz;
    var seen := QuestionSet(quiz);
    ghost var target := quiz + SliceTo(FreshItems(more, seen), count - |quiz|);
    var i := 0;
    while i < |more|
      invariant 0 <= i <= |more|
      invariant |quiz| <= |r| < count
      invariant seen == QuestionSet(r)
      invariant r + SliceTo(FreshItems(more[i..], seen), count - |r|) == target
    {
      var mq := more[i];
      DedupStep(more, i, seen, r, count);
      if mq.question != "" && mq.question !in seen {
        QuestionSetPush(r, mq);
        r := r + [mq];
        seen := seen + {mq.question};
        if |r| >= count {
          assert SliceTo(FreshItems(more[i + 1..], seen), count - |r|) == [];
          return;
        }
      }
      i := i + 1;
    }
  }

  /** One turn of the dedup loop keeps the quiz so far followed by what is
      still to be pushed. */
  lemma DedupStep(more: seq<Question>, i: nat, seen: set<string>, r: seq<Question>, count: nat)
    requires i < |more| && |r| < count
    ensures var mq := more[i];
      mq.question != "" && mq.question !in seen ==>
        (r + [mq]) + SliceTo(FreshItems(more[i + 1..], seen + {mq.question}), count - |r + [mq]|)
          == r + SliceTo(FreshItems(more[i..], seen), count - |r|)
    ensures var mq := more[i];
      !(mq.question != "" && mq.question !in seen) ==>
        FreshItems(more[i + 1..], seen) == FreshItems(more[i..], seen)
  {
    var mq := more[i];
    FreshItemsUnfold(more, i, seen);
    if mq.question != "" && mq.question !in seen {
      PushFresh(r, mq, FreshItems(more[i + 1..], seen + {mq.question}), count - |r|);
    }
  }

  /** One step of `FreshItems` at position `i`. */
  lemma FreshItemsUnfold(more: seq<Question>, i: nat, seen: set<string>)
    requires i < |more|
    ensures more[i].question != "" && more[i].question !in seen ==>
      FreshItems(more[i..], seen) == [more[i]] + FreshItems(more[i + 1..], seen + {more[i].question})
    ensures !(more[i].question != "" && more[i].question !in seen) ==>
      FreshItems(more[i..], seen) == FreshItems(more[i + 1..], seen)
  {
    assert more[i..][1..] == more[i + 1..];
  }

  /** Pushing the head of the fresh items moves it from the pending slice
      to the quiz. */
  lemma PushFresh(r: seq<Question>, mq: Question, rest: seq<Question>, room: nat)
    requires room > 0
    ensures (r + [mq]) + SliceTo(rest, room - 1) == r + SliceTo([mq] + rest, room)
  {
    assert SliceTo([mq] + rest, room) == [mq] + SliceTo(rest, room - 1);
  }

  // -------------------------------------------------------- the calls

  /** What one call yields: a thrown call, a reply `extractJson` rejects,
      a parsed reply whose `quiz` cannot be normalised, or the parsed
      reply. */
  datatype Answer = CallError | Unreadable | BadShape | Parsed(reply: ParsedReply)

  /** The answer throws inside the outer `try`: the call itself, or the
      TypeError of normalising the reply's `quiz`. Either ends in the
      fallback. */
  predicate Throws(a: Answer) {
    a.CallError? || a.BadShape?
  }

  /** The answer to the `i`-th call, with prompt `pr`. */
  ghost function Ask(model: Model, parse: string -> Option<ParsedReply>, i: nat, pr: Prompt): Answer {
    match model(i, pr)
    case CallFailed => CallError
    case Reply(text) =>
      match ExtractSpec(text, parse)
      case Failure(_) => Unreadable
      case Success(r) => if r.quizThrows then BadShape else Parsed(r)
  }

  /** What the calls of a generation answer: the `i`-th call with prompt
      `pr` answers `ask(i, pr)`. */
  type Oracle = (nat, Prompt) -> Answer

  /** `ask` answers every call as `model` with `extractJson` does. */
  ghost predicate Answering(ask: Oracle, model: Model, parse: string -> Option<ParsedReply>) {
    forall i, pr {:trigger Ask(model, parse, i, pr)} :: ask(i, pr) == Ask(model, parse, i, pr)
  }

  /** One `model.generateContent(prompt)`, `response.text()` and
      `extractJson` of the text, as the `i`-th call. */
  method Call(model: Model, parse: string -> Option<ParsedReply>, i: nat, pr: Prompt, ghost ask: Oracle)
    returns (a: Answer)
    requires Answering(ask, model, parse)
    ensures a == ask(i, pr)
  {
    var reply := model(i, pr);
    if reply.CallFailed? {
      a := CallError;
    } else {
      var extracted := ExtractJson(reply.text, parse);
      a := if extracted.Failure? then Unreadable
           else if extracted.value.quizThrows then BadShape
           else Parsed(extracted.value);
    }
    assert a == Ask(model, parse, i, pr);
  }

  /** The answers to the calls `requests`, in order. */
  ghost function Answers(ask: Oracle, requests: seq<Prompt>): (r: seq<Answer>)
    ensures |r| == |requests|
    decreases |requests|
  {
    if requests == [] then []
    else
      var n := |requests| - 1;
      Answers(ask, requests[..n]) + [ask(n, requests[n])]
  }

  /** The `i`-th answer is the answer to the `i`-th call. */
  lemma {:induction false} AnswersAt(ask: Oracle, requests: seq<Prompt>, i: nat)
    requires i < |requests|
    ensures Answers(ask, requests)[i] == ask(i, requests[i])
    decreases |requests|
  {
    var n := |requests| - 1;
    var front := requests[..n];
    assert Answers(ask, requests) == Answers(ask, front) + [ask(n, requests[n])];
    if i < n {
      AnswersAt(ask, front, i);
      assert front[i] == requests[i];
    }
  }

  /** One more call adds its answer at the end. */
  lemma AnswersExtend(ask: Oracle, requests: seq<Prompt>, pr: Prompt)
    ensures Answers(ask, requests + [pr])
      == Answers(ask, requests) + [ask(|requests|, pr)]
  {
    var rs := requests + [pr];
    assert rs[..|requests|] == requests;
    assert rs[|requests|] == pr;
  }

  /** The first `n` answers parsed. */
  predicate AllParsed(answers: seq<Answer>, n: nat)
    requires n <= |answers|
  {
    forall i :: 0 <= i < n ==> answers[i].Parsed?
  }

  /** The items of the first reply the quiz starts with. */
  function FirstBatch(first: ParsedReply, count: nat): (b: seq<Question>)
    ensures |b| <= count && |b| <= |first.quiz|
    ensures OptionsBounded(b)
  {
    SliceTo(NormalizeItems(first.quiz), count)
  }

  /** Every item after the first batch asks a non-empty question that no
      earlier item asks. */
  predicate LaterItemsFresh(quiz: seq<Question>, from: nat) {
    forall k :: from <= k < |quiz| ==>
      quiz[k].question != "" && quiz[k].question !in QuestionSet(quiz[..k])
  }

  /** The normalised items of an answer, none when it did not parse. */
  function AnswerItems(a: Answer): seq<Question> {
    if a.Parsed? then NormalizeItems(a.reply.quiz) else []
  }

  /** The items of all answers, call by call. */
  function Pool(answers: seq<Answer>): seq<Question>
    decreases |answers|
  {
    if answers == [] then []
    else Pool(answers[..|answers| - 1]) + AnswerItems(answers[|answers| - 1])
  }

  /** Some answer among `answers` has the item `q`. */
  predicate InSomeAnswer(answers: seq<Answer>, q: Question) {
    exists i :: 0 <= i < |answers| && q in AnswerItems(answers[i])
  }

  /** An item is in the pool exactly when one of the replies has it. */
  lemma {:induction false} PoolMembers(answers: seq<Answer>, q: Question)
    ensures q in Pool(answers) <==> InSomeAnswer(answers, q)
    decreases |answers|
  {
    if answers != [] {
      var n := |answers| - 1;
      PoolMembers(answers[..n], q);
      InSomeAnswerSnoc(answers, q);
      assert Pool(answers) == Pool(answers[..n]) + AnswerItems(answers[n]);
    }
  }

  /** The last answer, or one before it. */
  lemma InSomeAnswerSnoc(answers: seq<Answer>, q: Question)
    requires answers != []
    ensures var n := |answers| - 1;
      InSomeAnswer(answers, q) <==> InSomeAnswer(answers[..n], q) || q in AnswerItems(answers[n])
  {
    var n := |answers| - 1;
    if InSomeAnswer(answers, q) {
      InSomeAnswerSplit(answers, n, q);
    }
    if InSomeAnswer(answers[..n], q) {
      InSomeAnswerPrefix(answers, n, q);
    }
  }

  /** An answer before `n` is an answer of the prefix. */
  lemma InSomeAnswerSplit(answers: seq<Answer>, n: nat, q: Question)
    requires n < |answers| == n + 1
    requires InSomeAnswer(answers, q)
    ensures InSomeAnswer(answers[..n], q) || q in AnswerItems(answers[n])
  {
    var i :| 0 <= i < |answers| && q in AnswerItems(answers[i]);
    if i < n {
      assert answers[..n][i] == answers[i];
    }
  }

  /** An answer of a prefix is an answer of the whole. */
  lemma InSomeAnswerPrefix(answers: seq<Answer>, n: nat, q: Question)
    requires n <= |answers|
    requires InSomeAnswer(answers[..n], q)
    ensures InSomeAnswer(answers, q)
  {
    var i :| 0 <= i < n && q in AnswerItems(answers[..n][i]);
    assert answers[..n][i] == answers[i];
  }

  /** What one supplemental answer does to a quiz that is not yet full: a
      parsed reply appends its fresh items, at most as many as are missing;
      any other answer leaves the quiz as it was. */
  function RoundStep(quiz: seq<Question>, a: Answer, count: nat): seq<Question> {
    if a.Parsed? && |quiz| < count then
      quiz + SliceTo(FreshItems(NormalizeItems(a.reply.quiz), QuestionSet(quiz)), count - |quiz|)
    else quiz
  }

  /** The quiz the rounds build: the first batch, then `RoundStep` for each
      supplemental answer in turn. */
  function Built(batch: seq<Question>, later: seq<Answer>, count: nat): seq<Question>
    decreases |later|
  {
    if later == [] then batch
    else Built(RoundStep(batch, later[0], count), later[1..], count)
  }

  /** Every item is a normalised item of a reply that parsed. */
  predicate FromReplies(quiz: seq<Question>, answers: seq<Answer>) {
    forall k :: 0 <= k < |quiz| ==> quiz[k] in Pool(answers)
  }

  /** Each supplemental prompt asks for `count` minus the number of
      questions it lists, and what it lists is a prefix of the final quiz's
      questions. Which prefix each round listed is pinned by `Round` and
      `RunRounds`, not here. */
  predicate RoundsConsistent(requests: seq<Prompt>, quiz: seq<Question>, count: nat) {
    forall i :: 1 <= i < |requests| ==>
      && requests[i].previous.Some?
      && requests[i].previous.value <= QuestionTexts(quiz)
      && requests[i].qCount == count - |requests[i].previous.value|
      && requests[i].qCount > 0
  }

  /** What the rounds leave behind when no call failed: at most `count`
      items that start with the first reply's batch and continue with fresh
      questions only, each taken from some reply, prompts that match the
      quiz, and the reason the rounds stopped. */
  predicate RoundsResult(quiz: seq<Question>, requests: seq<Prompt>, answers: seq<Answer>, count: nat)
    requires 1 <= |requests| == |answers|
    requires answers[0].Parsed?
  {
    var batch := FirstBatch(answers[0].reply, count);
    var last := |requests| - 1;
    && |quiz| <= count
    && batch <= quiz
    && OptionsBounded(quiz)
    && LaterItemsFresh(quiz, |batch|)
    && FromReplies(quiz, answers)
    && RoundsConsistent(requests, quiz, count)
    && quiz == Built(batch, answers[1..], count)
    && (last > 0 ==> |batch| < count)
    && (|quiz| == count
        || last == MaxSupplementalRounds
        || (last > 0 && answers[last].Unreadable? && requests[last].previous.value == QuestionTexts(quiz)))
  }

  /** The payload of a generation that did not fall back: the metadata of
      the first reply, with the defaults of `||`, and the quiz the rounds
      built. */
  predicate Generated(p: Payload, requests: seq<Prompt>, answers: seq<Answer>,
                      sections: seq<string>, count: nat)
    requires 1 <= |requests| == |answers|
    requires answers[0].Parsed?
  {
    var first := answers[0].reply;
    && p.summary == first.summary.GetOr("")
    && p.keyEntities == first.keyEntities.GetOr(NoEntities)
    && p.sections == first.sections.GetOr(sections)
    && p.relatedTopics == first.relatedTopics.GetOr([])
    && RoundsResult(p.quiz, requests, answers, count)
  }

  /** `generateQuizPayload({ url, title, article_text, sections, count })`.
      `hasKey` says whether a Gemini client and key are configured; the i-th
      model call (from 0) with prompt `pr` replies `model(i, pr)`. Returns the
      payload, the prompts sent in order, the answer to each, and whether the
      fallback was used. */
  method GenerateQuizPayload(hasKey: bool, url: string, title: string, articleText: string,
                             sections: seq<string>, count: nat,
                             model: Model, parse: string -> Option<ParsedReply>, ghost ask: Oracle)
    returns (p: Payload, requests: seq<Prompt>, ghost answers: seq<Answer>, ghost fellBack: bool)
    requires Answering(ask, model, parse)
    ensures p.url == url && p.title == title
    ensures answers == Answers(ask, requests)
    ensures !hasKey ==> fellBack && requests == []
    ensures fellBack ==> p == FallbackPayload(url, title, sections)
    ensures hasKey ==>
      && 1 <= |requests| <= 1 + MaxSupplementalRounds
      && requests[0] == Prompt(count, None)
      && AllParsed(answers, |answers| - 1)
      && (fellBack <==> !answers[0].Parsed? || Throws(answers[|answers| - 1]))
    ensures !fellBack ==> hasKey && Generated(p, requests, answers, sections, count)
  {
    if !hasKey {
      p := FallbackQuiz(url, title, articleText, sections);
      requests, answers, fellBack := [], [], true;
      return;
    }
    requests := [Prompt(count, None)];
    var first := Call(model, parse, 0, requests[0], ask);
    answers := [first];
    AnswersExtend(ask, [], requests[0]);
    assert [] + [requests[0]] == requests;
    if !first.Parsed? {
      p := FallbackQuiz(url, title, articleText, sections);
      fellBack := true;
      return;
    }
    var parsed := first.reply;
    var quiz := SliceTo(NormalizeItems(parsed.quiz), count);
    var threw;
    ghost var answers0 := answers;
    quiz, requests, answers, threw := SupplementalRounds(quiz, count, model, parse, requests, answers, ask);
    RoundsOutcome(SliceTo(NormalizeItems(parsed.quiz), count), [Prompt(count, None)], answers0, count, ask);
    if threw {
      p := FallbackQuiz(url, title, articleText, sections);
      fellBack := true;
      return;
    }
    quiz := SliceTo(quiz, count);
    p := Payload(url, title,
                 parsed.summary.GetOr(""),
                 parsed.keyEntities.GetOr(NoEntities),
                 parsed.sections.GetOr(sections),
                 quiz,
                 parsed.relatedTopics.GetOr([]));
    fellBack := false;
  }

  /** The quiz, the prompts sent and their answers, at some point of the
      generation. */
  datatype RoundsState = RoundsState(quiz: seq<Question>, requests: seq<Prompt>, answers: seq<Answer>)

  /** The state after one more supplemental round: the prompt for the
      missing questions listing the current ones, its answer as the next
      call, and the quiz after `RoundStep`. */
  ghost function NextRound(st: RoundsState, count: nat, ask: Oracle): RoundsState
    requires |st.quiz| < count
  {
    var pr := Prompt(count - |st.quiz|, Some(QuestionTexts(st.quiz)));
    var a := ask(|st.requests|, pr);
    RoundsState(RoundStep(st.quiz, a, count), st.requests + [pr], st.answers + [a])
  }

  /** The supplemental rounds from `st` with `left` rounds allowed: none
      once the quiz is full or no round is left, and none after an answer
      that did not parse (one that throws or an unreadable reply). */
  ghost function RunRounds(st: RoundsState, count: nat, ask: Oracle,
                           left: nat): RoundsState
    decreases left
  {
    if |st.quiz| >= count || left == 0 then st
    else
      var next := NextRound(st, count, ask);
      if !next.answers[|next.answers| - 1].Parsed? then next
      else RunRounds(next, count, ask, left - 1)
  }

  /** The supplemental rounds of `generateQuizPayload`, from the first batch
      on: they end in the state `RunRounds` gives for three rounds. `threw`
      is a round that threw, which ends the whole generation in the
      fallback. */
  method SupplementalRounds(quiz0: seq<Question>, count: nat, model: Model, parse: string -> Option<ParsedReply>,
                            requests0: seq<Prompt>, ghost answers0: seq<Answer>, ghost ask: Oracle)
    returns (quiz: seq<Question>, requests: seq<Prompt>, ghost answers: seq<Answer>, threw: bool)
    requires Answering(ask, model, parse)
    requires |answers0| >= 1 && answers0[|answers0| - 1].Parsed?
    ensures RoundsState(quiz, requests, answers)
      == RunRounds(RoundsState(quiz0, requests0, answers0), count, ask, MaxSupplementalRounds)
    ensures |answers| >= 1 && (threw <==> Throws(answers[|answers| - 1]))
    ensures quiz0 <= quiz && requests0 <= requests
    ensures |requests| <= |requests0| + MaxSupplementalRounds
    ensures |quiz0| <= count ==> |quiz| <= count
  {
    quiz, requests, answers, threw := RoundsLoop(quiz0, count, model, parse, requests0, answers0, ask);
    RunRoundsGrows(RoundsState(quiz0, requests0, answers0), count, ask, MaxSupplementalRounds);
    assert |answers0| <= |answers|;
  }

  /** The `while (quiz.length < count && attempts < maxAttempts)` loop
      itself. */
  method RoundsLoop(quiz0: seq<Question>, count: nat, model: Model, parse: string -> Option<ParsedReply>,
                    requests0: seq<Prompt>, ghost answers0: seq<Answer>, ghost ask: Oracle)
    returns (quiz: seq<Question>, requests: seq<Prompt>, ghost answers: seq<Answer>, threw: bool)
    requires Answering(ask, model, parse)
    requires |answers0| >= 1 && answers0[|answers0| - 1].Parsed?
    ensures RoundsState(quiz, requests, answers)
      == RunRounds(RoundsState(quiz0, requests0, answers0), count, ask, MaxSupplementalRounds)
    ensures |answers| >= 1 && Throws(answers[|answers| - 1]) ==> threw
    ensures threw ==> |answers| >= 1 && Throws(answers[|answers| - 1])
  {
    quiz, requests, answers := quiz0, requests0, answers0;
    ghost var target := RunRounds(RoundsState(quiz0, requests0, answers0), count, ask, MaxSupplementalRounds);
    var attempts := 0;
    while |quiz| < count && attempts < MaxSupplementalRounds
      invariant attempts <= MaxSupplementalRounds
      invariant RunRounds(RoundsState(quiz, requests, answers), count, ask, MaxSupplementalRounds - attempts)
        == target
      invariant |answers| >= 1 && answers[|answers| - 1].Parsed?
      decreases MaxSupplementalRounds - attempts
    {
      ghost var st := RoundsState(quiz, requests, answers);
      var answer;
      quiz, requests, answers, answer := Round(quiz, count, model, parse, requests, answers, ask);
      RoundAdvances(st, RoundsState(quiz, requests, answers), answer, count, ask,
                    MaxSupplementalRounds - attempts, target);
      attempts := attempts + 1;
      if !answer.Parsed? {
        threw := Throws(answer);
        return;
      }
    }
    RunRoundsStop(RoundsState(quiz, requests, answers), count, ask, MaxSupplementalRounds - attempts);
    threw := false;
  }

  /** One unfolding of `RunRounds` where a round is still due. */
  lemma RunRoundsStep(st: RoundsState, count: nat, ask: Oracle,
                      left: nat, next: RoundsState)
    requires |st.quiz| < count && left > 0
    requires next == NextRound(st, count, ask)
    ensures |next.answers| >= 1
    ensures RunRounds(st, count, ask, left)
      == if !next.answers[|next.answers| - 1].Parsed? then next else RunRounds(next, count, ask, left - 1)
  {
  }

  /** A due round whose reply parses but cannot be normalised is the last,
      and it throws: the rounds end there, in the fallback. */
  lemma BadShapeThrows(st: RoundsState, count: nat, ask: Oracle, left: nat)
    requires |st.quiz| < count && left > 0
    requires ask(|st.requests|, Prompt(count - |st.quiz|, Some(QuestionTexts(st.quiz)))).BadShape?
    ensures var r := RunRounds(st, count, ask, left);
      && |r.answers| == |st.answers| + 1 && Throws(r.answers[|st.answers|])
      && r.requests == st.requests + [Prompt(count - |st.quiz|, Some(QuestionTexts(st.quiz)))]
  {
    RunRoundsStep(st, count, ask, left, NextRound(st, count, ask));
  }

  /** The rounds only add: the quiz keeps its start and, when it starts
      within `count`, stays within it; the prompts and answers keep theirs,
      and the prompts gain at most one per round allowed. */
  lemma {:induction false} RunRoundsGrows(st: RoundsState, count: nat, ask: Oracle, left: nat)
    ensures var r := RunRounds(st, count, ask, left);
      && st.quiz <= r.quiz && st.requests <= r.requests && st.answers <= r.answers
      && |r.requests| <= |st.requests| + left
      && (|st.quiz| <= count ==> |r.quiz| <= count)
    decreases left
  {
    if |st.quiz| < count && left > 0 {
      var next := NextRound(st, count, ask);
      if next.answers[|next.answers| - 1].Parsed? {
        RunRoundsGrows(next, count, ask, left - 1);
      }
    }
  }

  /** One round of the loop, in terms of where the rounds end: after a
      parsed reply they go on from the new state, otherwise they end in
      it. */
  lemma RoundAdvances(st: RoundsState, next: RoundsState, answer: Answer, count: nat, ask: Oracle,
                      left: nat, target: RoundsState)
    requires |st.quiz| < count && left > 0
    requires next == NextRound(st, count, ask) && next.answers == st.answers + [answer]
    requires RunRounds(st, count, ask, left) == target
    ensures |next.answers| >= 1 && next.answers[|next.answers| - 1] == answer
    ensures answer.Parsed? ==> RunRounds(next, count, ask, left - 1) == target
    ensures !answer.Parsed? ==> next == target
  {
    RunRoundsStep(st, count, ask, left, next);
  }

  /** `RunRounds` where no round is due. */
  lemma RunRoundsStop(st: RoundsState, count: nat, ask: Oracle, left: nat)
    requires |st.quiz| >= count || left == 0
    ensures RunRounds(st, count, ask, left) == st
  {
  }

  /** One supplemental round: the prompt for the missing questions and the
      questions so far, the call, and the dedup loop over a parsed reply. */
  method Round(quiz: seq<Question>, count: nat, model: Model, parse: string -> Option<ParsedReply>,
               requests: seq<Prompt>, ghost answers: seq<Answer>, ghost ask: Oracle)
    returns (quiz': seq<Question>, requests': seq<Prompt>, ghost answers': seq<Answer>, answer: Answer)
    requires Answering(ask, model, parse)
    requires |quiz| < count
    ensures RoundsState(quiz', requests', answers') == NextRound(RoundsState(quiz, requests, answers), count, ask)
    ensures answers' == answers + [answer]
    ensures requests' == requests + [Prompt(count - |quiz|, Some(QuestionTexts(quiz)))]
    ensures quiz' == RoundStep(quiz, answer, count)
    ensures quiz <= quiz' && |quiz'| <= count
  {
    var prompt := Prompt(count - |quiz|, Some(QuestionTexts(quiz)));
    requests' := requests + [prompt];
    answer := Call(model, parse, |requests|, prompt, ask);
    answers' := answers + [answer];
    quiz' := quiz;
    if answer.Parsed? {
      quiz' := AppendUnseen(quiz, NormalizeItems(answer.reply.quiz), count);
    }
    assert quiz' == RoundStep(quiz, answer, count);
    NextRoundIs(RoundsState(quiz, requests, answers), count, ask, answer, quiz');
  }

  /** The parts of `NextRound`, one by one. */
  lemma NextRoundIs(st: RoundsState, count: nat, ask: Oracle,
                    a: Answer, quiz': seq<Question>)
    requires |st.quiz| < count
    requires a == ask(|st.requests|, Prompt(count - |st.quiz|, Some(QuestionTexts(st.quiz))))
    requires quiz' == RoundStep(st.quiz, a, count)
    ensures NextRound(st, count, ask)
      == RoundsState(quiz', st.requests + [Prompt(count - |st.quiz|, Some(QuestionTexts(st.quiz)))], st.answers + [a])
  {
  }

  /** What the rounds from the first batch end with: the answers are those
      of the prompts, at most three supplemental prompts, every answer but
      the last parsed, and unless the last call threw, the rounds' result. */
  lemma RoundsOutcome(quiz0: seq<Question>, requests0: seq<Prompt>, answers0: seq<Answer>, count: nat,
                      ask: Oracle)
    requires requests0 == [Prompt(count, None)] && answers0 == Answers(ask, requests0)
    requires answers0[0].Parsed?
    requires quiz0 == FirstBatch(answers0[0].reply, count)
    ensures var r := RunRounds(RoundsState(quiz0, requests0, answers0), count, ask, MaxSupplementalRounds);
      && r.answers == Answers(ask, r.requests)
      && 1 <= |r.requests| <= 1 + MaxSupplementalRounds
      && r.requests[0] == requests0[0] && r.answers[0] == answers0[0]
      && AllParsed(r.answers, |r.answers| - 1)
      && (!Throws(r.answers[|r.answers| - 1]) ==> RoundsResult(r.quiz, r.requests, r.answers, count))
  {
    RoundsStart(quiz0, requests0, answers0, count, ask);
    var st0 := RoundsState(quiz0, requests0, answers0);
    RunFrom(st0, quiz0, count, ask, MaxSupplementalRounds, RunRounds(st0, count, ask, MaxSupplementalRounds));
  }

  /** Where the rounds end: the answers are those of the prompts, the
      first prompt and answer are kept, every answer but the last parsed,
      and unless the last call threw, the quiz has the final shape. */
  ghost predicate Ended(r: RoundsState, first: Prompt, firstAnswer: Answer, count: nat, ask: Oracle) {
    && r.answers == Answers(ask, r.requests)
    && 1 <= |r.requests| <= 1 + MaxSupplementalRounds
    && r.requests[0] == first && r.answers[0] == firstAnswer && firstAnswer.Parsed?
    && AllParsed(r.answers, |r.answers| - 1)
    && (!Throws(r.answers[|r.answers| - 1]) ==> RoundsResult(r.quiz, r.requests, r.answers, count))
  }

  /** The induction behind `RoundsOutcome`: `Progress` holds in every
      state the rounds pass through. */
  lemma {:induction false} RunFrom(st: RoundsState, batch: seq<Question>, count: nat,
                                   ask: Oracle, left: nat, r: RoundsState)
    requires Progress(st.quiz, st.requests, st.answers, batch, count, ask)
    requires |st.requests| + left == 1 + MaxSupplementalRounds
    requires AllParsed(st.answers, |st.answers|)
    requires r == RunRounds(st, count, ask, left)
    ensures Ended(r, st.requests[0], st.answers[0], count, ask)
    decreases left
  {
    if |st.quiz| >= count || left == 0 {
      StopEnded(st, batch, count, ask, left, r);
    } else {
      var next := NextRound(st, count, ask);
      var a := next.answers[|next.answers| - 1];
      if a.Parsed? {
        ParsedGoesOn(st, batch, count, ask, left, r, next);
        RunFrom(next, batch, count, ask, left - 1, r);
      } else {
        LastEnded(st, batch, count, ask, left, r, next);
      }
    }
  }

  /** No round is due: the rounds end where they are. */
  lemma StopEnded(st: RoundsState, batch: seq<Question>, count: nat, ask: Oracle, left: nat, r: RoundsState)
    requires Progress(st.quiz, st.requests, st.answers, batch, count, ask)
    requires |st.requests| + left == 1 + MaxSupplementalRounds
    requires AllParsed(st.answers, |st.answers|)
    requires r == RunRounds(st, count, ask, left)
    requires |st.quiz| >= count || left == 0
    ensures Ended(r, st.requests[0], st.answers[0], count, ask)
  {
    RunRoundsStop(st, count, ask, left);
    RoundsStopped(st.quiz, st.requests, st.answers, batch, count, ask);
  }

  /** A round whose reply parsed: the rounds go on from the new state,
      which keeps `Progress`. */
  lemma ParsedGoesOn(st: RoundsState, batch: seq<Question>, count: nat, ask: Oracle, left: nat,
                     r: RoundsState, next: RoundsState)
    requires Progress(st.quiz, st.requests, st.answers, batch, count, ask)
    requires |st.requests| + left == 1 + MaxSupplementalRounds
    requires AllParsed(st.answers, |st.answers|)
    requires r == RunRounds(st, count, ask, left)
    requires |st.quiz| < count && left > 0
    requires next == NextRound(st, count, ask) && next.answers[|next.answers| - 1].Parsed?
    ensures Progress(next.quiz, next.requests, next.answers, batch, count, ask)
    ensures |next.requests| + (left - 1) == 1 + MaxSupplementalRounds
    ensures AllParsed(next.answers, |next.answers|)
    ensures r == RunRounds(next, count, ask, left - 1)
    ensures next.requests[0] == st.requests[0] && next.answers[0] == st.answers[0]
  {
    RunRoundsStep(st, count, ask, left, next);
    NextRoundAnswers(st, count, ask, next);
    NextRoundKeeps(st, batch, count, ask, next, next.answers[|st.answers|]);
  }

  /** A round that threw or whose reply did not parse is the last. */
  lemma LastEnded(st: RoundsState, batch: seq<Question>, count: nat, ask: Oracle, left: nat,
                  r: RoundsState, next: RoundsState)
    requires Progress(st.quiz, st.requests, st.answers, batch, count, ask)
    requires |st.requests| + left == 1 + MaxSupplementalRounds
    requires AllParsed(st.answers, |st.answers|)
    requires r == RunRounds(st, count, ask, left)
    requires |st.quiz| < count && left > 0
    requires next == NextRound(st, count, ask) && !next.answers[|next.answers| - 1].Parsed?
    ensures Ended(r, st.requests[0], st.answers[0], count, ask)
  {
    RunRoundsStep(st, count, ask, left, next);
    NextRoundAnswers(st, count, ask, next);
    var a := next.answers[|st.answers|];
    if !Throws(a) {
      NextRoundKeeps(st, batch, count, ask, next, a);
    }
  }

  /** One round extends the answers by the answer to its prompt: they
      stay those of the prompts, and all but the last are parsed. */
  lemma NextRoundAnswers(st: RoundsState, count: nat, ask: Oracle,
                         next: RoundsState)
    requires |st.quiz| < count && |st.requests| >= 1
    requires st.answers == Answers(ask, st.requests)
    requires AllParsed(st.answers, |st.answers|)
    requires next == NextRound(st, count, ask)
    ensures |next.requests| == |st.requests| + 1 && |next.answers| == |st.answers| + 1
    ensures next.requests[0] == st.requests[0] && next.answers[0] == st.answers[0]
    ensures next.answers == Answers(ask, next.requests)
    ensures next.answers == st.answers + [next.answers[|st.answers|]]
    ensures AllParsed(next.answers, |next.answers| - 1)
  {
    AnswersExtend(ask, st.requests, next.requests[|st.requests|]);
    assert AllParsed(next.answers, |next.answers| - 1) by {
      assert forall i :: 0 <= i < |st.answers| ==> next.answers[i] == st.answers[i];
    }
  }

  /** One round from a state that keeps `Progress`, unless its call
      threw, keeps `Progress` again, with the final shape once the reply
      was unreadable. */
  lemma NextRoundKeeps(st: RoundsState, batch: seq<Question>, count: nat,
                       ask: Oracle, next: RoundsState, a: Answer)
    requires Progress(st.quiz, st.requests, st.answers, batch, count, ask)
    requires |st.requests| <= MaxSupplementalRounds && |st.quiz| < count
    requires next == NextRound(st, count, ask)
    requires next.answers == st.answers + [a] && next.answers == Answers(ask, next.requests)
    requires !Throws(a)
    ensures Progress(next.quiz, next.requests, next.answers, batch, count, ask)
    ensures a.Unreadable? ==> RoundsResult(next.quiz, next.requests, next.answers, count)
  {
    var pr := Prompt(count - |st.quiz|, Some(QuestionTexts(st.quiz)));
    assert a == next.answers[|st.answers|] == ask(|st.requests|, pr);
    assert next.quiz == RoundStep(st.quiz, a, count) && next.requests == st.requests + [pr];
    RoundKeeps(st.quiz, st.requests, st.answers, batch, count, ask,
               next.quiz, next.requests, next.answers, a);
  }

  /** The first batch alone already keeps `Progress`. */
  lemma RoundsStart(quiz0: seq<Question>, requests0: seq<Prompt>, answers0: seq<Answer>, count: nat,
                    ask: Oracle)
    requires requests0 == [Prompt(count, None)] && answers0 == Answers(ask, requests0)
    requires answers0[0].Parsed?
    requires quiz0 == FirstBatch(answers0[0].reply, count)
    ensures Progress(quiz0, requests0, answers0, quiz0, count, ask)
  {
    FromFirstReply(quiz0, answers0, count);
    assert answers0[1..] == [];
  }

  /** What every round keeps: the answers are those of the prompts, the
      quiz starts with the first batch, stays within `count`, has bounded
      options, continues with fresh questions taken from the replies, and
      every supplemental prompt matches it. */
  ghost predicate Progress(quiz: seq<Question>, requests: seq<Prompt>, answers: seq<Answer>,
                           batch: seq<Question>, count: nat,
                           ask: Oracle)
  {
    && 1 <= |requests| <= 1 + MaxSupplementalRounds
    && answers == Answers(ask, requests)
    && answers[0].Parsed? && batch == FirstBatch(answers[0].reply, count)
    && Kept(quiz, requests, answers, batch, count)
    && quiz == Built(batch, answers[1..], count)
    && (|requests| > 1 ==> |batch| < count)
  }

  /** The part of `Progress` about the quiz itself. */
  predicate Kept(quiz: seq<Question>, requests: seq<Prompt>, answers: seq<Answer>,
                 batch: seq<Question>, count: nat)
  {
    && batch <= quiz && |quiz| <= count
    && OptionsBounded(quiz)
    && LaterItemsFresh(quiz, |batch|)
    && FromReplies(quiz, answers)
    && RoundsConsistent(requests, quiz, count)
  }

  /** A round that did not throw keeps `Progress`, and an unreadable
      reply leaves a stopped result. */
  lemma RoundKeeps(quiz: seq<Question>, requests: seq<Prompt>, answers: seq<Answer>,
                   batch: seq<Question>, count: nat,
                   ask: Oracle,
                   quiz': seq<Question>, requests': seq<Prompt>, answers': seq<Answer>, answer: Answer)
    requires Progress(quiz, requests, answers, batch, count, ask)
    requires |quiz| < count && |requests| <= MaxSupplementalRounds
    requires requests' == requests + [Prompt(count - |quiz|, Some(QuestionTexts(quiz)))]
    requires answers' == answers + [answer] && answers' == Answers(ask, requests')
    requires quiz' == RoundStep(quiz, answer, count)
    requires !Throws(answer)
    ensures Progress(quiz', requests', answers', batch, count, ask)
    ensures answer.Unreadable? ==> RoundsResult(quiz', requests', answers', count)
  {
    var prompt := requests'[|requests|];
    KeptExtend(quiz, requests, answers, batch, count, prompt, answer);
    if answer.Parsed? {
      AppendKeeps(quiz, NormalizeItems(answer.reply.quiz), count, quiz', requests', answers', batch);
    }
    ProgressStep(quiz, requests, answers, batch, count, ask, quiz', requests', answers');
    if answer.Unreadable? {
      RoundsStopped(quiz', requests', answers', batch, count, ask);
    }
  }

  /** A supplemental prompt for the missing questions and its answer keep
      `Kept` for the quiz as it was. */
  lemma KeptExtend(quiz: seq<Question>, requests: seq<Prompt>, answers: seq<Answer>,
                   batch: seq<Question>, count: nat, pr: Prompt, a: Answer)
    requires Kept(quiz, requests, answers, batch, count) && |requests| >= 1
    requires |quiz| < count && pr == Prompt(count - |quiz|, Some(QuestionTexts(quiz)))
    ensures Kept(quiz, requests + [pr], answers + [a], batch, count)
  {
    RoundsExtend(requests, pr, quiz, count);
    FromRepliesExtend(quiz, answers, a);
  }

  /** A round that did not fail keeps `Progress`. */
  lemma ProgressStep(quiz: seq<Question>, requests: seq<Prompt>, answers: seq<Answer>,
                     batch: seq<Question>, count: nat,
                     ask: Oracle,
                     quiz': seq<Question>, requests': seq<Prompt>, answers': seq<Answer>)
    requires Progress(quiz, requests, answers, batch, count, ask)
    requires |quiz| < count && |requests| <= MaxSupplementalRounds
    requires |requests'| == |requests| + 1 && requests' == requests + [requests'[|requests|]]
    requires answers' == Answers(ask, requests') && |answers'| == |answers| + 1
    requires answers'[..|answers|] == answers
    requires Kept(quiz', requests', answers', batch, count)
    requires quiz' == RoundStep(quiz, answers'[|answers|], count)
    ensures Progress(quiz', requests', answers', batch, count, ask)
  {
    assert answers'[0] == answers[0];
    assert answers' == answers + [answers'[|answers|]];
    BuiltSnoc(batch, answers, answers'[|answers|], count);
  }

  /** A further answer adds one more `RoundStep`. */
  lemma BuiltSnoc(batch: seq<Question>, answers: seq<Answer>, a: Answer, count: nat)
    requires |answers| >= 1
    ensures Built(batch, (answers + [a])[1..], count) == RoundStep(Built(batch, answers[1..], count), a, count)
  {
    assert (answers + [a])[1..] == answers[1..] + [a];
    BuiltAppend(batch, answers[1..], a, count);
  }

  lemma {:induction false} BuiltAppend(quiz: seq<Question>, later: seq<Answer>, a: Answer, count: nat)
    ensures Built(quiz, later + [a], count) == RoundStep(Built(quiz, later, count), a, count)
    decreases |later|
  {
    if later == [] {
      assert ([] + [a])[1..] == [];
    } else {
      assert (later + [a])[1..] == later[1..] + [a];
      BuiltAppend(RoundStep(quiz, later[0], count), later[1..], a, count);
    }
  }

  /** The dedup loop over the items of the last answer keeps `Kept`. */
  lemma AppendKeeps(quiz: seq<Question>, more: seq<Question>, count: nat, r: seq<Question>,
                    requests: seq<Prompt>, answers: seq<Answer>, batch: seq<Question>)
    requires Kept(quiz, requests, answers, batch, count)
    requires |quiz| < count && |answers| > 0
    requires more == AnswerItems(answers[|answers| - 1]) && OptionsBounded(more)
    requires r == quiz + SliceTo(FreshItems(more, QuestionSet(quiz)), count - |quiz|)
    ensures Kept(r, requests, answers, batch, count)
  {
    AppendKeepsOptions(quiz, more, count, r);
    AppendKeepsFresh(quiz, more, count, r, |batch|);
    RoundsGrow(requests, quiz, r, count);
    FromRepliesAppend(quiz, more, r, count, answers);
  }

  /** Where the rounds stop: the quiz is full, the rounds are used up, or a
      supplemental reply was unreadable with the quiz as its prompt listed. */
  lemma RoundsStopped(quiz: seq<Question>, requests: seq<Prompt>, answers: seq<Answer>,
                      batch: seq<Question>, count: nat,
                      ask: Oracle)
    requires Progress(quiz, requests, answers, batch, count, ask)
    requires var last := |requests| - 1;
      || |quiz| >= count
      || last == MaxSupplementalRounds
      || (last > 0 && answers[last].Unreadable? && requests[last].previous.value == QuestionTexts(quiz))
    ensures RoundsResult(quiz, requests, answers, count)
  {
  }

  // ------------------------------------------ steps of the main proof

  lemma FromFirstReply(quiz: seq<Question>, answers: seq<Answer>, count: nat)
    requires |answers| == 1 && answers[0].Parsed?
    requires quiz == SliceTo(NormalizeItems(answers[0].reply.quiz), count)
    ensures FromReplies(quiz, answers)
  {
    assert answers[..0] == [];
    assert Pool(answers) == NormalizeItems(answers[0].reply.quiz);
    forall k | 0 <= k < |quiz| ensures quiz[k] in Pool(answers) {
      assert quiz[k] == NormalizeItems(answers[0].reply.quiz)[k];
    }
  }

  lemma FromRepliesExtend(quiz: seq<Question>, answers: seq<Answer>, a: Answer)
    requires FromReplies(quiz, answers)
    ensures FromReplies(quiz, answers + [a])
  {
    assert (answers + [a])[..|answers|] == answers;
    assert Pool(answers + [a]) == Pool(answers) + AnswerItems(a);
  }

  lemma FromRepliesAppend(quiz: seq<Question>, more: seq<Question>, r: seq<Question>, count: nat,
                          answers: seq<Answer>)
    requires |answers| > 0
    requires FromReplies(quiz, answers)
    requires more == AnswerItems(answers[|answers| - 1])
    requires |quiz| < count
    requires r == quiz + SliceTo(FreshItems(more, QuestionSet(quiz)), count - |quiz|)
    ensures FromReplies(r, answers)
  {
    var f := FreshItems(more, QuestionSet(quiz));
    FreshItemsSound(more, QuestionSet(quiz));
    var n := |answers| - 1;
    assert Pool(answers) == Pool(answers[..n]) + more;
    forall k | 0 <= k < |r| ensures r[k] in Pool(answers) {
      if k >= |quiz| {
        assert r[k] == f[k - |quiz|];
      }
    }
  }

  lemma RoundsExtend(requests: seq<Prompt>, pr: Prompt, quiz: seq<Question>, count: nat)
    requires |requests| >= 1 && RoundsConsistent(requests, quiz, count)
    requires |quiz| < count && pr == Prompt(count - |quiz|, Some(QuestionTexts(quiz)))
    ensures RoundsConsistent(requests + [pr], quiz, count)
  {
    var rs := requests + [pr];
    forall i | 1 <= i < |rs|
      ensures rs[i].previous.Some? && rs[i].previous.value <= QuestionTexts(quiz)
      ensures rs[i].qCount == count - |rs[i].previous.value| && rs[i].qCount > 0
    {
      if i < |requests| {
        assert rs[i] == requests[i];
      }
    }
  }

  lemma RoundsGrow(requests: seq<Prompt>, quiz: seq<Question>, r: seq<Question>, count: nat)
    requires RoundsConsistent(requests, quiz, count) && quiz <= r
    ensures RoundsConsistent(requests, r, count)
  {
    QuestionTextsAppend(quiz, r[|quiz|..]);
    assert quiz + r[|quiz|..] == r;
  }

  lemma AppendKeepsOptions(quiz: seq<Question>, more: seq<Question>, count: nat, r: seq<Question>)
    requires |quiz| < count
    requires OptionsBounded(quiz) && OptionsBounded(more)
    requires r == quiz + SliceTo(FreshItems(more, QuestionSet(quiz)), count - |quiz|)
    ensures quiz <= r && |r| <= count
    ensures OptionsBounded(r)
  {
    var f := FreshItems(more, QuestionSet(quiz));
    FreshItemsSound(more, QuestionSet(quiz));
    forall k | 0 <= k < |r| ensures |r[k].options| <= MaxOptions {
      if k >= |quiz| {
        assert r[k] == f[k - |quiz|];
        assert f[k - |quiz|] in more;
      }
    }
  }

  lemma AppendKeepsFresh(quiz: seq<Question>, more: seq<Question>, count: nat,
                         r: seq<Question>, from: nat)
    requires |quiz| < count && from <= |quiz|
    requires LaterItemsFresh(quiz, from)
    requires r == quiz + SliceTo(FreshItems(more, QuestionSet(quiz)), count - |quiz|)
    ensures LaterItemsFresh(r, from)
  {
    var f := FreshItems(more, QuestionSet(quiz));
    FreshItemsSound(more, QuestionSet(quiz));
    var g := SliceTo(f, count - |quiz|);
    forall k | from <= k < |r|
      ensures r[k].question != "" && r[k].question !in QuestionSet(r[..k])
    {
      if k < |quiz| {
        assert r[..k] == quiz[..k];
        assert r[k] == quiz[k];
      } else {
        var j := k - |quiz|;
        assert g[j] == f[j] && g[..j] == f[..j];
        FreshAfter(quiz, g, j);
      }
    }
  }

  /** A fresh item appended after `quiz` asks nothing asked before it. */
  lemma FreshAfter(quiz: seq<Question>, g: seq<Question>, j: nat)
    requires j < |g| && g[j].question != ""
    requires g[j].question !in QuestionSet(quiz) && g[j].question !in QuestionSet(g[..j])
    ensures var r := quiz + g;
      r[|quiz| + j].question != "" && r[|quiz| + j].question !in QuestionSet(r[..|quiz| + j])
  {
    var r := quiz + g;
    assert r[|quiz| + j] == g[j];
    assert r[..|quiz| + j] == quiz + g[..j];
    QuestionSetAppend(quiz, g[..j]);
  }
}
