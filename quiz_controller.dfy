/** The quiz endpoints of backend/src/controllers/quiz.controller.js over an
    abstract store: `quizzes` as a map from url to row (the url column is
    unique), a serial id counter, and the `quiz_attempts` table as an
    append-only list. A stored `full_quiz_data` is the payload value itself. */
module QuizController {
  import opened Wrappers
  import opened JsBuiltins
  import opened QuizData
  import opened Utils
  import opened Fallback
  import opened QuizGenerator

  const MinCount: int := 5
  const MaxCount: int := 50
  const DefaultCount: int := 10
  const MinArticleLength: nat := 200

  /** `Math.max(5, Math.min(50, parseInt(req.query.count ?? "10", 10)))`
      for an integer query value; `None` is an absent `count`. */
  function EffectiveCount(q: Option<int>): (c: nat)
    ensures MinCount <= c <= MaxCount
    ensures q.None? ==> c == DefaultCount
    ensures q.Some? && MinCount <= q.value <= MaxCount ==> c == q.value
    ensures q.Some? && q.value < MinCount ==> c == MinCount
    ensures q.Some? && q.value > MaxCount ==> c == MaxCount
  {
    var n := q.GetOr(DefaultCount);
    if n > MaxCount then MaxCount else if n < MinCount then MinCount else n
  }

  /** `(process.env.ENABLE_URL_CACHE ?? "true").toLowerCase() === "true"`;
      `None` is an unset variable. */
  function UseUrlCache(setting: Option<string>): bool {
    LowerAsciiString(setting.GetOr("true")) == "true"
  }

  /** The cache is on when the setting is unset or spells `true` in any
      mix of cases, and off for anything else. */
  lemma UseUrlCacheIff(setting: Option<string>)
    ensures UseUrlCache(setting) <==> setting.None? || SameIgnoringCase(setting.value, "true")
  {
    LowerAsciiStringEq(setting.GetOr("true"), "true");
  }

  /** Some settings and what they give. */
  lemma UseUrlCacheExamples()
    ensures UseUrlCache(None) && UseUrlCache(Some("TRUE")) && UseUrlCache(Some("True"))
    ensures !UseUrlCache(Some("false")) && !UseUrlCache(Some("1")) && !UseUrlCache(Some(""))
  {
    UseUrlCacheIff(Some("TRUE"));
    UseUrlCacheIff(Some("True"));
    UseUrlCacheIff(Some("false"));
    UseUrlCacheIff(Some("1"));
  }

  /** One `quizzes` row. */
  datatype Row = Row(id: nat, url: string, title: string, html: string, text: string, data: Payload)

  /** One `quiz_attempts` row; `None` is SQL null. */
  datatype Attempt = Attempt(
    id: nat,
    quizId: int,
    submittedAt: int,
    totalTime: Option<int>,
    totalQuestions: Option<int>,
    timeTaken: int,
    score: int,
    answers: map<nat, nat>)

  /** What `scrapeWikipedia(url)` resolves to, or its rejection with the
      `status` the rejected error carries (`None` when it has none). */
  datatype ScrapeResult =
    | Scraped(title: string, text: string, sections: seq<string>, html: string)
    | ScrapeFailed(status: Option<nat>)

  /** The status the error middleware answers with: `err.status || 500`. */
  function ErrorStatus(status: Option<nat>): (s: nat)
    ensures s > 0
    ensures status.Some? && status.value > 0 ==> s == status.value
    ensures status.None? || status.value == 0 ==> s == 500
  {
    if status.Some? && status.value != 0 then status.value else 500
  }

  /** The JSON body sent back, or the status the error middleware sends
      (`err.status || 500`). */
  datatype Response =
    | Quiz(id: nat, payload: Payload)
    | Saved(attemptId: nat)
    | Error(status: nat)

  /** Some row carries `id`. */
  ghost predicate HasQuiz(rows: map<string, Row>, id: int) {
    exists u :: u in rows && rows[u].id == id
  }

  /** The range of PostgreSQL's `INT` (four-byte integer), the type of the
      `quizzes.id` serial and of every integer column of `quiz_attempts`:
      a parameter outside it makes the statement fail. */
  predicate IsSqlInt(x: int) {
    -0x8000_0000 <= x <= 0x7FFF_FFFF
  }

  /** A nullable `INT` parameter: SQL null, or a value in range. */
  predicate FitsSqlInt(x: Option<int>) {
    x.None? || IsSqlInt(x.value)
  }

  /** The cache-hit test of the generate endpoint. */
  predicate CacheHit(useCache: bool, existing: Option<Row>, forceRefresh: bool, count: nat) {
    useCache && existing.Some? && !forceRefresh && |existing.value.data.quiz| >= count
  }

  /** The stored payload served on a cache hit: its quiz cut to exactly
      `count`, everything else as stored. */
  function CachedPayload(stored: Payload, count: nat): (p: Payload)
    requires |stored.quiz| >= count
    ensures |p.quiz| == count && p.quiz == stored.quiz[..count]
    ensures p.(quiz := stored.quiz) == stored
  {
    stored.(quiz := stored.quiz[..count])
  }

  /** `payload.quiz = (payload.quiz || []).slice(0, count)` and
      `payload.sections = payload.sections?.length ? payload.sections : sections`. */
  function FinalPayload(gen: Payload, count: nat, scraped: seq<string>): (p: Payload)
    ensures |p.quiz| == Min(count, |gen.quiz|) && p.quiz == gen.quiz[..|p.quiz|]
    ensures gen.sections != [] ==> p.sections == gen.sections
    ensures gen.sections == [] ==> p.sections == scraped
    ensures p.(quiz := gen.quiz, sections := gen.sections) == gen
  {
    gen.(quiz := SliceTo(gen.quiz, count),
         sections := if |gen.sections| > 0 then gen.sections else scraped)
  }

  /** Every effective count is at least five, so a fallback quiz is never
      cut: all five placeholders reach the caller. */
  lemma FallbackKeptWhole(countParam: Option<int>, url: string, title: string, sections: seq<string>)
    ensures FinalPayload(FallbackPayload(url, title, sections), EffectiveCount(countParam), sections).quiz
         == FallbackPayload(url, title, sections).quiz
  {
  }

  /** A stored fallback quiz (five items) serves a cache hit only for the
      smallest count. */
  lemma FallbackRowHitsOnlyAtFive(url: string, title: string, sections: seq<string>, row: Row,
                                  countParam: Option<int>, forceRefresh: bool)
    requires row.data == FallbackPayload(url, title, sections)
    ensures CacheHit(true, Some(row), forceRefresh, EffectiveCount(countParam)) <==>
      !forceRefresh && EffectiveCount(countParam) == 5
  {
  }

  lemma HasQuizKept(rows: map<string, Row>, rows': map<string, Row>)
    requires forall u :: u in rows ==> u in rows' && rows'[u].id == rows[u].id
    ensures forall id :: HasQuiz(rows, id) ==> HasQuiz(rows', id)
  {
    forall id | HasQuiz(rows, id) ensures HasQuiz(rows', id) {
      var u :| u in rows && rows[u].id == id;
      assert u in rows' && rows'[u].id == id;
    }
  }

  /** Each row sits under its own url with an id from 1 to below `next`,
      and no two rows share an id. */
  predicate RowsValid(rows: map<string, Row>, next: nat) {
    && (forall u :: u in rows ==> rows[u].url == u && 1 <= rows[u].id < next)
    && (forall u, v :: u in rows && v in rows && u != v ==> rows[u].id != rows[v].id)
  }

  /** Storing a row under its url, with the id of the row it replaces or a
      fresh one, keeps the rows valid and the other rows' ids. */
  lemma PutRow(rows: map<string, Row>, next: nat, url: string, r: Row, next': nat)
    requires RowsValid(rows, next) && next <= next'
    requires r.url == url && 1 <= r.id < next'
    requires url in rows ==> r.id == rows[url].id
    requires url !in rows ==> r.id >= next
    ensures RowsValid(rows[url := r], next')
    ensures forall u :: u in rows ==> u in rows[url := r] && rows[url := r][u].id == rows[u].id
  {
    var rows' := rows[url := r];
    forall u, v | u in rows' && v in rows' && u != v ensures rows'[u].id != rows'[v].id {
      if u != url && v != url {
        assert rows'[u] == rows[u] && rows'[v] == rows[v];
      }
    }
  }

  class QuizStore {
    var rows: map<string, Row>
    var nextQuizId: nat
    var attempts: seq<Attempt>
    var nextAttemptId: nat

    /** Each row sits under its own url with an id below the counter, ids
        are distinct, and every attempt names an existing quiz and has an
        id below the attempt counter, in increasing order. */
    ghost predicate Valid()
      reads this
    {
      && nextQuizId >= 1 && nextAttemptId >= 1
      && RowsValid(rows, nextQuizId)
      && (forall i :: 0 <= i < |attempts| ==> HasQuiz(rows, attempts[i].quizId))
      && (forall i :: 0 <= i < |attempts| ==> 1 <= attempts[i].id < nextAttemptId)
      && (forall i, j :: 0 <= i < j < |attempts| ==> attempts[i].id < attempts[j].id)
    }

    constructor ()
      ensures Valid()
      ensures rows == map[] && attempts == []
    {
      rows := map[];
      nextQuizId := 1;
      attempts := [];
      nextAttemptId := 1;
    }

    /** The save step of the generate handler: update the row seen by the
        earlier lookup and keep its id; otherwise insert a new row, and when
        the insert hits the unique url (a row added since the lookup) look
        that row up and update it instead. Every insert attempt draws one
        value from the id sequence, the failed one included. */
    method Upsert(existingId: Option<nat>, url: string, title: string, html: string, text: string,
                  payload: Payload)
      returns (id: nat)
      requires Valid()
      requires existingId.Some? ==> url in rows && rows[url].id == existingId.value
      modifies this
      ensures Valid()
      ensures rows == old(rows)[url := Row(id, url, title, html, text, payload)]
      ensures url in old(rows) ==> id == old(rows[url].id)
      ensures url !in old(rows) ==> id == old(nextQuizId)
      ensures nextQuizId == old(nextQuizId) + (if existingId.None? then 1 else 0)
      ensures attempts == old(attempts) && nextAttemptId == old(nextAttemptId)
    {
      if existingId.None? && url !in rows {
        id := nextQuizId;
        PutRow(rows, nextQuizId, url, Row(id, url, title, html, text, payload), nextQuizId + 1);
        rows := rows[url := Row(id, url, title, html, text, payload)];
        nextQuizId := nextQuizId + 1;
      } else {
        id := if existingId.Some? then existingId.value else rows[url].id;
        var next := if existingId.None? then nextQuizId + 1 else nextQuizId;
        PutRow(rows, nextQuizId, url, Row(id, url, title, html, text, payload), next);
        rows := rows[url := Row(id, url, title, html, text, payload)];
        nextQuizId := next;
      }
      HasQuizKept(old(rows), rows);
    }

    /** `POST /generate_quiz`. `parsedUrl` is `new URL(String(url))`,
        `cacheSetting` is `ENABLE_URL_CACHE`, `scrape` is what the scraper
        gives for `url`, and `hasKey`, `model` and `parse` are the
        generator's configuration and oracles; the ghost `ask` names what
        each model call answers once `extractJson` has read it. The ghost
        results are the generator's payload and calls when generation runs. */
    method GenerateQuiz(url: string, parsedUrl: Option<ParsedUrl>, forceRefresh: bool,
                        countParam: Option<int>, cacheSetting: Option<string>,
                        scrape: ScrapeResult,
                        hasKey: bool, model: Model, parse: string -> Option<ParsedReply>, ghost ask: Oracle)
      returns (resp: Response, ghost gen: Payload, ghost requests: seq<Prompt>,
               ghost answers: seq<Answer>, ghost fellBack: bool)
      requires Valid()
      requires Answering(ask, model, parse)
      modifies this
      ensures Valid()
      ensures !IsWikipediaUrl(parsedUrl) ==>
        resp == Error(400) && rows == old(rows) && nextQuizId == old(nextQuizId)
      ensures IsWikipediaUrl(parsedUrl) &&
              CacheHit(UseUrlCache(cacheSetting), if url in old(rows) then Some(old(rows)[url]) else None,
                       forceRefresh, EffectiveCount(countParam)) ==>
        && url in old(rows)
        && resp == Quiz(old(rows)[url].id, CachedPayload(old(rows)[url].data, EffectiveCount(countParam)))
        && rows == old(rows) && nextQuizId == old(nextQuizId)
      ensures resp.Error? ==> rows == old(rows) && nextQuizId == old(nextQuizId)
      ensures resp.Error? <==>
        !IsWikipediaUrl(parsedUrl) ||
        (!CacheHit(UseUrlCache(cacheSetting), if url in old(rows) then Some(old(rows)[url]) else None,
                   forceRefresh, EffectiveCount(countParam)) &&
         (scrape.ScrapeFailed? || |scrape.text| < MinArticleLength))
      ensures resp.Error? ==> resp.status == (if IsWikipediaUrl(parsedUrl) && scrape.Scraped? then 422
                                             else if IsWikipediaUrl(parsedUrl) then ErrorStatus(scrape.status)
                                             else 400)
      ensures resp.Error? || CacheHit(UseUrlCache(cacheSetting), if url in old(rows) then Some(old(rows)[url]) else None,
                                      forceRefresh, EffectiveCount(countParam)) ==>
        requests == [] && answers == [] && fellBack
      ensures resp.Quiz? ==> |resp.payload.quiz| <= EffectiveCount(countParam)
      ensures resp.Quiz? && !CacheHit(UseUrlCache(cacheSetting), if url in old(rows) then Some(old(rows)[url]) else None,
                                      forceRefresh, EffectiveCount(countParam)) ==>
        && scrape.Scraped?
        && gen.url == url && gen.title == scrape.title
        && answers == Answers(ask, requests)
        && (!hasKey ==> fellBack && requests == [])
        && (fellBack ==> gen == FallbackPayload(url, scrape.title, scrape.sections))
        && (!fellBack ==>
              && hasKey && 1 <= |requests| == |answers| && answers[0].Parsed?
              && Generated(gen, requests, answers, scrape.sections, EffectiveCount(countParam)))
        && resp.payload == FinalPayload(gen, EffectiveCount(countParam), scrape.sections)
        && rows == old(rows)[url := Row(resp.id, url, scrape.title, scrape.html, scrape.text, resp.payload)]
        && (url in old(rows) ==> resp.id == old(rows)[url].id)
        && (url !in old(rows) ==> resp.id == old(nextQuizId))
      ensures attempts == old(attempts) && nextAttemptId == old(nextAttemptId)
    {
      gen, requests, answers, fellBack := FallbackPayload(url, "", []), [], [], true;
      var count := EffectiveCount(countParam);
      if !IsWikipediaUrl(parsedUrl) {
        return Error(400), gen, requests, answers, fellBack;
      }
      var useCache := UseUrlCache(cacheSetting);
      var existing := if url in rows then Some(rows[url]) else None;
      if CacheHit(useCache, existing, forceRefresh, count) {
        var row := existing.value;
        return Quiz(row.id, CachedPayload(row.data, count)), gen, requests, answers, fellBack;
      }
      if scrape.ScrapeFailed? {
        return Error(ErrorStatus(scrape.status)), gen, requests, answers, fellBack;
      }
      if |scrape.text| < MinArticleLength {
        return Error(422), gen, requests, answers, fellBack;
      }
      var generated;
      generated, requests, answers, fellBack :=
        GenerateQuizPayload(hasKey, url, scrape.title, scrape.text, scrape.sections, count, model, parse, ask);
      gen := generated;
      var payload := FinalPayload(generated, count, scrape.sections);
      var id := Upsert(if existing.Some? then Some(existing.value.id) else None,
                       url, scrape.title, scrape.html, scrape.text, payload);
      resp := Quiz(id, payload);
    }

    /** `GET /quiz/:quiz_id`: the stored payload with the row's id, or 404.
        `quizId` is `Number(req.params.quiz_id)` when that is an integer;
        `None` (NaN, a fraction) and an integer outside the `INT` range
        make the query fail, which answers 500. */
    method GetQuiz(quizId: Option<int>) returns (resp: Response)
      requires Valid()
      ensures quizId.None? || !IsSqlInt(quizId.value) ==> resp == Error(500)
      ensures quizId.Some? && IsSqlInt(quizId.value) ==> (resp.Quiz? <==> HasQuiz(rows, quizId.value))
      ensures quizId.Some? && IsSqlInt(quizId.value) && !resp.Quiz? ==> resp == Error(404)
      ensures resp.Quiz? ==>
        && quizId.Some? && resp.id == quizId.value
        && forall u :: u in rows && rows[u].id == quizId.value ==> rows[u].data == resp.payload
    {
      if quizId.None? || !IsSqlInt(quizId.value) {
        resp := Error(500);
      } else if u :| u in rows && rows[u].id == quizId.value {
        resp := Quiz(rows[u].id, rows[u].data);
      } else {
        resp := Error(404);
      }
    }

    /** `POST /submit_attempt/:quiz_id`: 404 for an unknown quiz, otherwise
        exactly one new attempt, with the answers defaulting to the empty
        map and the score and time taken to 0. `now` is the database clock;
        `quizId` is as for `GetQuiz`: `None` or an id outside the `INT`
        range fails the lookup (500). A score, time or total outside that
        range fails the insert (500), after the lookup. */
    method SubmitAttempt(quizId: Option<int>, answers: Option<map<nat, nat>>, score: Option<int>,
                         timeTaken: Option<int>, totalTime: Option<int>, totalQuestions: Option<int>,
                         now: int)
      returns (resp: Response)
      requires Valid()
      modifies this
      ensures Valid()
      ensures rows == old(rows) && nextQuizId == old(nextQuizId)
      ensures quizId.None? || !IsSqlInt(quizId.value) ==>
        resp == Error(500) && attempts == old(attempts) && nextAttemptId == old(nextAttemptId)
      ensures quizId.Some? && IsSqlInt(quizId.value) && !HasQuiz(rows, quizId.value) ==>
        resp == Error(404) && attempts == old(attempts) && nextAttemptId == old(nextAttemptId)
      ensures quizId.Some? && IsSqlInt(quizId.value) && HasQuiz(rows, quizId.value) &&
              !(IsSqlInt(score.GetOr(0)) && IsSqlInt(timeTaken.GetOr(0)) &&
                FitsSqlInt(totalTime) && FitsSqlInt(totalQuestions)) ==>
        resp == Error(500) && attempts == old(attempts) && nextAttemptId == old(nextAttemptId)
      ensures quizId.Some? && IsSqlInt(quizId.value) && HasQuiz(rows, quizId.value) &&
              IsSqlInt(score.GetOr(0)) && IsSqlInt(timeTaken.GetOr(0)) &&
              FitsSqlInt(totalTime) && FitsSqlInt(totalQuestions) ==>
        && resp == Saved(old(nextAttemptId))
        && attempts == old(attempts) + [Attempt(old(nextAttemptId), quizId.value, now, totalTime, totalQuestions,
                                                timeTaken.GetOr(0), score.GetOr(0), answers.GetOr(map[]))]
        && nextAttemptId == old(nextAttemptId) + 1
    {
      if quizId.None? || !IsSqlInt(quizId.value) {
        resp := Error(500);
      } else if u :| u in rows && rows[u].id == quizId.value {
        var sc, taken := score.GetOr(0), timeTaken.GetOr(0);
        if !(IsSqlInt(sc) && IsSqlInt(taken) && FitsSqlInt(totalTime) && FitsSqlInt(totalQuestions)) {
          resp := Error(500);
          return;
        }
        var a := Attempt(nextAttemptId, quizId.value, now, totalTime, totalQuestions,
                         taken, sc, answers.GetOr(map[]));
        attempts := attempts + [a];
        resp := Saved(nextAttemptId);
        nextAttemptId := nextAttemptId + 1;
      } else {
        resp := Error(404);
      }
    }
  }
}
