/** The in-memory development server the application runs: a global list of
    cards and a dictionary of study sessions keyed by session id, changed in
    place by the request handlers. Each handler is a method that returns its
    result or the error it would report. */
module SimpleServer {
  import opened Base
  import opened Tables
  import opened StudySessions

  /** A card of the server: texts and tags as given, with no validation. */
  datatype ServerCard = ServerCard(
    id: Id,
    front: string,
    back: string,
    tags: seq<string>,
    createdAt: Timestamp,
    updatedAt: Timestamp)

  function ServerCardId(c: ServerCard): Id { c.id }

  /** A session dictionary entry; `completedAt` is absent until completion. */
  datatype SessionEntry = SessionEntry(
    sessionId: Id,
    flashcardIds: seq<Id>,
    currentIndex: nat,
    responses: seq<StudyResponse>,
    startedAt: Timestamp,
    completedAt: Option<Timestamp>)

  datatype ServerError =
    | FlashcardNotFound
    | NoFlashcards
    | SessionNotFound
    | SessionComplete
    | CurrentFlashcardNotFound

  /** What the start and progress handlers report about a session. */
  datatype SessionView = SessionView(
    sessionId: Id,
    totalCards: nat,
    currentIndex: nat,
    isComplete: bool,
    progress: StudyProgress)

  /** The entry invariant: one response per passed card, each tagged with
      that card's id, and the position never beyond the end. */
  predicate EntryInStep(e: SessionEntry) {
    && |e.responses| == e.currentIndex <= |e.flashcardIds|
    && forall k :: 0 <= k < |e.responses| ==> e.responses[k].flashcardId == e.flashcardIds[k]
  }

  /** The view of the session filed under `sessionId`: its counts and
      progress derived from the entry. */
  function ViewOf(sessionId: Id, e: SessionEntry): (v: SessionView)
    ensures v.sessionId == sessionId
    ensures v.totalCards == |e.flashcardIds| && v.currentIndex == e.currentIndex
    ensures v.isComplete <==> e.currentIndex >= |e.flashcardIds|
    ensures v.progress == ProgressOf(e.flashcardIds, e.currentIndex, e.responses)
    ensures v.progress.correctResponses + v.progress.incorrectResponses == |e.responses|
    ensures v.progress.currentCard == e.currentIndex + 1
    ensures EntryInStep(e) ==> (v.isComplete <==> v.progress.cardsCompleted == v.totalCards)
  {
    SessionView(sessionId, |e.flashcardIds|, e.currentIndex, e.currentIndex >= |e.flashcardIds|,
                ProgressOf(e.flashcardIds, e.currentIndex, e.responses))
  }

  /** One answer to the current card: refused once the session is complete;
      otherwise a response tagged with the current card id is appended and
      the position advances by one. */
  function RespondEntry(e: SessionEntry, isCorrect: bool, responseTimeSeconds: real, now: Timestamp)
    : (r: Result<SessionEntry, ServerError>)
    ensures r.Err? <==> e.currentIndex >= |e.flashcardIds|
    ensures r.Err? ==> r.error == SessionComplete
    ensures r.Ok? ==> && |r.value.responses| == |e.responses| + 1
                      && r.value.responses[..|e.responses|] == e.responses
                      && r.value.responses[|e.responses|]
                         == StudyResponse(e.flashcardIds[e.currentIndex], isCorrect, responseTimeSeconds, now)
    ensures r.Ok? ==> r.value == e.(responses := r.value.responses, currentIndex := e.currentIndex + 1)
    ensures r.Ok? && EntryInStep(e) ==> EntryInStep(r.value)
  {
    if e.currentIndex >= |e.flashcardIds| then Err(SessionComplete)
    else
      var response := StudyResponse(e.flashcardIds[e.currentIndex], isCorrect, responseTimeSeconds, now);
      Ok(e.(responses := e.responses + [response], currentIndex := e.currentIndex + 1))
  }

  /** The body of one respond request. */
  datatype Answer = Answer(isCorrect: bool, responseTimeSeconds: real, timestamp: Timestamp)

  /** A run of respond requests on one entry, stopping at the first refusal. */
  function RespondEntries(e: SessionEntry, answers: seq<Answer>): Result<SessionEntry, ServerError>
    decreases answers
  {
    if answers == [] then Ok(e)
    else
      match RespondEntry(e, answers[0].isCorrect, answers[0].responseTimeSeconds, answers[0].timestamp)
      case Err(x) => Err(x)
      case Ok(next) => RespondEntries(next, answers[1..])
  }

  /** From an entry in step, a run of answers succeeds exactly when it fits in
      the cards left; it then keeps the entry in step, advances the position
      by the number of answers and tags the new responses with the next cards. */
  lemma {:induction false} RespondEntriesInStep(e: SessionEntry, answers: seq<Answer>)
    requires EntryInStep(e)
    ensures RespondEntries(e, answers).Ok? <==> |answers| <= |e.flashcardIds| - e.currentIndex
    ensures RespondEntries(e, answers).Err? ==> RespondEntries(e, answers).error == SessionComplete
    ensures RespondEntries(e, answers).Ok? ==>
      var f := RespondEntries(e, answers).value;
      && EntryInStep(f)
      && f.currentIndex == e.currentIndex + |answers|
      && f.flashcardIds == e.flashcardIds && f.sessionId == e.sessionId
      && f.responses[..|e.responses|] == e.responses
    decreases answers
  {
    if answers != [] {
      var a := answers[0];
      var step := RespondEntry(e, a.isCorrect, a.responseTimeSeconds, a.timestamp);
      if step.Ok? {
        RespondEntriesInStep(step.value, answers[1..]);
        var run := RespondEntries(e, answers);
        if run.Ok? {
          var f := run.value;
          assert f.responses[..|step.value.responses|] == step.value.responses;
          assert f.responses[..|e.responses|] == step.value.responses[..|e.responses|];
        }
      }
    }
  }

  /** The server state: the global card list and the session dictionary. */
  class Server {
    var flashcards: seq<ServerCard>
    var sessions: map<Id, SessionEntry>

    /** Every entry is filed under its own id and is in step. */
    ghost predicate Valid()
      reads this
    {
      forall sid :: sid in sessions ==> sessions[sid].sessionId == sid && EntryInStep(sessions[sid])
    }

    /** A server with no cards and no sessions. */
    constructor ()
      ensures flashcards == [] && sessions == map[]
      ensures Valid()
    {
      flashcards, sessions := [], map[];
    }

    /** Appends a card with the texts and tags as given, stamped `now`. */
    method CreateFlashcard(front: string, back: string, tags: seq<string>, newId: Id, now: Timestamp)
      returns (c: ServerCard)
      modifies this
      ensures c == ServerCard(newId, front, back, tags, now, now)
      ensures flashcards == old(flashcards) + [c]
      ensures sessions == old(sessions)
    {
      c := ServerCard(newId, front, back, tags, now, now);
      flashcards := flashcards + [c];
    }

    /** The first card with the id, or not found. */
    method GetFlashcard(flashcardId: Id) returns (r: Result<ServerCard, ServerError>)
      ensures r.Err? <==> Lookup(flashcards, ServerCardId, flashcardId).None?
      ensures r.Err? ==> r.error == FlashcardNotFound
      ensures r.Ok? ==> r.value == Lookup(flashcards, ServerCardId, flashcardId).value
    {
      var i := FindFirst(flashcards, ServerCardId, flashcardId);
      if i.None? {
        return Err(FlashcardNotFound);
      }
      return Ok(flashcards[i.value]);
    }

    /** Refused without cards; otherwise files a new entry over every card id,
        in list order, at the first card with no responses, and reports it. */
    method StartStudySession(sessionId: Id, now: Timestamp) returns (r: Result<SessionView, ServerError>)
      modifies this
      ensures old(flashcards) == [] ==> r == Err(NoFlashcards) && sessions == old(sessions)
      ensures old(flashcards) != [] ==>
        && sessions == old(sessions)[sessionId := SessionEntry(sessionId, KeysOf(old(flashcards), ServerCardId), 0, [], now, None)]
        && r == Ok(ViewOf(sessionId, sessions[sessionId]))
        && !r.value.isComplete
      ensures flashcards == old(flashcards)
      ensures old(Valid()) ==> Valid()
    {
      if flashcards == [] {
        return Err(NoFlashcards);
      }
      var entry := SessionEntry(sessionId, KeysOf(flashcards, ServerCardId), 0, [], now, None);
      sessions := sessions[sessionId := entry];
      var view := SessionView(sessionId, |flashcards|, 0, false,
                              StudyProgress(1, |flashcards|, 0, 0, 0, 0.0));
      assert view == ViewOf(sessionId, entry);
      return Ok(view);
    }

    /** Not found for an unknown session, complete past the last card;
        otherwise the first card with the current id, or not found. */
    method GetCurrentFlashcard(sessionId: Id) returns (r: Result<ServerCard, ServerError>)
      ensures sessionId !in sessions ==> r == Err(SessionNotFound)
      ensures sessionId in sessions ==>
        var e := sessions[sessionId];
        && (e.currentIndex >= |e.flashcardIds| ==> r == Err(SessionComplete))
        && (e.currentIndex < |e.flashcardIds| ==>
              var found := Lookup(flashcards, ServerCardId, e.flashcardIds[e.currentIndex]);
              && (found.None? ==> r == Err(CurrentFlashcardNotFound))
              && (found.Some? ==> r == Ok(found.value) && r.value.id == e.flashcardIds[e.currentIndex]))
    {
      if sessionId !in sessions {
        return Err(SessionNotFound);
      }
      var e := sessions[sessionId];
      if e.currentIndex >= |e.flashcardIds| {
        return Err(SessionComplete);
      }
      var current := e.flashcardIds[e.currentIndex];
      var i := FindFirst(flashcards, ServerCardId, current);
      if i.None? {
        return Err(CurrentFlashcardNotFound);
      }
      return Ok(flashcards[i.value]);
    }

    /** Not found for an unknown session and refused past the last card, with
        nothing changed; otherwise exactly that entry takes one response step,
        with a response time of one second unless given. No other entry and
        no card changes. */
    method SubmitResponse(sessionId: Id, isCorrect: bool, now: Timestamp, responseTimeSeconds: real := 1.0)
      returns (r: Outcome<ServerError>)
      modifies this
      ensures sessionId !in old(sessions) ==> r == Fail(SessionNotFound) && sessions == old(sessions)
      ensures sessionId in old(sessions) ==>
        var step := RespondEntry(old(sessions)[sessionId], isCorrect, responseTimeSeconds, now);
        && (step.Err? ==> r == Fail(step.error) && sessions == old(sessions))
        && (step.Ok? ==> r == Pass && sessions == old(sessions)[sessionId := step.value])
      ensures forall other :: other in old(sessions) && other != sessionId ==>
                other in sessions && sessions[other] == old(sessions)[other]
      ensures sessions.Keys == old(sessions.Keys)
      ensures flashcards == old(flashcards)
      ensures old(Valid()) ==> Valid()
    {
      if sessionId !in sessions {
        return Fail(SessionNotFound);
      }
      var step := RespondEntry(sessions[sessionId], isCorrect, responseTimeSeconds, now);
      if step.Err? {
        return Fail(step.error);
      }
      sessions := sessions[sessionId := step.value];
      return Pass;
    }

    /** Not found for an unknown session; otherwise its view. */
    method GetStudyProgress(sessionId: Id) returns (r: Result<SessionView, ServerError>)
      ensures sessionId !in sessions ==> r == Err(SessionNotFound)
      ensures sessionId in sessions ==> r == Ok(ViewOf(sessionId, sessions[sessionId]))
    {
      if sessionId !in sessions {
        return Err(SessionNotFound);
      }
      var e := sessions[sessionId];
      var view := SessionView(sessionId, |e.flashcardIds|, e.currentIndex, e.currentIndex >= |e.flashcardIds|,
                              ProgressOf(e.flashcardIds, e.currentIndex, e.responses));
      return Ok(view);
    }

    /** Not found for an unknown session; otherwise sets only the completion
        time of that entry (a second call overwrites it). */
    method CompleteStudySession(sessionId: Id, now: Timestamp) returns (r: Result<Id, ServerError>)
      modifies this
      ensures sessionId !in old(sessions) ==> r == Err(SessionNotFound) && sessions == old(sessions)
      ensures sessionId in old(sessions) ==>
        && r == Ok(sessionId)
        && sessions == old(sessions)[sessionId := old(sessions)[sessionId].(completedAt := Some(now))]
      ensures flashcards == old(flashcards)
      ensures old(Valid()) ==> Valid()
    {
      if sessionId !in sessions {
        return Err(SessionNotFound);
      }
      sessions := sessions[sessionId := sessions[sessionId].(completedAt := Some(now))];
      return Ok(sessionId);
    }
  }
}
