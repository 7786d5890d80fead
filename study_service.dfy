/** Study-session orchestration: starting a session over every stored card,
    resolving the current card against the store, and forwarding answers
    and navigation to the session object. */
module StudyServices {
  import opened Base
  import opened Tables
  import opened Flashcards
  import opened StudySessions
  import opened Storage

  datatype StudyError =
    | NoFlashcards                           // the store holds no cards
    | CurrentFlashcardNotFound(flashcardId: Id)
    | StoreFailure(cause: StorageError)

  class StudyService {
    const storage: FileStorage

    constructor (storage: FileStorage)
      ensures this.storage == storage
    {
      this.storage := storage;
    }

    /** A new session over every stored card, in store order; refused when
        the store is empty. */
    method CreateStudySession(sessionId: Id, now: Timestamp) returns (r: Result<StudySession, StudyError>)
      ensures var all := RebuildAll(storage.flashcards);
        && (all.Err? ==> r == Err(StoreFailure(all.error)))
        && (all.Ok? && storage.flashcards == [] ==> r == Err(NoFlashcards))
        && (all.Ok? && storage.flashcards != [] ==>
              && r.Ok? && fresh(r.value)
              && r.value.Snapshot() == SessionData(sessionId, KeysOf(storage.flashcards, CardId), 0, [], true, now, None)
              && InStep(r.value.Snapshot()))
    {
      var all := storage.GetAllFlashcards();
      if all.Err? {
        return Err(StoreFailure(all.error));
      }
      var flashcards := all.value;
      if flashcards == [] {
        return Err(NoFlashcards);
      }
      RebuildAllKeepsIds(storage.flashcards);
      var created := StudySession.CreateSession(flashcards, sessionId, now);
      assert created.Ok?;
      return Ok(created.value);
    }

    /** No card once the session is complete, without reading the store;
        otherwise the stored card with the current id, or an error when the
        store has none. */
    method GetCurrentFlashcard(session: StudySession) returns (r: Result<Option<Card>, StudyError>)
      ensures session.IsComplete() ==> r == Ok(None)
      ensures !session.IsComplete() ==>
        var current := session.flashcardIds[session.currentIndex];
        var found := RebuildFound(Lookup(storage.flashcards, CardId, current));
        && (found.Err? ==> r == Err(StoreFailure(found.error)))
        && (found == Ok(None) ==> r == Err(CurrentFlashcardNotFound(current)))
        && (found.Ok? && found.value.Some? ==> r == Ok(found.value) && r.value.value.id == current)
    {
      var current := session.CurrentFlashcardId();
      if current.None? {
        return Ok(None);
      }
      var found := storage.GetFlashcard(current.value);
      if found.Err? {
        return Err(StoreFailure(found.error));
      }
      if found.value.None? {
        return Err(CurrentFlashcardNotFound(current.value));
      }
      return Ok(found.value);
    }

    /** Exactly the refusals and effects of the session's own `AddResponse`. */
    method SubmitResponse(session: StudySession, response: StudyResponse)
      returns (r: Result<StudySession, SessionError>)
      modifies session
      ensures var step := Respond(old(session.Snapshot()), response);
        && (step.Err? ==> r == Err(step.error) && session.Snapshot() == old(session.Snapshot()))
        && (step.Ok? ==> r == Ok(session) && session.Snapshot() == step.value)
    {
      var o := session.AddResponse(response);
      if o.Fail? {
        return Err(o.error);
      }
      return Ok(session);
    }

    /** Marks the session finished; position and responses are kept. */
    method CompleteSession(session: StudySession, now: Timestamp) returns (r: StudySession)
      modifies session
      ensures r == session
      ensures session.Snapshot() == old(session.Snapshot()).(isActive := false, completedAt := Some(now))
    {
      session.CompleteSession(now);
      return session;
    }

    /** One card back; refused at the first card, with nothing changed. */
    method NavigateBack(session: StudySession) returns (r: Result<StudySession, SessionError>)
      modifies session
      ensures r.Err? <==> old(session.currentIndex) == 0
      ensures r.Err? ==> r.error == AtFirstCard && session.Snapshot() == old(session.Snapshot())
      ensures r.Ok? ==> r.value == session
                        && session.Snapshot() == old(session.Snapshot()).(currentIndex := old(session.currentIndex) - 1)
    {
      var o := session.GoBack();
      if o.Fail? {
        return Err(o.error);
      }
      return Ok(session);
    }

    /** One card forward, with no bound check: from the last card the
        session becomes complete, and a complete session stays complete. */
    method NavigateForward(session: StudySession) returns (r: StudySession)
      modifies session
      ensures r == session
      ensures session.Snapshot() == old(session.Snapshot()).(currentIndex := old(session.currentIndex) + 1)
      ensures old(session.currentIndex) + 1 == |session.flashcardIds| ==> session.IsComplete()
      ensures old(session.IsComplete()) ==> session.IsComplete()
      ensures old(session.currentIndex) + 1 < |session.flashcardIds| ==> !session.IsComplete()
    {
      session.AdvanceToNextCard();
      return session;
    }
  }
}
