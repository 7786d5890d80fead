/** The record store: two tables, flashcards and study sessions, each an
    ordered list of records (the JSON files, held here as sequences). Every
    operation loads the list, searches or changes it, and writes it back. */
module Storage {
  import opened Base
  import opened Text
  import opened Tables
  import opened Flashcards
  import opened StudySessions

  datatype StorageError =
    | FlashcardNotFound(flashcardId: Id)
    | SessionNotFound(sessionId: Id)
    | InvalidRecord(cause: CardError)        // a stored flashcard that construction refuses
    | InvalidResponse(reason: ResponseError) // a stored response that construction refuses

  /** The key the session table is searched by. */
  function SessionKey(s: SessionData): Id { s.sessionId }

  function StartedAt(s: SessionData): int { s.startedAt }

  /** A looked-up record read back through flashcard construction. */
  function RebuildFound(found: Option<Card>): (r: Result<Option<Card>, StorageError>)
    ensures found.None? ==> r == Ok(None)
    ensures found.Some? && WellFormed(found.value) ==> r == Ok(found)
    ensures r.Ok? && r.value.Some? ==> WellFormed(r.value.value)
    ensures r.Ok? && r.value.Some? ==> found.Some? && r.value.value.id == found.value.id
    ensures r == Ok(None) <==> found.None?
    ensures found.Some? ==> (r.Ok? <==> Rebuild(found.value).Ok?)
    ensures found.Some? && r.Ok? ==> r.value.value == Rebuild(found.value).value
    ensures found.Some? && r.Err? ==> r.error == InvalidRecord(Rebuild(found.value).error)
  {
    match found
    case None => Ok(None)
    case Some(c) =>
      RebuildWellFormed(c);
      match Rebuild(c)
      case Err(e) => Err(InvalidRecord(e))
      case Ok(card) => Ok(Some(card))
  }

  /** `[Flashcard(**d) for d in data]`: every record read back, failing at
      the first one construction refuses. */
  function RebuildAll(s: seq<Card>): (r: Result<seq<Card>, StorageError>)
    ensures r.Ok? <==> forall i :: 0 <= i < |s| ==> Rebuild(s[i]).Ok?
    ensures r.Ok? ==> |r.value| == |s| && forall i :: 0 <= i < |s| ==> r.value[i] == Rebuild(s[i]).value
    ensures r.Err? ==> exists i :: 0 <= i < |s| && Rebuild(s[i]).Err? && r.error == InvalidRecord(Rebuild(s[i]).error)
                                   && forall j :: 0 <= j < i ==> Rebuild(s[j]).Ok?
  {
    match Traverse(s, Rebuild)
    case Err(e) => Err(InvalidRecord(e))
    case Ok(cards) => Ok(cards)
  }

  /** A table of well-formed records reads back unchanged. */
  lemma RebuildAllWellFormed(s: seq<Card>)
    requires forall i :: 0 <= i < |s| ==> WellFormed(s[i])
    ensures RebuildAll(s) == Ok(s)
  {
    forall i | 0 <= i < |s|
      ensures Rebuild(s[i]) == Ok(s[i])
    {
      RebuildWellFormed(s[i]);
    }
    TraverseIdentity(s, Rebuild);
  }

  /** Reading the table back keeps every record's id, in table order. */
  lemma RebuildAllKeepsIds(s: seq<Card>)
    requires RebuildAll(s).Ok?
    ensures KeysOf(RebuildAll(s).value, CardId) == KeysOf(s, CardId)
  {
    var cards := RebuildAll(s).value;
    forall i | 0 <= i < |s|
      ensures CardId(cards[i]) == CardId(s[i])
    {
      assert Rebuild(s[i]).Ok?;
    }
  }

  /** A stored response read back through `StudyResponse` construction. */
  function RebuildResponse(x: StudyResponse): (r: Result<StudyResponse, ResponseError>)
    ensures r.Ok? <==> ValidResponse(x)
    ensures r.Ok? ==> r.value == x
    ensures IsBlank(x.flashcardId) ==> r == Err(EmptyFlashcardId)
    ensures !IsBlank(x.flashcardId) && x.responseTimeSeconds <= 0.0 ==> r == Err(NonPositiveResponseTime)
  {
    NewResponse(x.flashcardId, x.isCorrect, x.responseTimeSeconds, x.timestamp)
  }

  /** `StudySession(**d)`: the session model declares no validators of its
      own, but every nested response is rebuilt. The read succeeds exactly
      when each response is valid, and then gives the record unchanged;
      otherwise it fails with the error of a refused response. */
  function RebuildSession(s: SessionData): (r: Result<SessionData, StorageError>)
    ensures r.Ok? <==> forall i :: 0 <= i < |s.responses| ==> ValidResponse(s.responses[i])
    ensures r.Ok? ==> r.value == s
    ensures r.Err? ==> exists i :: 0 <= i < |s.responses| && !ValidResponse(s.responses[i])
                                   && r == Err(InvalidResponse(RebuildResponse(s.responses[i]).error))
  {
    match Traverse(s.responses, RebuildResponse)
    case Err(e) => Err(InvalidResponse(e))
    case Ok(rs) =>
      assert forall i :: 0 <= i < |rs| ==> rs[i] == s.responses[i];
      Ok(s.(responses := rs))
  }

  /** `[StudySession(**d) for d in data]`: every session record read back,
      failing at the first one with a refused response. */
  function RebuildSessions(s: seq<SessionData>): (r: Result<seq<SessionData>, StorageError>)
    ensures r.Ok? <==> forall i :: 0 <= i < |s| ==> RebuildSession(s[i]).Ok?
    ensures r.Ok? ==> r.value == s
  {
    match Traverse(s, RebuildSession)
    case Err(e) => Err(e)
    case Ok(rs) =>
      assert forall i :: 0 <= i < |rs| ==> rs[i] == s[i];
      Ok(rs)
  }

  /** A session the application builds reads back unchanged: it starts with
      no responses, and each response it records was validated when it was
      constructed, so any run of accepted responses keeps it readable. */
  lemma {:induction false} RespondAllReadsBack(d: SessionData, rs: seq<StudyResponse>)
    requires RebuildSession(d).Ok?
    requires forall k :: 0 <= k < |rs| ==> ValidResponse(rs[k])
    requires RespondAll(d, rs).Ok?
    ensures RebuildSession(RespondAll(d, rs).value) == Ok(RespondAll(d, rs).value)
    decreases rs
  {
    if rs != [] {
      var d' := Respond(d, rs[0]).value;
      assert forall i :: 0 <= i < |d'.responses| ==> ValidResponse(d'.responses[i]) by {
        assert d'.responses == d.responses + [rs[0]];
      }
      RespondAllReadsBack(d', rs[1..]);
    }
  }

  class FileStorage {
    var flashcards: seq<Card>
    var sessions: seq<SessionData>

    /** Storage over fresh, empty files. */
    constructor ()
      ensures flashcards == [] && sessions == []
    {
      flashcards, sessions := [], [];
    }

    /** Appends the card's record at the end of the flashcard table. */
    method CreateFlashcard(card: Flashcard) returns (r: Flashcard)
      modifies this
      ensures r == card
      ensures flashcards == old(flashcards) + [card.Record()]
      ensures sessions == old(sessions)
    {
      var data := flashcards;
      data := data + [card.Record()];
      flashcards := data;
      return card;
    }

    /** The first record with the id, read back; none when no record has it. */
    method GetFlashcard(flashcardId: Id) returns (r: Result<Option<Card>, StorageError>)
      ensures r == RebuildFound(Lookup(flashcards, CardId, flashcardId))
    {
      var i := FindFirst(flashcards, CardId, flashcardId);
      match i
      case None => return Ok(None);
      case Some(k) => return RebuildFound(Some(flashcards[k]));
    }

    /** Every record, read back in table order. */
    method GetAllFlashcards() returns (r: Result<seq<Card>, StorageError>)
      ensures r == RebuildAll(flashcards)
    {
      return RebuildAll(flashcards);
    }

    /** Stamps the card and replaces the first record with its id; with no
        such record it fails and nothing changes, the card included. */
    method UpdateFlashcard(card: Flashcard, now: Timestamp) returns (r: Result<Flashcard, StorageError>)
      modifies this, card
      ensures var i := IndexOf(old(flashcards), CardId, old(card.id));
        && (i.None? ==> r == Err(FlashcardNotFound(card.id))
                        && flashcards == old(flashcards) && card.Record() == old(card.Record()))
        && (i.Some? ==> r == Ok(card)
                        && card.Record() == old(card.Record()).(updatedAt := now)
                        && flashcards == old(flashcards)[i.value := card.Record()])
      ensures sessions == old(sessions)
    {
      var data := flashcards;
      var i := FindFirst(data, CardId, card.id);
      match i
      case None =>
        return Err(FlashcardNotFound(card.id));
      case Some(k) =>
        card.updatedAt := now;
        data := data[k := card.Record()];
        flashcards := data;
        return Ok(card);
    }

    /** Removes the first record with the id and reports whether there was one. */
    method DeleteFlashcard(flashcardId: Id) returns (deleted: bool)
      modifies this
      ensures var i := IndexOf(old(flashcards), CardId, flashcardId);
        && (deleted <==> i.Some?)
        && (i.None? ==> flashcards == old(flashcards))
        && (i.Some? ==> flashcards == old(flashcards)[..i.value] + old(flashcards)[i.value + 1..])
      ensures sessions == old(sessions)
    {
      var data := flashcards;
      var i := FindFirst(data, CardId, flashcardId);
      match i
      case None =>
        return false;
      case Some(k) =>
        data := data[..k] + data[k + 1..];
        flashcards := data;
        return true;
    }

    method GetFlashcardsCount() returns (n: nat)
      ensures n == |flashcards|
    {
      return |flashcards|;
    }

    /** Appends the session's record at the end of the session table. */
    method CreateStudySession(session: SessionData) returns (r: SessionData)
      modifies this
      ensures r == session
      ensures sessions == old(sessions) + [session]
      ensures flashcards == old(flashcards)
    {
      sessions := sessions + [session];
      return session;
    }

    /** The first session record with the key, read back; none when no
        record has it, and an error when one of its responses is refused. */
    method GetStudySession(sessionId: Id) returns (r: Result<Option<SessionData>, StorageError>)
      ensures var found := Lookup(sessions, SessionKey, sessionId);
        && (found.None? ==> r == Ok(None))
        && (found.Some? && RebuildSession(found.value).Ok? ==> r == Ok(found))
        && (found.Some? && RebuildSession(found.value).Err? ==> r == Err(RebuildSession(found.value).error))
    {
      var i := FindFirst(sessions, SessionKey, sessionId);
      match i
      case None => return Ok(None);
      case Some(k) =>
        var read := RebuildSession(sessions[k]);
        if read.Err? {
          return Err(read.error);
        }
        return Ok(Some(read.value));
    }

    /** Replaces the first session record with the same key; with none it
        fails and nothing changes. */
    method UpdateStudySession(session: SessionData) returns (r: Result<SessionData, StorageError>)
      modifies this
      ensures var i := IndexOf(old(sessions), SessionKey, session.sessionId);
        && (i.None? ==> r == Err(SessionNotFound(session.sessionId)) && sessions == old(sessions))
        && (i.Some? ==> r == Ok(session) && sessions == old(sessions)[i.value := session])
      ensures flashcards == old(flashcards)
    {
      var data := sessions;
      var i := FindFirst(data, SessionKey, session.sessionId);
      match i
      case None =>
        return Err(SessionNotFound(session.sessionId));
      case Some(k) =>
        data := data[k := session];
        sessions := data;
        return Ok(session);
    }

    /** The sessions sorted by start time, latest first, cut to `limit` (ten
        unless given) and read back: a prefix of that order, never longer
        than a non-negative limit, and drawn from the stored sessions; the
        read fails when a selected session has a refused response. The table
        itself is not changed. */
    method GetRecentSessions(limit: int := 10) returns (r: Result<seq<SessionData>, StorageError>)
      ensures r == RebuildSessions(SlicePrefix(SortDesc(sessions, StartedAt), limit))
      ensures r.Ok? ==> (0 <= limit ==> |r.value| <= limit)
      ensures r.Ok? ==> SortedDesc(r.value, StartedAt)
      ensures r.Ok? ==> multiset(r.value) <= multiset(sessions)
    {
      var data := sessions;
      data := SortDesc(data, StartedAt);
      SortDescCorrect(sessions, StartedAt);
      var recent := SlicePrefix(data, limit);
      assert data == recent + data[|recent|..];
      assert multiset(data) == multiset(recent) + multiset(data[|recent|..]);
      r := RebuildSessions(recent);
    }
  }
}
