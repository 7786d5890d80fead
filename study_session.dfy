/** The study-session state machine: an ordered list of flashcard ids, a
    position in it, the responses recorded so far, and the progress figures
    derived from them. */
module StudySessions {
  import opened Base
  import opened Text
  import opened Tables
  import opened Flashcards

  /** One recorded answer to a flashcard. */
  datatype StudyResponse = StudyResponse(
    flashcardId: Id,
    isCorrect: bool,
    responseTimeSeconds: real,
    timestamp: Timestamp)

  datatype ResponseError = EmptyFlashcardId | NonPositiveResponseTime

  /** What the two `StudyResponse` validators demand of a response. */
  predicate ValidResponse(x: StudyResponse) {
    !IsBlank(x.flashcardId) && x.responseTimeSeconds > 0.0
  }

  /** Constructing a `StudyResponse`: the flashcard id must not be blank and
      the response time must be strictly positive. The id is kept as given. */
  function NewResponse(flashcardId: Id, isCorrect: bool, responseTimeSeconds: real,
                       timestamp: Timestamp): (r: Result<StudyResponse, ResponseError>)
    ensures r.Ok? <==> !IsBlank(flashcardId) && responseTimeSeconds > 0.0
    ensures IsBlank(flashcardId) ==> r == Err(EmptyFlashcardId)
    ensures !IsBlank(flashcardId) && responseTimeSeconds <= 0.0 ==> r == Err(NonPositiveResponseTime)
    ensures r.Ok? ==> r.value.flashcardId == flashcardId && r.value.isCorrect == isCorrect
                      && r.value.responseTimeSeconds == responseTimeSeconds
                      && r.value.timestamp == timestamp && ValidResponse(r.value)
  {
    if Strip(flashcardId) == [] then Err(EmptyFlashcardId)
    else if responseTimeSeconds <= 0.0 then Err(NonPositiveResponseTime)
    else Ok(StudyResponse(flashcardId, isCorrect, responseTimeSeconds, timestamp))
  }

  /** The progress figures shown to the learner. */
  datatype StudyProgress = StudyProgress(
    currentCard: int,
    totalCards: nat,
    cardsCompleted: nat,
    correctResponses: nat,
    incorrectResponses: nat,
    accuracyPercentage: real)

  /** Number of responses marked correct. */
  function CountCorrect(rs: seq<StudyResponse>): (n: nat)
    ensures n <= |rs|
  {
    if rs == [] then 0 else (if rs[0].isCorrect then 1 else 0) + CountCorrect(rs[1..])
  }

  /** Recording one more response adds one to the count exactly when it is correct. */
  lemma {:induction false} CountCorrectAppend(rs: seq<StudyResponse>, r: StudyResponse)
    ensures CountCorrect(rs + [r]) == CountCorrect(rs) + (if r.isCorrect then 1 else 0)
  {
    if rs != [] {
      CountCorrectAppend(rs[1..], r);
      assert (rs + [r])[1..] == rs[1..] + [r];
    }
  }

  /** Correct answers as a percentage of `total`, 0 when there are none. */
  function AccuracyPercentage(correct: nat, total: nat): (a: real)
    requires correct <= total
    ensures total == 0 ==> a == 0.0
    ensures total > 0 ==> a * (total as real) == (correct as real) * 100.0
    ensures 0.0 <= a <= 100.0
  {
    if total == 0 then 0.0 else (correct as real / total as real) * 100.0
  }

  /** `get_progress`: counts and accuracy derived from the responses; the
      1-based current card is the position plus one, even past the end. */
  function ProgressOf(ids: seq<Id>, index: nat, rs: seq<StudyResponse>): (p: StudyProgress)
    ensures p.cardsCompleted == |rs| && p.totalCards == |ids| && p.currentCard == index + 1
    ensures p.correctResponses == CountCorrect(rs)
    ensures p.correctResponses + p.incorrectResponses == p.cardsCompleted
    ensures 0.0 <= p.accuracyPercentage <= 100.0
    ensures rs == [] ==> p.accuracyPercentage == 0.0
    ensures rs != [] ==> p.accuracyPercentage * (|rs| as real) == (p.correctResponses as real) * 100.0
  {
    var correct := CountCorrect(rs);
    StudyProgress(index + 1, |ids|, |rs|, correct, |rs| - correct, AccuracyPercentage(correct, |rs|))
  }

  /** After one more response, one more card is completed, and the correct
      and incorrect counts each stay or grow, exactly one of them by one. */
  lemma ProgressAfterResponse(ids: seq<Id>, index: nat, rs: seq<StudyResponse>, r: StudyResponse)
    ensures var before, after := ProgressOf(ids, index, rs), ProgressOf(ids, index + 1, rs + [r]);
      && after.cardsCompleted == before.cardsCompleted + 1
      && after.correctResponses == before.correctResponses + (if r.isCorrect then 1 else 0)
      && after.incorrectResponses == before.incorrectResponses + (if r.isCorrect then 0 else 1)
  {
    CountCorrectAppend(rs, r);
  }

  datatype SessionError =
    | EmptyFlashcardList   // a session needs at least one flashcard
    | AlreadyComplete      // no current flashcard is left to answer
    | NotCurrentFlashcard  // the response names another flashcard
    | AtFirstCard          // there is no previous flashcard to go back to

  /** A session's fields as a value (`StudySession.dict()`), the form the store keeps. */
  datatype SessionData = SessionData(
    sessionId: Id,
    flashcardIds: seq<Id>,
    currentIndex: nat,
    responses: seq<StudyResponse>,
    isActive: bool,
    startedAt: Timestamp,
    completedAt: Option<Timestamp>)

  /** Responses kept in step with the position: one response per card passed,
      each naming that card, and the position never beyond the end. */
  predicate InStep(d: SessionData) {
    && |d.responses| == d.currentIndex <= |d.flashcardIds|
    && forall k :: 0 <= k < |d.responses| ==> d.responses[k].flashcardId == d.flashcardIds[k]
  }

  /** `add_response` on session values: refused on a complete session or for
      a response to another card; otherwise the response is appended and the
      position advances by one. */
  function Respond(d: SessionData, r: StudyResponse): (res: Result<SessionData, SessionError>)
    ensures d.currentIndex >= |d.flashcardIds| ==> res == Err(AlreadyComplete)
    ensures d.currentIndex < |d.flashcardIds| && r.flashcardId != d.flashcardIds[d.currentIndex]
            ==> res == Err(NotCurrentFlashcard)
    ensures res.Ok? <==> d.currentIndex < |d.flashcardIds| && r.flashcardId == d.flashcardIds[d.currentIndex]
    ensures res.Ok? ==> res.value.responses == d.responses + [r]
                        && res.value.currentIndex == d.currentIndex + 1
                        && res.value == d.(responses := res.value.responses, currentIndex := res.value.currentIndex)
    ensures res.Ok? && InStep(d) ==> InStep(res.value)
  {
    if d.currentIndex >= |d.flashcardIds| then Err(AlreadyComplete)
    else if r.flashcardId != d.flashcardIds[d.currentIndex] then Err(NotCurrentFlashcard)
    else Ok(d.(responses := d.responses + [r], currentIndex := d.currentIndex + 1))
  }

  /** `add_response` called on each of `rs` in turn, stopping at the first refusal. */
  function RespondAll(d: SessionData, rs: seq<StudyResponse>): Result<SessionData, SessionError>
    decreases rs
  {
    if rs == [] then Ok(d)
    else match Respond(d, rs[0])
      case Err(e) => Err(e)
      case Ok(d') => RespondAll(d', rs[1..])
  }

  /** Over any run of responses, the session stays in step: a run succeeds
      exactly when it answers the next cards in order without passing the
      end, and then the responses are extended by the run and the position
      advanced by its length. */
  lemma {:induction false} RespondAllInStep(d: SessionData, rs: seq<StudyResponse>)
    requires InStep(d)
    ensures RespondAll(d, rs).Ok? <==>
              d.currentIndex + |rs| <= |d.flashcardIds|
              && forall k :: 0 <= k < |rs| ==> rs[k].flashcardId == d.flashcardIds[d.currentIndex + k]
    ensures RespondAll(d, rs).Ok? ==>
              var e := RespondAll(d, rs).value;
              InStep(e) && e.responses == d.responses + rs
              && e.currentIndex == d.currentIndex + |rs|
              && e == d.(responses := e.responses, currentIndex := e.currentIndex)
    decreases rs
  {
    if rs != [] {
      match Respond(d, rs[0])
      case Err(_) =>
      case Ok(d') =>
        RespondAllInStep(d', rs[1..]);
        assert d.responses + rs == d'.responses + rs[1..] by {
          assert rs == [rs[0]] + rs[1..];
        }
        if RespondAll(d', rs[1..]).Ok? {
          forall k | 0 <= k < |rs|
            ensures rs[k].flashcardId == d.flashcardIds[d.currentIndex + k]
          {
            if k > 0 {
              assert rs[k] == rs[1..][k - 1];
            }
          }
        } else if d.currentIndex + |rs| <= |d.flashcardIds| {
          var k :| 0 <= k < |rs[1..]| && rs[1..][k].flashcardId != d'.flashcardIds[d'.currentIndex + k];
          assert rs[k + 1].flashcardId != d.flashcardIds[d.currentIndex + k + 1];
        }
    }
  }

  /** `go_back` keeps the responses, so answering the previous card again
      records it twice: the session leaves step with one response more than
      cards passed, and at the end of the session more cards are reported
      completed than the session holds. */
  lemma ReanswerAfterBack(d: SessionData, r: StudyResponse)
    requires InStep(d) && d.currentIndex > 0
    requires r.flashcardId == d.flashcardIds[d.currentIndex - 1]
    ensures var again := Respond(d.(currentIndex := d.currentIndex - 1), r);
      && again.Ok?
      && again.value.currentIndex == d.currentIndex
      && |again.value.responses| == d.currentIndex + 1
      && !InStep(again.value)
      && (d.currentIndex == |d.flashcardIds| ==>
            var p := ProgressOf(again.value.flashcardIds, again.value.currentIndex, again.value.responses);
            p.cardsCompleted > p.totalCards)
  {
  }

  /** A study session object; its methods update the fields in place. */
  class StudySession {
    var sessionId: Id
    var flashcardIds: seq<Id>
    var currentIndex: nat
    var responses: seq<StudyResponse>
    var isActive: bool
    var startedAt: Timestamp
    var completedAt: Option<Timestamp>

    /** `self.dict()`. */
    function Snapshot(): SessionData
      reads this
    {
      SessionData(sessionId, flashcardIds, currentIndex, responses, isActive, startedAt, completedAt)
    }

    /** `total_cards`: the figure progress reports as the total. */
    function TotalCards(): (n: nat)
      reads this
      ensures n == ProgressOf(flashcardIds, currentIndex, responses).totalCards
    {
      |flashcardIds|
    }

    /** Every card has been passed: exactly when the 1-based card number
        that progress reports is beyond the total. */
    predicate IsComplete(): (b: bool)
      reads this
      ensures b <==> ProgressOf(flashcardIds, currentIndex, responses).currentCard > TotalCards()
      ensures !b ==> currentIndex < |flashcardIds|
    {
      currentIndex >= |flashcardIds|
    }

    /** A fresh, active session at the first card with no responses. */
    constructor Start(sessionId: Id, flashcardIds: seq<Id>, startedAt: Timestamp)
      ensures Snapshot() == SessionData(sessionId, flashcardIds, 0, [], true, startedAt, None)
    {
      this.sessionId := sessionId;
      this.flashcardIds := flashcardIds;
      this.currentIndex := 0;
      this.responses := [];
      this.isActive := true;
      this.startedAt := startedAt;
      this.completedAt := None;
    }

    /** `create_session`: refuses an empty list; otherwise a new session over
        the flashcards' ids in the order given, in step from the start. */
    static method CreateSession(flashcards: seq<Card>, sessionId: Id, now: Timestamp)
      returns (r: Result<StudySession, SessionError>)
      ensures r.Err? <==> flashcards == []
      ensures r.Err? ==> r.error == EmptyFlashcardList
      ensures r.Ok? ==> fresh(r.value)
                        && r.value.Snapshot() == SessionData(sessionId, KeysOf(flashcards, CardId), 0, [], true, now, None)
                        && InStep(r.value.Snapshot())
    {
      if flashcards == [] {
        return Err(EmptyFlashcardList);
      }
      var session := new StudySession.Start(sessionId, KeysOf(flashcards, CardId), now);
      return Ok(session);
    }

    /** `get_current_flashcard_id`: none exactly when the session is complete. */
    function CurrentFlashcardId(): (r: Option<Id>)
      reads this
      ensures r.None? <==> IsComplete()
      ensures r.Some? ==> r.value == flashcardIds[currentIndex]
    {
      if currentIndex >= |flashcardIds| then None else Some(flashcardIds[currentIndex])
    }

    /** Moves to the next card, with no bound check. */
    method AdvanceToNextCard()
      modifies this
      ensures Snapshot() == old(Snapshot()).(currentIndex := old(currentIndex) + 1)
    {
      currentIndex := currentIndex + 1;
    }

    /** Checks the response against the current card, appends it and advances;
        on either refusal nothing changes. */
    method AddResponse(response: StudyResponse) returns (o: Outcome<SessionError>)
      modifies this
      ensures o.Pass? <==> Respond(old(Snapshot()), response).Ok?
      ensures o.Fail? ==> o.error == Respond(old(Snapshot()), response).error
                          && Snapshot() == old(Snapshot())
      ensures o.Pass? ==> Snapshot() == Respond(old(Snapshot()), response).value
    {
      var current := CurrentFlashcardId();
      if current.None? {
        return Fail(AlreadyComplete);
      }
      if response.flashcardId != current.value {
        return Fail(NotCurrentFlashcard);
      }
      responses := responses + [response];
      AdvanceToNextCard();
      return Pass;
    }

    /** `can_go_back`: exactly when progress reports a card after the first. */
    function CanGoBack(): (b: bool)
      reads this
      ensures b <==> ProgressOf(flashcardIds, currentIndex, responses).currentCard > 1
    {
      currentIndex > 0
    }

    /** Moves to the previous card; refused at the first card. Responses are kept. */
    method GoBack() returns (o: Outcome<SessionError>)
      modifies this
      ensures o.Pass? <==> old(CanGoBack())
      ensures o.Fail? ==> o.error == AtFirstCard && Snapshot() == old(Snapshot())
      ensures o.Pass? ==> Snapshot() == old(Snapshot()).(currentIndex := old(currentIndex) - 1)
    {
      if !CanGoBack() {
        return Fail(AtFirstCard);
      }
      currentIndex := currentIndex - 1;
      return Pass;
    }

    /** Marks the session finished at `now`; position and responses stay. */
    method CompleteSession(now: Timestamp)
      modifies this
      ensures Snapshot() == old(Snapshot()).(isActive := false, completedAt := Some(now))
    {
      isActive := false;
      completedAt := Some(now);
    }

    /** `get_progress`. */
    function GetProgress(): (p: StudyProgress)
      reads this
      ensures p.currentCard == currentIndex + 1 && p.totalCards == |flashcardIds|
      ensures p.cardsCompleted == |responses| && p.correctResponses == CountCorrect(responses)
      ensures p.correctResponses + p.incorrectResponses == |responses|
      ensures 0.0 <= p.accuracyPercentage <= 100.0
    {
      ProgressOf(flashcardIds, currentIndex, responses)
    }
  }
}
