/** Flashcard business rules on top of the store: validation of new and
    edited text in a fixed check order, id guards, search and the choice of
    study candidates. */
module FlashcardServices {
  import opened Base
  import opened Text
  import opened Tables
  import opened Flashcards
  import opened Storage

  datatype Side = Front | Back

  datatype ServiceError =
    | NoneContent                 // front or back is None
    | EmptyContent(side: Side)    // the text is blank
    | ContentTooLong(side: Side)  // the stripped text is over 500 characters
    | EmptyId                     // the flashcard id is blank
    | NotFound(flashcardId: Id)   // no flashcard has the id
    | StoreFailure(cause: StorageError)

  /** Text the service accepts: not blank, and at most 500 characters once stripped. */
  predicate AcceptedText(t: string) {
    !IsBlank(t) && |Strip(t)| <= MaxContentLength
  }

  /** Accepted text, once stripped, is text a stored flashcard may hold. */
  lemma AcceptedTextStores(t: string)
    requires AcceptedText(t)
    ensures StoredText(Strip(t))
  {
    StripIdempotent(t);
  }

  /** The validation steps of `create_flashcard`, in their order: None, front blank,
      back blank, front too long, back too long. The first that fails decides
      the error; when all pass the stripped texts are kept. */
  function ValidateNew(front: Option<string>, back: Option<string>): (r: Result<(string, string), ServiceError>)
    ensures front.None? || back.None? ==> r == Err(NoneContent)
    ensures r.Ok? <==> front.Some? && back.Some? && AcceptedText(front.value) && AcceptedText(back.value)
    ensures r.Ok? ==> r.value == (Strip(front.value), Strip(back.value))
    ensures front.Some? && back.Some? ==>
      var f, b := front.value, back.value;
      && (IsBlank(f) ==> r == Err(EmptyContent(Front)))
      && (!IsBlank(f) && IsBlank(b) ==> r == Err(EmptyContent(Back)))
      && (!IsBlank(f) && !IsBlank(b) && |Strip(f)| > MaxContentLength ==> r == Err(ContentTooLong(Front)))
      && (!IsBlank(f) && !IsBlank(b) && |Strip(f)| <= MaxContentLength && |Strip(b)| > MaxContentLength ==>
            r == Err(ContentTooLong(Back)))
  {
    if front.None? || back.None? then Err(NoneContent)
    else
      var f, b := Strip(front.value), Strip(back.value);
      if f == [] then Err(EmptyContent(Front))
      else if b == [] then Err(EmptyContent(Back))
      else if |f| > MaxContentLength then Err(ContentTooLong(Front))
      else if |b| > MaxContentLength then Err(ContentTooLong(Back))
      else Ok((f, b))
  }

  /** The validation steps of `update_flashcard` for one provided text: blank, then too long. */
  function ValidateField(t: string, side: Side): (r: Result<string, ServiceError>)
    ensures r.Ok? <==> AcceptedText(t)
    ensures r.Ok? ==> r.value == Strip(t) && StoredText(r.value)
    ensures IsBlank(t) ==> r == Err(EmptyContent(side))
    ensures !IsBlank(t) && |Strip(t)| > MaxContentLength ==> r == Err(ContentTooLong(side))
  {
    var s := Strip(t);
    if s == [] then Err(EmptyContent(side))
    else if |s| > MaxContentLength then Err(ContentTooLong(side))
    else AcceptedTextStores(t); Ok(s)
  }

  /** An edit of card `c`: the provided texts are checked front first, then
      back, and replace the old ones stripped; a text not provided is kept.
      The id, creation time and counters never change. */
  function ApplyUpdate(c: Card, front: Option<string>, back: Option<string>, now: Timestamp)
    : (r: Result<Card, ServiceError>)
    ensures r.Ok? <==> (front.Some? ==> AcceptedText(front.value)) && (back.Some? ==> AcceptedText(back.value))
    ensures front.Some? && !AcceptedText(front.value) ==> r == Err(ValidateField(front.value, Front).error)
    ensures (front.Some? ==> AcceptedText(front.value)) && back.Some? && !AcceptedText(back.value)
            ==> r == Err(ValidateField(back.value, Back).error)
    ensures r.Ok? ==> r.value.front == (if front.Some? then Strip(front.value) else c.front)
    ensures r.Ok? ==> r.value.back == (if back.Some? then Strip(back.value) else c.back)
    ensures r.Ok? ==> r.value == c.(front := r.value.front, back := r.value.back, updatedAt := now)
    ensures r.Ok? && WellFormed(c) ==> WellFormed(r.value)
  {
    var f := if front.Some? then ValidateField(front.value, Front) else Ok(c.front);
    if f.Err? then Err(f.error)
    else
      var b := if back.Some? then ValidateField(back.value, Back) else Ok(c.back);
      if b.Err? then Err(b.error)
      else
        Ok(c.(front := f.value, back := b.value, updatedAt := now))
  }

  /** Creating and editing check the same rules in different orders: a front
      that is too long beside a blank back is reported as the blank back on
      creation and as the long front on an edit. */
  lemma CheckOrdersDiffer(c: Card, f: string, b: string, now: Timestamp)
    requires !IsBlank(f) && |Strip(f)| > MaxContentLength && IsBlank(b)
    ensures ValidateNew(Some(f), Some(b)) == Err(EmptyContent(Back))
    ensures ApplyUpdate(c, Some(f), Some(b), now) == Err(ContentTooLong(Front))
  {
  }

  /** The search criterion: the lower-cased query occurs in the lower-cased front or back. */
  predicate Matches(c: Card, q: string) {
    Contains(Lower(c.front), q) || Contains(Lower(c.back), q)
  }

  /** The cards that match, in their original order. */
  function Matching(cards: seq<Card>, q: string): (r: seq<Card>)
    ensures |r| <= |cards|
    ensures forall c :: c in r <==> c in cards && Matches(c, q)
  {
    if cards == [] then []
    else (if Matches(cards[0], q) then [cards[0]] else []) + Matching(cards[1..], q)
  }

  /** Filtering keeps order: filtering a concatenation concatenates the filtered parts. */
  lemma {:induction false} MatchingAppend(a: seq<Card>, b: seq<Card>, q: string)
    ensures Matching(a + b, q) == Matching(a, q) + Matching(b, q)
  {
    if a == [] {
      assert a + b == b;
    } else {
      var head := if Matches(a[0], q) then [a[0]] else [];
      assert (a + b)[0] == a[0];
      assert (a + b)[1..] == a[1..] + b;
      calc {
        Matching(a + b, q);
        head + Matching(a[1..] + b, q);
        { MatchingAppend(a[1..], b, q); }
        head + (Matching(a[1..], q) + Matching(b, q));
        (head + Matching(a[1..], q)) + Matching(b, q);
        Matching(a, q) + Matching(b, q);
      }
    }
  }

  /** `get_study_candidates`: the first `limit` cards for a positive limit,
      all of them otherwise; always a prefix of the table. */
  function Candidates(cards: seq<Card>, limit: Option<int>): (r: seq<Card>)
    ensures |r| <= |cards| && r == cards[..|r|]
    ensures limit.Some? && limit.value > 0 ==> |r| == (if limit.value <= |cards| then limit.value else |cards|)
    ensures !(limit.Some? && limit.value > 0) ==> r == cards
  {
    if limit.Some? && limit.value > 0 then SlicePrefix(cards, limit.value) else cards
  }

  /** A store error raised through the service. */
  function Raise<T>(r: Result<T, StorageError>): (s: Result<T, ServiceError>)
    ensures s.Ok? <==> r.Ok?
  {
    match r
    case Ok(v) => Ok(v)
    case Err(e) => Err(StoreFailure(e))
  }

  /** What `update_flashcard` does to the table `cards`: the index of the
      first record with the stripped id and the edited card to write there,
      or the first refusal: blank id, unreadable record, no such card, or an
      unacceptable text. */
  function PlanUpdate(cards: seq<Card>, flashcardId: Id, front: Option<string>, back: Option<string>, now: Timestamp)
    : (r: Result<(nat, Card), ServiceError>)
    ensures IsBlank(flashcardId) ==> r == Err(EmptyId)
    ensures !IsBlank(flashcardId) && Lookup(cards, CardId, Strip(flashcardId)).None? ==> r == Err(NotFound(flashcardId))
    ensures !IsBlank(flashcardId) && Lookup(cards, CardId, Strip(flashcardId)).Some? ==>
              var read := Rebuild(Lookup(cards, CardId, Strip(flashcardId)).value);
              && (read.Err? ==> r == Err(StoreFailure(InvalidRecord(read.error))))
              && (read.Ok? ==> (r.Ok? <==> ApplyUpdate(read.value, front, back, now).Ok?))
              && (read.Ok? && ApplyUpdate(read.value, front, back, now).Err? ==>
                    r == Err(ApplyUpdate(read.value, front, back, now).error))
    ensures r.Ok? ==> IndexOf(cards, CardId, Strip(flashcardId)) == Some(r.value.0)
    ensures r.Ok? ==> r.value.0 < |cards| && r.value.1.id == cards[r.value.0].id == Strip(flashcardId)
    ensures r.Ok? ==> WellFormed(r.value.1) && r.value.1.updatedAt == now
    ensures r.Ok? ==> Rebuild(cards[r.value.0]).Ok?
                      && ApplyUpdate(Rebuild(cards[r.value.0]).value, front, back, now) == Ok(r.value.1)
  {
    if Strip(flashcardId) == [] then Err(EmptyId)
    else
      var key := Strip(flashcardId);
      var found := RebuildFound(Lookup(cards, CardId, key));
      if found.Err? then Err(StoreFailure(found.error))
      else if found.value.None? then Err(NotFound(flashcardId))
      else
        var edit := ApplyUpdate(found.value.value, front, back, now);
        if edit.Err? then Err(edit.error)
        else Ok((IndexOf(cards, CardId, key).value, edit.value))
  }

  /** The fetched card as an object, with the new texts and update time of
      `edit` assigned to its fields in place. */
  method EditFetched(fetched: Card, edit: Card) returns (card: Flashcard)
    requires edit == fetched.(front := edit.front, back := edit.back, updatedAt := edit.updatedAt)
    ensures fresh(card) && card.Record() == edit
  {
    card := new Flashcard.FromRecord(fetched);
    card.front := edit.front;
    card.back := edit.back;
    card.updatedAt := edit.updatedAt;
  }

  class FlashcardService {
    const storage: FileStorage

    constructor (storage: FileStorage)
      ensures this.storage == storage
    {
      this.storage := storage;
    }

    /** Validates, builds a card with the stripped texts and zero counters,
        and appends it to the store; on a refused input the store is untouched. */
    method CreateFlashcard(front: Option<string>, back: Option<string>, newId: Id, now: Timestamp)
      returns (r: Result<Flashcard, ServiceError>)
      modifies storage
      ensures var v := ValidateNew(front, back);
        && (v.Err? ==> r == Err(v.error) && storage.flashcards == old(storage.flashcards))
        && (v.Ok? ==>
              && r.Ok? && fresh(r.value)
              && r.value.Record() == Card(newId, v.value.0, v.value.1, now, now, 0, 0)
              && WellFormed(r.value.Record())
              && storage.flashcards == old(storage.flashcards) + [r.value.Record()])
      ensures storage.sessions == old(storage.sessions)
    {
      var v := ValidateNew(front, back);
      if v.Err? {
        return Err(v.error);
      }
      AcceptedTextStores(front.value);
      AcceptedTextStores(back.value);
      var built := NewCard(newId, Some(v.value.0), Some(v.value.1), now, now, 0, 0);
      var card := new Flashcard.FromRecord(built.value);
      var created := storage.CreateFlashcard(card);
      return Ok(created);
    }

    /** Refuses a blank id; otherwise looks up the stripped id. */
    method GetFlashcard(flashcardId: Id) returns (r: Result<Option<Card>, ServiceError>)
      ensures IsBlank(flashcardId) ==> r == Err(EmptyId)
      ensures !IsBlank(flashcardId) ==>
                r == Raise(RebuildFound(Lookup(storage.flashcards, CardId, Strip(flashcardId))))
    {
      if Strip(flashcardId) == [] {
        return Err(EmptyId);
      }
      var found := storage.GetFlashcard(Strip(flashcardId));
      return Raise(found);
    }

    /** The steps of `update_flashcard` before anything is written: the id
        guard, the lookup of the stripped id and the validation of the new
        texts. On success, the fetched card and its edited version. */
    method PrepareUpdate(flashcardId: Id, front: Option<string>, back: Option<string>, now: Timestamp)
      returns (r: Result<(Card, Card), ServiceError>)
      ensures var plan := PlanUpdate(storage.flashcards, flashcardId, front, back, now);
        && (r.Ok? <==> plan.Ok?)
        && (plan.Err? ==> r == Err(plan.error))
        && (plan.Ok? ==>
              && r.value.1 == plan.value.1
              && r.value.1 == r.value.0.(front := r.value.1.front, back := r.value.1.back, updatedAt := now))
    {
      if Strip(flashcardId) == [] {
        return Err(EmptyId);
      }
      var key := Strip(flashcardId);
      var found := storage.GetFlashcard(key);
      if found.Err? {
        return Err(StoreFailure(found.error));
      }
      if found.value.None? {
        return Err(NotFound(flashcardId));
      }
      var fetched := found.value.value;
      var edit := ApplyUpdate(fetched, front, back, now);
      if edit.Err? {
        return Err(edit.error);
      }
      return Ok((fetched, edit.value));
    }

    /** Refuses a blank id, then a missing card, then an unacceptable text;
        otherwise sets the new texts and update time on the fetched card and
        writes it over the first record with its id. On every refusal the
        store is untouched. */
    method UpdateFlashcard(flashcardId: Id, front: Option<string>, back: Option<string>, now: Timestamp)
      returns (r: Result<Flashcard, ServiceError>)
      modifies storage
      ensures var plan := PlanUpdate(old(storage.flashcards), flashcardId, front, back, now);
        && (plan.Err? ==> r == Err(plan.error) && storage.flashcards == old(storage.flashcards))
        && (plan.Ok? ==>
              && r.Ok? && fresh(r.value) && r.value.Record() == plan.value.1
              && storage.flashcards == old(storage.flashcards)[plan.value.0 := plan.value.1])
      ensures storage.sessions == old(storage.sessions)
    {
      ghost var plan := PlanUpdate(storage.flashcards, flashcardId, front, back, now);
      var prepared := PrepareUpdate(flashcardId, front, back, now);
      if prepared.Err? {
        return Err(prepared.error);
      }
      var card := EditFetched(prepared.value.0, prepared.value.1);
      var saved := storage.UpdateFlashcard(card, now);
      // the record was found above, so the store finds it again
      assert saved.Ok?;
      return Ok(saved.value);
    }

    /** Refuses a blank id; otherwise deletes the first record with the
        stripped id and reports whether one existed. */
    method DeleteFlashcard(flashcardId: Id) returns (r: Result<bool, ServiceError>)
      modifies storage
      ensures IsBlank(flashcardId) ==> r == Err(EmptyId) && storage.flashcards == old(storage.flashcards)
      ensures !IsBlank(flashcardId) ==>
        var i := IndexOf(old(storage.flashcards), CardId, Strip(flashcardId));
        && r == Ok(i.Some?)
        && (i.None? ==> storage.flashcards == old(storage.flashcards))
        && (i.Some? ==> storage.flashcards == old(storage.flashcards)[..i.value] + old(storage.flashcards)[i.value + 1..])
      ensures storage.sessions == old(storage.sessions)
    {
      if Strip(flashcardId) == [] {
        return Err(EmptyId);
      }
      var deleted := storage.DeleteFlashcard(Strip(flashcardId));
      return Ok(deleted);
    }

    /** A blank query finds nothing without reading the store; otherwise the
        cards whose front or back contains the stripped query, ignoring case. */
    method SearchFlashcards(query: string) returns (r: Result<seq<Card>, ServiceError>)
      ensures IsBlank(query) ==> r == Ok([])
      ensures !IsBlank(query) ==>
        var all := RebuildAll(storage.flashcards);
        && (all.Err? ==> r == Err(StoreFailure(all.error)))
        && (all.Ok? ==> r == Ok(Matching(all.value, Lower(Strip(query)))))
    {
      if Strip(query) == [] {
        return Ok([]);
      }
      var q := Lower(Strip(query));
      var all := storage.GetAllFlashcards();
      if all.Err? {
        return Err(StoreFailure(all.error));
      }
      return Ok(Matching(all.value, q));
    }

    /** The study candidates drawn from every card. */
    method GetStudyCandidates(limit: Option<int>) returns (r: Result<seq<Card>, ServiceError>)
      ensures var all := RebuildAll(storage.flashcards);
        && (all.Err? ==> r == Err(StoreFailure(all.error)))
        && (all.Ok? ==> r == Ok(Candidates(all.value, limit)))
    {
      var all := storage.GetAllFlashcards();
      if all.Err? {
        return Err(StoreFailure(all.error));
      }
      return Ok(Candidates(all.value, limit));
    }
  }
}
