/** The flashcard entity: its field rules (text stripped, not blank, at most
    500 characters; counters `0 <= correct_count <= study_count`), the
    in-place updates `update_content` and `record_study_result`, and the
    `accuracy` property. */
module Flashcards {
  import opened Base
  import opened Text

  /** Longest front or back text a flashcard accepts. */
  const MaxContentLength := 500

  /** A flashcard's fields, as `Flashcard.dict()` gives them and the store keeps them. */
  datatype Card = Card(
    id: Id,
    front: string,
    back: string,
    createdAt: Timestamp,
    updatedAt: Timestamp,
    studyCount: int,
    correctCount: int)

  function CardId(c: Card): Id { c.id }

  /** Why constructing a flashcard fails. */
  datatype CardError =
    | MissingContent       // front or back is None
    | ContentLength        // raw text shorter than 1 or longer than 500 characters
    | BlankContent         // text empty or whitespace only
    | NegativeCount        // study_count or correct_count below 0
    | CorrectExceedsStudy  // correct_count above study_count
    | ValidatorRaised      // the correct-count validator itself raises (as written)

  /** Text as a stored flashcard holds it: 1..500 characters, already stripped. */
  predicate StoredText(t: string) {
    1 <= |t| <= MaxContentLength && Strip(t) == t
  }

  /** A record every rule of the flashcard model accepts. */
  predicate WellFormed(c: Card) {
    StoredText(c.front) && StoredText(c.back) && 0 <= c.correctCount <= c.studyCount
  }

  /** Validation of `front` or `back`: the length bounds of the field apply to
      the text as given, then blank text is refused and the stripped text kept. */
  function ValidateContent(v: Option<string>): (r: Result<string, CardError>)
    ensures r.Ok? <==> v.Some? && 1 <= |v.value| <= MaxContentLength && !IsBlank(v.value)
    ensures r.Ok? ==> r.value == Strip(v.value) && StoredText(r.value)
    ensures v.None? ==> r == Err(MissingContent)
    ensures v.Some? && |v.value| == 0 ==> r == Err(ContentLength)
    ensures v.Some? && |v.value| > MaxContentLength ==> r == Err(ContentLength)
    ensures v.Some? && 1 <= |v.value| <= MaxContentLength && IsBlank(v.value) ==> r == Err(BlankContent)
  {
    match v
    case None => Err(MissingContent)
    case Some(s) =>
      if !(1 <= |s| <= MaxContentLength) then Err(ContentLength)
      else if Strip(s) == [] then Err(BlankContent)
      else StripIdempotent(s); Ok(Strip(s))
  }

  /** Validation of the two counters. */
  function ValidateCounts(studyCount: int, correctCount: int): (r: Outcome<CardError>)
    ensures r.Pass? <==> 0 <= correctCount <= studyCount
  {
    if studyCount < 0 || correctCount < 0 then Fail(NegativeCount)
    else if correctCount > studyCount then Fail(CorrectExceedsStudy)
    else Pass
  }

  /** The counter validation as the code is written. `field_validator` is the
      pydantic 2 decorator, which passes a `ValidationInfo` as the second
      argument; that object has no `get`, so the validator raises whenever
      `correct_count` is given, and it does not run when the default is used.
      The field's own bound `ge=0` is checked first. */
  function ValidateCountsAsWritten(studyCount: int, correctCount: Option<int>): (r: Outcome<CardError>)
    ensures correctCount.None? ==> (r.Pass? <==> 0 <= studyCount)
    ensures correctCount.Some? ==> r.Fail?
    ensures correctCount.Some? && 0 <= correctCount.value ==> r == Fail(ValidatorRaised)
  {
    match correctCount
    case None => if studyCount < 0 then Fail(NegativeCount) else Pass
    case Some(n) => if n < 0 then Fail(NegativeCount) else Fail(ValidatorRaised)
  }

  /** As written, a record read back always carries its correct count, so the
      validator raises on it, even on a record the intended rule accepts;
      a card created with the default counters is not affected. */
  lemma CountsAsWrittenRefuseStored(c: Card)
    requires WellFormed(c)
    ensures ValidateCounts(c.studyCount, c.correctCount).Pass?
    ensures ValidateCountsAsWritten(c.studyCount, Some(c.correctCount)) == Fail(ValidatorRaised)
    ensures ValidateCountsAsWritten(0, None).Pass?
  {
  }

  /** Constructing a `Flashcard` from field values: accepted exactly when
      both texts and both counters pass, and then stored stripped. */
  function NewCard(id: Id, front: Option<string>, back: Option<string>,
                   createdAt: Timestamp, updatedAt: Timestamp,
                   studyCount: int, correctCount: int): (r: Result<Card, CardError>)
    ensures r.Ok? <==> ValidateContent(front).Ok? && ValidateContent(back).Ok?
                       && 0 <= correctCount <= studyCount
    ensures r.Ok? ==> WellFormed(r.value)
    ensures r.Ok? ==> r.value.front == Strip(front.value) && r.value.back == Strip(back.value)
    ensures r.Ok? ==> r.value.id == id && r.value.createdAt == createdAt && r.value.updatedAt == updatedAt
    ensures r.Ok? ==> r.value.studyCount == studyCount && r.value.correctCount == correctCount
  {
    match ValidateContent(front)
    case Err(e) => Err(e)
    case Ok(f) =>
      match ValidateContent(back)
      case Err(e) => Err(e)
      case Ok(b) =>
        match ValidateCounts(studyCount, correctCount)
        case Fail(e) => Err(e)
        case Pass => Ok(Card(id, f, b, createdAt, updatedAt, studyCount, correctCount))
  }

  /** `Flashcard(**record)`: a stored record read back through construction. */
  function Rebuild(c: Card): (r: Result<Card, CardError>)
    ensures r.Ok? <==> 1 <= |c.front| <= MaxContentLength && !IsBlank(c.front)
                       && 1 <= |c.back| <= MaxContentLength && !IsBlank(c.back)
                       && 0 <= c.correctCount <= c.studyCount
    ensures r.Ok? ==> r.value == c.(front := Strip(c.front), back := Strip(c.back))
  {
    NewCard(c.id, Some(c.front), Some(c.back), c.createdAt, c.updatedAt, c.studyCount, c.correctCount)
  }

  /** Reading back a well-formed record gives that record, and whatever
      construction accepts is well-formed: the two agree exactly. */
  lemma RebuildWellFormed(c: Card)
    ensures Rebuild(c) == Ok(c) <==> WellFormed(c)
  {
    if WellFormed(c) {
      assert !IsBlank(c.front) && !IsBlank(c.back);
    }
  }

  /** A flashcard object whose fields the application updates in place. */
  class Flashcard {
    var id: Id
    var front: string
    var back: string
    var createdAt: Timestamp
    var updatedAt: Timestamp
    var studyCount: int
    var correctCount: int

    /** `self.dict()`. */
    function Record(): Card
      reads this
    {
      Card(id, front, back, createdAt, updatedAt, studyCount, correctCount)
    }

    /** The counter rule `0 <= correct_count <= study_count`. */
    predicate CountersValid()
      reads this
    {
      0 <= correctCount <= studyCount
    }

    /** An object holding the fields of `c`. */
    constructor FromRecord(c: Card)
      ensures Record() == c
    {
      id, front, back := c.id, c.front, c.back;
      createdAt, updatedAt := c.createdAt, c.updatedAt;
      studyCount, correctCount := c.studyCount, c.correctCount;
    }

    /** Replaces the texts that are given (without validating them) and
        stamps the update time. */
    method UpdateContent(newFront: Option<string>, newBack: Option<string>, now: Timestamp)
      modifies this
      ensures front == (if newFront.Some? then newFront.value else old(front))
      ensures back == (if newBack.Some? then newBack.value else old(back))
      ensures Record() == old(Record()).(front := front, back := back, updatedAt := now)
    {
      if newFront.Some? {
        front := newFront.value;
      }
      if newBack.Some? {
        back := newBack.value;
      }
      updatedAt := now;
    }

    /** Counts one more study, and one more correct answer when `correct`. */
    method RecordStudyResult(correct: bool)
      modifies this
      ensures studyCount == old(studyCount) + 1
      ensures correctCount == old(correctCount) + (if correct then 1 else 0)
      ensures Record() == old(Record()).(studyCount := studyCount, correctCount := correctCount)
      ensures old(CountersValid()) ==> CountersValid()
    {
      studyCount := studyCount + 1;
      if correct {
        correctCount := correctCount + 1;
      }
    }

    /** Share of correct answers, 0 before the first study. */
    function Accuracy(): (a: real)
      reads this
      ensures studyCount == 0 ==> a == 0.0
      ensures studyCount != 0 ==> a * (studyCount as real) == correctCount as real
      ensures CountersValid() ==> 0.0 <= a <= 1.0
    {
      if studyCount == 0 then 0.0 else correctCount as real / studyCount as real
    }
  }
}
