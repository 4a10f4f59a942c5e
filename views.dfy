/** The poll application's views over the tables: the index page, the
    detail and results pages of one question, and vote submission. The
    pages are pure lookups; vote submission changes the store, and is
    written both as a specification function (CastVote) and as a method of
    the store that issues the same reads and writes in the same order. */
module Views {
  import opened Models
  import Ordering

  /** The requesting user as the authentication layer reports it. */
  datatype Actor = Anonymous | Authenticated(id: UserId)

  /** The number of questions the index shows. */
  const LatestCount := 5

  function Min(a: int, b: int): int
  {
    if a < b then a else b
  }

  function PubDate(q: Question): int
  {
    q.pubDate
  }

  // ---------------------------------------------------------------------------
  // Pages

  datatype IndexPage = IndexPage(latest: seq<Question>, userVotes: map<QuestionId, ChoiceId>)

  /** The most recently published questions, at most five, newest first. */
  function Latest(questions: seq<Question>): (latest: seq<Question>)
    ensures |latest| == Min(LatestCount, |questions|)
    ensures Ordering.NonIncreasing(latest, PubDate)
    ensures multiset(latest) <= multiset(questions)
    ensures forall q, p :: q in questions && q !in latest && p in latest ==> q.pubDate <= p.pubDate
  {
    var sorted := Ordering.SortDescending(questions, PubDate);
    var n := Min(LatestCount, |sorted|);
    Ordering.PrefixDominates(sorted, PubDate, n);
    assert sorted == sorted[..n] + sorted[n..];
    assert forall q :: q in questions ==> q in multiset(sorted);
    sorted[..n]
  }

  /** For a signed-in user, the choice of their Vote on each shown question
      they voted on; nothing for an anonymous user. */
  function UserVotes(shown: seq<Question>, ledger: map<VoteKey, VoteRow>, actor: Actor): (votes: map<QuestionId, ChoiceId>)
    ensures actor.Anonymous? ==> votes == map[]
    ensures actor.Authenticated? ==> forall id :: id in votes <==>
      (exists q :: q in shown && q.id == id) && VoteKey(actor.id, id) in ledger
    ensures actor.Authenticated? ==> forall id :: id in votes ==>
      votes[id] == ledger[VoteKey(actor.id, id)].choice
  {
    match actor
    case Anonymous => map[]
    case Authenticated(u) =>
      var ids := set q | q in shown :: q.id;
      map id | id in ids && VoteKey(u, id) in ledger :: ledger[VoteKey(u, id)].choice
  }

  /** The index page: the latest questions, and the requester's votes on them. */
  function Index(questions: seq<Question>, ledger: map<VoteKey, VoteRow>, actor: Actor): (page: IndexPage)
    ensures |page.latest| == Min(LatestCount, |questions|)
    ensures Ordering.NonIncreasing(page.latest, PubDate)
    ensures multiset(page.latest) <= multiset(questions)
    ensures forall q, p :: q in questions && q !in page.latest && p in page.latest ==> q.pubDate <= p.pubDate
    ensures actor.Anonymous? ==> page.userVotes == map[]
    ensures actor.Authenticated? ==> forall id :: id in page.userVotes <==>
      (exists q :: q in page.latest && q.id == id) && VoteKey(actor.id, id) in ledger
    ensures actor.Authenticated? ==> forall id :: id in page.userVotes ==>
      page.userVotes[id] == ledger[VoteKey(actor.id, id)].choice
  {
    var latest := Latest(questions);
    IndexPage(latest, UserVotes(latest, ledger, actor))
  }

  /** The requesting user's Vote row for a question, if they have one. */
  function UserVote(ledger: map<VoteKey, VoteRow>, actor: Actor, question: QuestionId): (v: Option<VoteRow>)
    ensures v.Some? <==> actor.Authenticated? && VoteKey(actor.id, question) in ledger
    ensures v.Some? ==> actor.Authenticated? && v.value == ledger[VoteKey(actor.id, question)]
  {
    match actor
    case Anonymous => None
    case Authenticated(u) =>
      if VoteKey(u, question) in ledger then Some(ledger[VoteKey(u, question)]) else None
  }

  datatype QuestionPage = QuestionPage(question: Question, userVote: Option<VoteRow>)

  /** A question and the requester's Vote on it; None stands for "not found". */
  function ShowQuestion(questions: seq<Question>, ledger: map<VoteKey, VoteRow>, actor: Actor, id: QuestionId): Option<QuestionPage>
  {
    match FindQuestion(questions, id)
    case None => None
    case Some(q) => Some(QuestionPage(q, UserVote(ledger, actor, id)))
  }

  /** The detail page: not found unless the question exists; otherwise the
      question with the requester's Vote row, which is absent for an
      anonymous requester and for one who has not voted. */
  function Detail(questions: seq<Question>, ledger: map<VoteKey, VoteRow>, actor: Actor, id: QuestionId): (page: Option<QuestionPage>)
    ensures page.None? <==> !HasQuestion(questions, id)
    ensures page.Some? ==> page.value.question in questions && page.value.question.id == id
    ensures page.Some? ==>
      (page.value.userVote.Some? <==> actor.Authenticated? && VoteKey(actor.id, id) in ledger)
    ensures page.Some? && page.value.userVote.Some? ==>
      actor.Authenticated? && page.value.userVote.value == ledger[VoteKey(actor.id, id)]
  {
    ShowQuestion(questions, ledger, actor, id)
  }

  /** The results page looks the question and the requester's Vote up
      exactly as the detail page does. */
  function Results(questions: seq<Question>, ledger: map<VoteKey, VoteRow>, actor: Actor, id: QuestionId): (page: Option<QuestionPage>)
    ensures page.None? <==> !HasQuestion(questions, id)
    ensures page.Some? ==> page.value.question in questions && page.value.question.id == id
    ensures page.Some? ==>
      (page.value.userVote.Some? <==> actor.Authenticated? && VoteKey(actor.id, id) in ledger)
    ensures page.Some? && page.value.userVote.Some? ==>
      actor.Authenticated? && page.value.userVote.value == ledger[VoteKey(actor.id, id)]
  {
    ShowQuestion(questions, ledger, actor, id)
  }

  // ---------------------------------------------------------------------------
  // Vote submission

  /** What a vote request ends in. LoginRequired is the login-required
      redirect; QuestionNotFound the 404; NoChoiceSelected the detail page
      shown again with an error; Recorded and Updated the redirect to the
      results page after a first vote and after a changed vote. */
  datatype VoteOutcome = LoginRequired | QuestionNotFound | NoChoiceSelected | Recorded | Updated

  predicate Succeeded(o: VoteOutcome)
  {
    o == Recorded || o == Updated
  }

  datatype VoteResult = VoteResult(outcome: VoteOutcome, tables: Tables)

  /** The submitted `choice` field names one of the question's own choices. */
  predicate ValidSelection(t: Tables, question: QuestionId, field: Option<ChoiceId>)
  {
    field.Some? && field.value in t.choices && t.choices[field.value].question == question
  }

  /** Why a request is turned away before anything is written, if it is. */
  function Rejection(t: Tables, actor: Actor, question: QuestionId, field: Option<ChoiceId>): Option<VoteOutcome>
  {
    if actor.Anonymous? then Some(LoginRequired)
    else if !HasQuestion(t.questions, question) then Some(QuestionNotFound)
    else if !ValidSelection(t, question, field) then Some(NoChoiceSelected)
    else None
  }

  /** A first vote: create the row, then save the selected choice with its
      counter one above the copy loaded when it was looked up. */
  function FirstVote(t: Tables, key: VoteKey, selected: ChoiceId, now: int): Tables
    requires selected in t.choices
  {
    var sel := t.choices[selected];
    Tables(t.questions,
           t.choices[selected := sel.(votes := sel.votes + 1)],
           t.ledger[key := VoteRow(selected, now)])
  }

  /** A changed vote, in the order the code writes: load the selected
      choice; fetch the old choice through the row's foreign key and save
      it one lower; re-point the row; save the selected choice one above the
      copy loaded first. When both are the same choice the last save
      overwrites the decrement. */
  function Revote(t: Tables, key: VoteKey, selected: ChoiceId): Tables
    requires selected in t.choices && key in t.ledger && t.ledger[key].choice in t.choices
  {
    var sel := t.choices[selected];
    var oldId := t.ledger[key].choice;
    var oldChoice := t.choices[oldId];
    var afterOld := t.choices[oldId := oldChoice.(votes := oldChoice.votes - 1)];
    Tables(t.questions,
           afterOld[selected := sel.(votes := sel.votes + 1)],
           t.ledger[key := t.ledger[key].(choice := selected)])
  }

  /** A changed vote that reads the selected choice again after saving the
      old one, so that the increment applies to the saved counter. */
  function RevoteRefreshed(t: Tables, key: VoteKey, selected: ChoiceId): Tables
    requires selected in t.choices && key in t.ledger && t.ledger[key].choice in t.choices
  {
    var oldId := t.ledger[key].choice;
    var oldChoice := t.choices[oldId];
    var afterOld := t.choices[oldId := oldChoice.(votes := oldChoice.votes - 1)];
    var sel := afterOld[selected];
    Tables(t.questions,
           afterOld[selected := sel.(votes := sel.votes + 1)],
           t.ledger[key := t.ledger[key].(choice := selected)])
  }

  /** Each save of a first vote keeps the tables well formed, and keeps
      every row's choice inside the row's question when the selection
      belongs to the question. */
  lemma FirstVoteKeepsIntegrity(t: Tables, key: VoteKey, selected: ChoiceId, now: int)
    requires Integrity(t) && selected in t.choices && HasQuestion(t.questions, key.question)
    ensures Integrity(FirstVote(t, key, selected, now))
    ensures OnlyCountersDiffer(t.choices, FirstVote(t, key, selected, now).choices)
    ensures Consistent(t) && t.choices[selected].question == key.question ==>
      Consistent(FirstVote(t, key, selected, now))
  {
    var r := FirstVote(t, key, selected, now);
    var rowSaved := t.(ledger := r.ledger);
    RowWriteKeepsIntegrity(t, key, VoteRow(selected, now));
    CounterWritesKeepIntegrity(rowSaved, r.choices);
    assert r == rowSaved.(choices := r.choices);
  }

  /** The same for the saves of a changed vote. */
  lemma RevoteKeepsIntegrity(t: Tables, key: VoteKey, selected: ChoiceId)
    requires Integrity(t) && selected in t.choices && key in t.ledger
    ensures Integrity(Revote(t, key, selected))
    ensures OnlyCountersDiffer(t.choices, Revote(t, key, selected).choices)
    ensures Consistent(t) && t.choices[selected].question == key.question ==>
      Consistent(Revote(t, key, selected))
  {
    var r := Revote(t, key, selected);
    var rowSaved := t.(ledger := r.ledger);
    RowWriteKeepsIntegrity(t, key, t.ledger[key].(choice := selected));
    CounterWritesKeepIntegrity(rowSaved, r.choices);
    assert r == rowSaved.(choices := r.choices);
  }

  /** The same for the saves of a changed vote that reads again. */
  lemma RevoteRefreshedKeepsIntegrity(t: Tables, key: VoteKey, selected: ChoiceId)
    requires Integrity(t) && selected in t.choices && key in t.ledger
    ensures Integrity(RevoteRefreshed(t, key, selected))
    ensures OnlyCountersDiffer(t.choices, RevoteRefreshed(t, key, selected).choices)
    ensures Consistent(t) && t.choices[selected].question == key.question ==>
      Consistent(RevoteRefreshed(t, key, selected))
  {
    var r := RevoteRefreshed(t, key, selected);
    var rowSaved := t.(ledger := r.ledger);
    RowWriteKeepsIntegrity(t, key, t.ledger[key].(choice := selected));
    CounterWritesKeepIntegrity(rowSaved, r.choices);
    assert r == rowSaved.(choices := r.choices);
  }

  /** A vote request as the vote view handles it. */
  function CastVote(t: Tables, actor: Actor, question: QuestionId, field: Option<ChoiceId>, now: int): (r: VoteResult)
    requires Integrity(t)
    ensures Integrity(r.tables)
    ensures r.outcome == LoginRequired <==> actor.Anonymous?
    ensures r.outcome == QuestionNotFound <==> actor.Authenticated? && !HasQuestion(t.questions, question)
    ensures r.outcome == NoChoiceSelected <==>
      actor.Authenticated? && HasQuestion(t.questions, question) && !ValidSelection(t, question, field)
    ensures !Succeeded(r.outcome) ==> r.tables == t
    ensures Succeeded(r.outcome) ==>
      actor.Authenticated? && field.Some? &&
      VoteKey(actor.id, question) in r.tables.ledger &&
      r.tables.ledger[VoteKey(actor.id, question)].choice == field.value
    ensures r.tables.questions == t.questions
  {
    match Rejection(t, actor, question, field)
    case Some(outcome) => VoteResult(outcome, t)
    case None =>
      var key := VoteKey(actor.id, question);
      if key in t.ledger then
        RevoteKeepsIntegrity(t, key, field.value);
        VoteResult(Updated, Revote(t, key, field.value))
      else
        FirstVoteKeepsIntegrity(t, key, field.value, now);
        VoteResult(Recorded, FirstVote(t, key, field.value, now))
  }

  /** A vote request with the re-read that the counter invariant needs. */
  function CastVoteIntended(t: Tables, actor: Actor, question: QuestionId, field: Option<ChoiceId>, now: int): (r: VoteResult)
    requires Integrity(t)
    ensures r.outcome == CastVote(t, actor, question, field, now).outcome
    ensures r.tables.ledger == CastVote(t, actor, question, field, now).tables.ledger
    ensures r.tables.questions == t.questions
    ensures r.tables.choices.Keys == t.choices.Keys
    ensures Integrity(r.tables)
  {
    match Rejection(t, actor, question, field)
    case Some(outcome) => VoteResult(outcome, t)
    case None =>
      var key := VoteKey(actor.id, question);
      if key in t.ledger then
        RevoteRefreshedKeepsIntegrity(t, key, field.value);
        VoteResult(Updated, RevoteRefreshed(t, key, field.value))
      else
        FirstVoteKeepsIntegrity(t, key, field.value, now);
        VoteResult(Recorded, FirstVote(t, key, field.value, now))
  }

  // ---------------------------------------------------------------------------
  // The store

  /** The three tables as the vote view updates them in place, one save at a time. */
  class PollDb {
    var questions: seq<Question>
    var choices: map<ChoiceId, Choice>
    var ledger: map<VoteKey, VoteRow>

    function State(): Tables
      reads this
    {
      Tables(questions, choices, ledger)
    }

    constructor (t: Tables)
      requires Integrity(t)
      ensures State() == t
    {
      questions, choices, ledger := t.questions, t.choices, t.ledger;
    }

    /** The vote view. `field` is the submitted `choice` field, None when
        it is missing; `now` is the time a new Vote row gets. */
    method Vote(actor: Actor, question: QuestionId, field: Option<ChoiceId>, now: int) returns (outcome: VoteOutcome)
      requires Integrity(State())
      modifies this
      ensures Integrity(State())
      ensures VoteResult(outcome, State()) == CastVote(old(State()), actor, question, field, now)
    {
      ghost var before := State();
      if actor.Anonymous? {
        return LoginRequired;
      }
      var q := FindQuestion(questions, question);
      if q.None? {
        return QuestionNotFound;
      }
      if field.None? || field.value !in choices || choices[field.value].question != question {
        return NoChoiceSelected;
      }
      assert Rejection(before, actor, question, field) == None;
      var key := VoteKey(actor.id, question);
      var existing := UserVote(ledger, actor, question);
      if existing.Some? {
        SaveRevote(key, field.value);
        outcome := Updated;
      } else {
        SaveFirstVote(key, field.value, now);
        outcome := Recorded;
      }
    }

    /** The vote view with the selected choice read again after the old
        choice is saved. */
    method VoteRefreshed(actor: Actor, question: QuestionId, field: Option<ChoiceId>, now: int) returns (outcome: VoteOutcome)
      requires Integrity(State())
      modifies this
      ensures Integrity(State())
      ensures VoteResult(outcome, State()) == CastVoteIntended(old(State()), actor, question, field, now)
    {
      ghost var before := State();
      if actor.Anonymous? {
        return LoginRequired;
      }
      var q := FindQuestion(questions, question);
      if q.None? {
        return QuestionNotFound;
      }
      if field.None? || field.value !in choices || choices[field.value].question != question {
        return NoChoiceSelected;
      }
      assert Rejection(before, actor, question, field) == None;
      var key := VoteKey(actor.id, question);
      var existing := UserVote(ledger, actor, question);
      if existing.Some? {
        SaveRevoteRefreshed(key, field.value);
        outcome := Updated;
      } else {
        SaveFirstVote(key, field.value, now);
        outcome := Recorded;
      }
    }

    /** The saves of a first vote: the new row, then the selected choice. */
    method SaveFirstVote(key: VoteKey, selectedId: ChoiceId, now: int)
      requires selectedId in choices
      modifies this
      ensures State() == FirstVote(old(State()), key, selectedId, now)
    {
      var selected := choices[selectedId];
      ledger := ledger[key := VoteRow(selectedId, now)];
      selected := selected.(votes := selected.votes + 1);
      choices := choices[selectedId := selected];
    }

    /** The saves of a changed vote, with the selected choice loaded before
        the old choice is saved. */
    method SaveRevote(key: VoteKey, selectedId: ChoiceId)
      requires selectedId in choices && key in ledger && ledger[key].choice in choices
      modifies this
      ensures State() == Revote(old(State()), key, selectedId)
    {
      var selected := choices[selectedId];
      var row := ledger[key];
      var oldChoice := choices[row.choice];
      oldChoice := oldChoice.(votes := oldChoice.votes - 1);
      choices := choices[row.choice := oldChoice];
      ledger := ledger[key := row.(choice := selectedId)];
      selected := selected.(votes := selected.votes + 1);
      choices := choices[selectedId := selected];
    }

    /** The saves of a changed vote, with the selected choice loaded after
        the old choice is saved. */
    method SaveRevoteRefreshed(key: VoteKey, selectedId: ChoiceId)
      requires selectedId in choices && key in ledger && ledger[key].choice in choices
      modifies this
      ensures State() == RevoteRefreshed(old(State()), key, selectedId)
    {
      var row := ledger[key];
      var oldChoice := choices[row.choice];
      oldChoice := oldChoice.(votes := oldChoice.votes - 1);
      choices := choices[row.choice := oldChoice];
      ledger := ledger[key := row.(choice := selectedId)];
      var selected := choices[selectedId];
      selected := selected.(votes := selected.votes + 1);
      choices := choices[selectedId := selected];
    }
  }
}
