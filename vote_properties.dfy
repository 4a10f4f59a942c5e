/** What a vote request does to the store: which rows it may change, how
    each kind of successful request moves the counters, when the counters
    stay equal to the ledger tallies, and the one case in which the view as
    written lets them drift apart. */
module VoteProperties {
  import opened Models
  import opened Views

  /** A request to vote again for the choice the user's row already names. */
  predicate SameChoiceRevote(t: Tables, actor: Actor, question: QuestionId, field: Option<ChoiceId>)
  {
    actor.Authenticated? && field.Some? &&
    VoteKey(actor.id, question) in t.ledger && t.ledger[VoteKey(actor.id, question)].choice == field.value
  }

  /** The requester's key for the question, if the requester is signed in. */
  function RequesterKeys(actor: Actor, question: QuestionId): set<VoteKey>
  {
    if actor.Authenticated? then {VoteKey(actor.id, question)} else {}
  }

  /** A vote never removes a row, never adds a row other than the
      requester's for this question, never changes the row of another user
      or of another question, and never adds or removes a choice. */
  lemma VoteTouchesOnlyOwnRow(t: Tables, actor: Actor, question: QuestionId, field: Option<ChoiceId>, now: int)
    requires Integrity(t)
    ensures var r := CastVote(t, actor, question, field, now).tables;
      && r.choices.Keys == t.choices.Keys
      && t.ledger.Keys <= r.ledger.Keys <= t.ledger.Keys + RequesterKeys(actor, question)
      && forall k :: k in t.ledger && k !in RequesterKeys(actor, question) ==> r.ledger[k] == t.ledger[k]
  {
  }

  /** A vote changes no choice's question or text, only counters. */
  lemma VoteChangesOnlyCounters(t: Tables, actor: Actor, question: QuestionId, field: Option<ChoiceId>, now: int)
    requires Integrity(t)
    ensures OnlyCountersDiffer(t.choices, CastVote(t, actor, question, field, now).tables.choices)
  {
    if Rejection(t, actor, question, field).None? {
      var key := VoteKey(actor.id, question);
      if key in t.ledger {
        RevoteKeepsIntegrity(t, key, field.value);
      } else {
        FirstVoteKeepsIntegrity(t, key, field.value, now);
      }
    }
  }

  /** A vote keeps every Vote row consistent with its question. */
  lemma VoteKeepsConsistent(t: Tables, actor: Actor, question: QuestionId, field: Option<ChoiceId>, now: int)
    requires Consistent(t)
    ensures Consistent(CastVote(t, actor, question, field, now).tables)
  {
  }

  /** The corrected vote keeps every Vote row consistent with its question. */
  lemma IntendedVoteKeepsConsistent(t: Tables, actor: Actor, question: QuestionId, field: Option<ChoiceId>, now: int)
    requires Consistent(t)
    ensures Consistent(CastVoteIntended(t, actor, question, field, now).tables)
  {
    if Rejection(t, actor, question, field).None? {
      var key := VoteKey(actor.id, question);
      if key in t.ledger {
        RevoteRefreshedKeepsIntegrity(t, key, field.value);
      } else {
        FirstVoteKeepsIntegrity(t, key, field.value, now);
      }
    }
  }

  /** A first vote creates the row, with the request's time, and raises the
      selected counter by exactly one; every other counter and every other
      row stays as it was. */
  lemma FirstVoteAddsOne(t: Tables, u: UserId, question: QuestionId, c: ChoiceId, now: int)
    requires Integrity(t) && HasQuestion(t.questions, question) && ValidSelection(t, question, Some(c))
    requires VoteKey(u, question) !in t.ledger
    ensures var r := CastVote(t, Authenticated(u), question, Some(c), now);
      && r.outcome == Recorded
      && r.tables.ledger == t.ledger[VoteKey(u, question) := VoteRow(c, now)]
      && |r.tables.ledger| == |t.ledger| + 1
      && r.tables.choices[c].votes == t.choices[c].votes + 1
      && (forall d :: d in t.choices && d != c ==> r.tables.choices[d] == t.choices[d])
      && Tally(r.tables.ledger, c) == Tally(t.ledger, c) + 1
      && (forall d :: d != c ==> Tally(r.tables.ledger, d) == Tally(t.ledger, d))
      && QuestionVotes(r.tables.choices, question) == QuestionVotes(t.choices, question) + 1
  {
    var key := VoteKey(u, question);
    var r := CastVote(t, Authenticated(u), question, Some(c), now);
    assert r.tables == FirstVote(t, key, c, now);
    forall d ensures Tally(r.tables.ledger, d) == Tally(t.ledger, d) + Indicator(c == d) {
      TallyAfterWrite(t.ledger, key, VoteRow(c, now), d);
    }
    QuestionVotesAfterWrite(t.choices, c, t.choices[c].(votes := t.choices[c].votes + 1), question);
  }

  /** A changed vote re-points the row, keeping its time, lowers the old
      choice's counter by one and raises the new one's by one; no other
      counter changes and the number of rows stays the same. */
  lemma RevoteMovesOneCount(t: Tables, u: UserId, question: QuestionId, c: ChoiceId, now: int)
    requires Integrity(t) && HasQuestion(t.questions, question) && ValidSelection(t, question, Some(c))
    requires VoteKey(u, question) in t.ledger && t.ledger[VoteKey(u, question)].choice != c
    ensures var key := VoteKey(u, question);
      var was := t.ledger[key].choice;
      var r := CastVote(t, Authenticated(u), question, Some(c), now);
      && r.outcome == Updated
      && r.tables.ledger == t.ledger[key := VoteRow(c, t.ledger[key].votedAt)]
      && |r.tables.ledger| == |t.ledger|
      && r.tables.choices[was].votes == t.choices[was].votes - 1
      && r.tables.choices[c].votes == t.choices[c].votes + 1
      && (forall d :: d in t.choices && d != c && d != was ==> r.tables.choices[d] == t.choices[d])
  {
    var key := VoteKey(u, question);
    var was := t.ledger[key].choice;
    var r := CastVote(t, Authenticated(u), question, Some(c), now);
    assert r.tables == Revote(t, key, c);
    assert r.tables.choices ==
      t.choices[was := t.choices[was].(votes := t.choices[was].votes - 1)][c := t.choices[c].(votes := t.choices[c].votes + 1)];
    assert r.tables.ledger == t.ledger[key := VoteRow(c, t.ledger[key].votedAt)];
  }

  /** The same request moves one row from the old choice's tally to the new
      one's, and no other tally changes. */
  lemma RevoteMovesOneTally(t: Tables, u: UserId, question: QuestionId, c: ChoiceId, now: int)
    requires Integrity(t) && HasQuestion(t.questions, question) && ValidSelection(t, question, Some(c))
    requires VoteKey(u, question) in t.ledger && t.ledger[VoteKey(u, question)].choice != c
    ensures var key := VoteKey(u, question);
      var was := t.ledger[key].choice;
      var r := CastVote(t, Authenticated(u), question, Some(c), now);
      && Tally(r.tables.ledger, was) == Tally(t.ledger, was) - 1
      && Tally(r.tables.ledger, c) == Tally(t.ledger, c) + 1
      && (forall d :: d != c && d != was ==> Tally(r.tables.ledger, d) == Tally(t.ledger, d))
  {
    var key := VoteKey(u, question);
    var was := t.ledger[key].choice;
    var r := CastVote(t, Authenticated(u), question, Some(c), now);
    assert r.tables == Revote(t, key, c);
    forall d ensures Tally(r.tables.ledger, d) == Tally(t.ledger, d) - Indicator(was == d) + Indicator(c == d) {
      TallyAfterWrite(t.ledger, key, VoteRow(c, t.ledger[key].votedAt), d);
    }
  }

  /** A changed vote moves one count between two choices of the same
      question, so no question's total changes. */
  lemma RevoteKeepsQuestionTotals(t: Tables, u: UserId, question: QuestionId, c: ChoiceId, now: int)
    requires Consistent(t) && HasQuestion(t.questions, question) && ValidSelection(t, question, Some(c))
    requires VoteKey(u, question) in t.ledger && t.ledger[VoteKey(u, question)].choice != c
    ensures var r := CastVote(t, Authenticated(u), question, Some(c), now);
      forall q :: QuestionVotes(r.tables.choices, q) == QuestionVotes(t.choices, q)
  {
    var key := VoteKey(u, question);
    var was := t.ledger[key].choice;
    var r := CastVote(t, Authenticated(u), question, Some(c), now);
    assert r.tables == Revote(t, key, c);
    var afterOld := t.choices[was := t.choices[was].(votes := t.choices[was].votes - 1)];
    forall q ensures QuestionVotes(r.tables.choices, q) == QuestionVotes(t.choices, q) {
      QuestionVotesAfterWrite(t.choices, was, afterOld[was], q);
      QuestionVotesAfterWrite(afterOld, c, t.choices[c].(votes := t.choices[c].votes + 1), q);
    }
  }

  /** The counters stay equal to the ledger tallies across every request
      except a re-vote for the choice already held. */
  lemma VoteKeepsCountersMatching(t: Tables, actor: Actor, question: QuestionId, field: Option<ChoiceId>, now: int)
    requires Integrity(t) && CountersMatch(t)
    requires !SameChoiceRevote(t, actor, question, field)
    ensures CountersMatch(CastVote(t, actor, question, field, now).tables)
  {
    var r := CastVote(t, actor, question, field, now);
    if Succeeded(r.outcome) {
      var key := VoteKey(actor.id, question);
      var c := field.value;
      if key in t.ledger {
        var was := t.ledger[key].choice;
        assert r.tables == Revote(t, key, c);
        forall d | d in r.tables.choices ensures r.tables.choices[d].votes == Tally(r.tables.ledger, d) {
          TallyAfterWrite(t.ledger, key, t.ledger[key].(choice := c), d);
        }
      } else {
        assert r.tables == FirstVote(t, key, c, now);
        forall d | d in r.tables.choices ensures r.tables.choices[d].votes == Tally(r.tables.ledger, d) {
          TallyAfterWrite(t.ledger, key, VoteRow(c, now), d);
        }
      }
    }
  }

  /** A re-vote for the choice already held, as written, re-saves the row
      unchanged and saves the choice one above the copy loaded at the start. */
  lemma SameChoiceRevoteTables(t: Tables, key: VoteKey, c: ChoiceId)
    requires c in t.choices && key in t.ledger && t.ledger[key].choice == c
    ensures Revote(t, key, c) == t.(choices := t.choices[c := t.choices[c].(votes := t.choices[c].votes + 1)])
  {
    assert t.ledger[key := t.ledger[key].(choice := c)] == t.ledger;
  }

  /** A re-vote for the choice already held leaves the ledger as it was but
      saves that choice's counter one higher: the copy loaded before the
      decrement was saved overwrites it. Counters that matched the tallies no
      longer do. */
  lemma SameChoiceRevoteDrift(t: Tables, u: UserId, question: QuestionId, c: ChoiceId, now: int)
    requires Integrity(t) && CountersMatch(t)
    requires HasQuestion(t.questions, question) && ValidSelection(t, question, Some(c))
    requires VoteKey(u, question) in t.ledger && t.ledger[VoteKey(u, question)].choice == c
    ensures var r := CastVote(t, Authenticated(u), question, Some(c), now);
      && r.outcome == Updated
      && r.tables.ledger == t.ledger
      && r.tables.choices[c].votes == t.choices[c].votes + 1
      && r.tables.choices[c].votes == Tally(r.tables.ledger, c) + 1
      && !CountersMatch(r.tables)
  {
    var key := VoteKey(u, question);
    assert CastVote(t, Authenticated(u), question, Some(c), now).tables == Revote(t, key, c);
    SameChoiceRevoteTables(t, key, c);
  }

  /** The same request grows its question's total by one. */
  lemma SameChoiceRevoteGrowsTotal(t: Tables, u: UserId, question: QuestionId, c: ChoiceId, now: int)
    requires Integrity(t)
    requires HasQuestion(t.questions, question) && ValidSelection(t, question, Some(c))
    requires VoteKey(u, question) in t.ledger && t.ledger[VoteKey(u, question)].choice == c
    ensures QuestionVotes(CastVote(t, Authenticated(u), question, Some(c), now).tables.choices, question) ==
            QuestionVotes(t.choices, question) + 1
  {
    var key := VoteKey(u, question);
    assert CastVote(t, Authenticated(u), question, Some(c), now).tables == Revote(t, key, c);
    SameChoiceRevoteTables(t, key, c);
    QuestionVotesAfterWrite(t.choices, c, t.choices[c].(votes := t.choices[c].votes + 1), question);
  }

  /** With the selected choice read again after the old one is saved, every
      request keeps the counters equal to the tallies. */
  lemma IntendedVoteKeepsCountersMatching(t: Tables, actor: Actor, question: QuestionId, field: Option<ChoiceId>, now: int)
    requires Integrity(t) && CountersMatch(t)
    ensures CountersMatch(CastVoteIntended(t, actor, question, field, now).tables)
  {
    var r := CastVoteIntended(t, actor, question, field, now);
    if Succeeded(r.outcome) {
      var key := VoteKey(actor.id, question);
      if key in t.ledger {
        assert r.tables == RevoteRefreshed(t, key, field.value);
        RefreshedRevoteKeepsCountersMatching(t, key, field.value);
      } else {
        VoteKeepsCountersMatching(t, actor, question, field, now);
      }
    }
  }

  /** With the re-read, a re-vote for the choice already held changes nothing. */
  lemma IntendedSameChoiceRevoteChangesNothing(t: Tables, actor: Actor, question: QuestionId, field: Option<ChoiceId>, now: int)
    requires Integrity(t) && SameChoiceRevote(t, actor, question, field)
    ensures CastVoteIntended(t, actor, question, field, now).tables == t
  {
    var key := VoteKey(actor.id, question);
    if Rejection(t, actor, question, field).None? {
      assert CastVoteIntended(t, actor, question, field, now).tables == RevoteRefreshed(t, key, field.value);
      RefreshedRevoteUnchanged(t, key, field.value);
    }
  }

  lemma RefreshedRevoteUnchanged(t: Tables, key: VoteKey, c: ChoiceId)
    requires c in t.choices && key in t.ledger && t.ledger[key].choice == c
    ensures RevoteRefreshed(t, key, c) == t
  {
    assert t.ledger[key := t.ledger[key].(choice := c)] == t.ledger;
    assert RevoteRefreshed(t, key, c).choices == t.choices;
  }

  lemma RefreshedRevoteKeepsCountersMatching(t: Tables, key: VoteKey, c: ChoiceId)
    requires Integrity(t) && CountersMatch(t) && c in t.choices && key in t.ledger
    ensures CountersMatch(RevoteRefreshed(t, key, c))
  {
    var r := RevoteRefreshed(t, key, c);
    if t.ledger[key].choice == c {
      RefreshedRevoteUnchanged(t, key, c);
    } else {
      forall d | d in r.choices ensures r.choices[d].votes == Tally(r.ledger, d) {
        TallyAfterWrite(t.ledger, key, t.ledger[key].(choice := c), d);
      }
    }
  }

  // ---------------------------------------------------------------------------
  // Runs of requests

  datatype Request = Request(actor: Actor, question: QuestionId, field: Option<ChoiceId>, now: int)

  /** The store after serving the requests one after the other, as written. */
  function Replay(t: Tables, requests: seq<Request>): (r: Tables)
    requires Integrity(t)
    ensures Integrity(r)
    ensures r.questions == t.questions
    decreases |requests|
  {
    if requests == [] then t
    else
      var q := requests[0];
      Replay(CastVote(t, q.actor, q.question, q.field, q.now).tables, requests[1..])
  }

  /** No request of the run re-votes for the choice its user already holds
      at the moment it is served. */
  predicate NoSameChoiceRevotes(t: Tables, requests: seq<Request>)
    requires Integrity(t)
    decreases |requests|
  {
    requests == [] ||
    (var q := requests[0];
     !SameChoiceRevote(t, q.actor, q.question, q.field) &&
     NoSameChoiceRevotes(CastVote(t, q.actor, q.question, q.field, q.now).tables, requests[1..]))
  }

  lemma {:induction false} ReplayKeepsCountersMatching(t: Tables, requests: seq<Request>)
    requires Integrity(t) && CountersMatch(t) && NoSameChoiceRevotes(t, requests)
    ensures CountersMatch(Replay(t, requests))
    decreases |requests|
  {
    if requests != [] {
      var q := requests[0];
      VoteKeepsCountersMatching(t, q.actor, q.question, q.field, q.now);
      ReplayKeepsCountersMatching(CastVote(t, q.actor, q.question, q.field, q.now).tables, requests[1..]);
    }
  }

  /** The store after serving the requests with the corrected re-vote. */
  function ReplayIntended(t: Tables, requests: seq<Request>): (r: Tables)
    requires Integrity(t)
    ensures Integrity(r)
    ensures r.questions == t.questions
    decreases |requests|
  {
    if requests == [] then t
    else
      var q := requests[0];
      ReplayIntended(CastVoteIntended(t, q.actor, q.question, q.field, q.now).tables, requests[1..])
  }

  lemma {:induction false} ReplayIntendedKeepsCountersMatching(t: Tables, requests: seq<Request>)
    requires Integrity(t) && CountersMatch(t)
    ensures CountersMatch(ReplayIntended(t, requests))
    decreases |requests|
  {
    if requests != [] {
      var q := requests[0];
      IntendedVoteKeepsCountersMatching(t, q.actor, q.question, q.field, q.now);
      ReplayIntendedKeepsCountersMatching(CastVoteIntended(t, q.actor, q.question, q.field, q.now).tables, requests[1..]);
    }
  }
}
