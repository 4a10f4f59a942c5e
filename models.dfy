/** The tables of the poll application: questions, the choices of each
    question with a denormalised vote counter, and the vote ledger that holds
    one row per (user, question). Also the schema's declared rules: field
    length limits, the counter's default, uniqueness, and what each
    cascading delete removes. */
module Models {
  import Ordering

  datatype Option<T> = None | Some(value: T)

  type QuestionId = int
  type ChoiceId = int
  type UserId = int

  /** Declared `max_length` of `question_text` and of `choice_text`. */
  const MaxQuestionText := 300
  const MaxChoiceText := 200

  /** A Question row; the publication date is an integer timestamp. */
  datatype Question = Question(id: QuestionId, text: string, pubDate: int)

  /** A Choice row: its question (foreign key), its text and its vote counter. */
  datatype Choice = Choice(question: QuestionId, text: string, votes: int)

  /** The pair a Vote row is unique on. Being the key of the ledger map,
      there is at most one row per pair by construction. */
  datatype VoteKey = VoteKey(user: UserId, question: QuestionId)

  /** The rest of a Vote row: the chosen choice (foreign key) and the time
      the row was created. */
  datatype VoteRow = VoteRow(choice: ChoiceId, votedAt: int)

  /** The whole store. Questions are kept as rows in creation order. */
  datatype Tables = Tables(
    questions: seq<Question>,
    choices: map<ChoiceId, Choice>,
    ledger: map<VoteKey, VoteRow>)

  predicate HasQuestion(questions: seq<Question>, id: QuestionId)
  {
    exists q :: q in questions && q.id == id
  }

  /** The question row with the given primary key, if there is one. */
  function FindQuestion(questions: seq<Question>, id: QuestionId): (r: Option<Question>)
    ensures r.Some? <==> HasQuestion(questions, id)
    ensures r.Some? ==> r.value in questions && r.value.id == id
  {
    if questions == [] then None
    else if questions[0].id == id then Some(questions[0])
    else
      var rest := FindQuestion(questions[1..], id);
      assert forall q :: q in questions && q != questions[0] ==> q in questions[1..];
      rest
  }

  predicate DistinctIds(questions: seq<Question>)
  {
    forall i, j :: 0 <= i < j < |questions| ==> questions[i].id != questions[j].id
  }

  /** What the schema guarantees: unique primary keys, text within the
      declared lengths, and every foreign key pointing at an existing row. */
  predicate Integrity(t: Tables)
  {
    && DistinctIds(t.questions)
    && (forall q :: q in t.questions ==> |q.text| <= MaxQuestionText)
    && (forall c :: c in t.choices ==>
          |t.choices[c].text| <= MaxChoiceText && HasQuestion(t.questions, t.choices[c].question))
    && (forall k :: k in t.ledger ==>
          HasQuestion(t.questions, k.question) && t.ledger[k].choice in t.choices)
  }

  /** Beyond the schema: every Vote's choice belongs to the Vote's question.
      The vote view keeps this, since it only takes choices from the
      question's own choice set. */
  predicate Consistent(t: Tables)
  {
    Integrity(t) &&
    forall k :: k in t.ledger ==> t.choices[t.ledger[k].choice].question == k.question
  }

  /** The two choice tables hold the same choices, each with the same
      question and text; only vote counters may differ. */
  predicate OnlyCountersDiffer(a: map<ChoiceId, Choice>, b: map<ChoiceId, Choice>)
  {
    a.Keys == b.Keys && forall c :: c in a ==> b[c] == a[c].(votes := b[c].votes)
  }

  /** Saving choices with only their counters changed keeps the schema's guarantees. */
  lemma CounterWritesKeepIntegrity(t: Tables, choices: map<ChoiceId, Choice>)
    requires Integrity(t) && OnlyCountersDiffer(t.choices, choices)
    ensures Integrity(t.(choices := choices))
    ensures Consistent(t) ==> Consistent(t.(choices := choices))
  {
    var r := t.(choices := choices);
    forall d | d in r.choices
      ensures |r.choices[d].text| <= MaxChoiceText && HasQuestion(r.questions, r.choices[d].question)
    {
      assert r.choices[d].text == t.choices[d].text && r.choices[d].question == t.choices[d].question;
    }
  }

  /** Saving a Vote row whose question exists and whose choice exists keeps
      the schema's guarantees; if the choice belongs to that question it
      also keeps every Vote consistent with its choice. */
  lemma RowWriteKeepsIntegrity(t: Tables, k: VoteKey, row: VoteRow)
    requires Integrity(t) && HasQuestion(t.questions, k.question) && row.choice in t.choices
    ensures Integrity(t.(ledger := t.ledger[k := row]))
    ensures Consistent(t) && t.choices[row.choice].question == k.question ==>
      Consistent(t.(ledger := t.ledger[k := row]))
  {
  }

  /** The keys of the ledger rows that reference choice `c`. */
  function Referencing(ledger: map<VoteKey, VoteRow>, c: ChoiceId): (s: set<VoteKey>)
    ensures forall k :: k in s <==> k in ledger && ledger[k].choice == c
  {
    set k | k in ledger && ledger[k].choice == c
  }

  /** The number of ledger rows that reference choice `c`. */
  function Tally(ledger: map<VoteKey, VoteRow>, c: ChoiceId): nat
  {
    |Referencing(ledger, c)|
  }

  /** The intended invariant of the denormalised counters. */
  predicate CountersMatch(t: Tables)
  {
    forall c :: c in t.choices ==> t.choices[c].votes == Tally(t.ledger, c)
  }

  function Indicator(b: bool): int
  {
    if b then 1 else 0
  }

  /** Writing one ledger row changes the tally of the choice it used to
      reference and of the choice it now references, by one each, and no
      other tally. */
  lemma TallyAfterWrite(ledger: map<VoteKey, VoteRow>, k: VoteKey, row: VoteRow, c: ChoiceId)
    ensures Tally(ledger[k := row], c) ==
            Tally(ledger, c) - Indicator(k in ledger && ledger[k].choice == c) + Indicator(row.choice == c)
  {
    var before := Referencing(ledger, c);
    var after := Referencing(ledger[k := row], c);
    ReferencingAfterWrite(ledger, k, row, c);
    CardinalityWithout(before, k);
    CardinalityWithout(after, k);
    assert (k in before) == (k in ledger && ledger[k].choice == c);
    assert (k in after) == (row.choice == c);
  }

  /** Apart from the written key, the same rows reference `c` before and after. */
  lemma ReferencingAfterWrite(ledger: map<VoteKey, VoteRow>, k: VoteKey, row: VoteRow, c: ChoiceId)
    ensures Referencing(ledger[k := row], c) - {k} == Referencing(ledger, c) - {k}
  {
    var before := Referencing(ledger, c);
    var after := Referencing(ledger[k := row], c);
    forall x | x in after - {k} ensures x in before - {k} {
      assert x != k && x in ledger[k := row] && ledger[k := row][x].choice == c;
    }
    forall x | x in before - {k} ensures x in after - {k} {
      assert x != k && x in ledger && ledger[x].choice == c;
    }
  }

  lemma CardinalityWithout<T>(s: set<T>, x: T)
    ensures |s| == |s - {x}| + Indicator(x in s)
  {
    if x in s {
      assert s == (s - {x}) + {x};
    } else {
      assert s == s - {x};
    }
  }

  lemma HasSomeKey<K, V>(m: map<K, V>)
    requires m != map[]
    ensures exists k :: k in m
  {
    if forall k :: k !in m {
      assert false;
    }
  }

  /** Some key of a non-empty map. */
  ghost function SomeKey<K, V>(m: map<K, V>): (k: K)
    requires m != map[]
    ensures k in m
  {
    HasSomeKey(m);
    var k :| k in m;
    k
  }

  /** The votes of choice `c` counted towards question `q`. */
  function Share(c: Choice, q: QuestionId): int
  {
    if c.question == q then c.votes else 0
  }

  /** Total of the counters of the choices of question `q`. */
  ghost function QuestionVotes(choices: map<ChoiceId, Choice>, q: QuestionId): int
    decreases |choices|
  {
    if choices == map[] then 0
    else
      var id := SomeKey(choices);
      assert (choices - {id}).Keys == choices.Keys - {id};
      Share(choices[id], q) + QuestionVotes(choices - {id}, q)
  }

  /** The total can be taken apart at any choice, not only at the one its
      definition picks. */
  lemma {:induction false} QuestionVotesSplit(choices: map<ChoiceId, Choice>, id: ChoiceId, q: QuestionId)
    requires id in choices
    ensures QuestionVotes(choices, q) == Share(choices[id], q) + QuestionVotes(choices - {id}, q)
    decreases |choices|
  {
    var pick := SomeKey(choices);
    if pick != id {
      assert (choices - {pick}).Keys == choices.Keys - {pick};
      assert (choices - {id}).Keys == choices.Keys - {id};
      QuestionVotesSplit(choices - {pick}, id, q);
      QuestionVotesSplit(choices - {id}, pick, q);
      assert choices - {pick} - {id} == choices - {id} - {pick};
    }
  }

  /** Rewriting one choice changes its question's total by the change of
      that choice's share, and nothing else. */
  lemma QuestionVotesAfterWrite(choices: map<ChoiceId, Choice>, id: ChoiceId, c: Choice, q: QuestionId)
    requires id in choices
    ensures QuestionVotes(choices[id := c], q) == QuestionVotes(choices, q) - Share(choices[id], q) + Share(c, q)
  {
    QuestionVotesSplit(choices, id, q);
    QuestionVotesSplit(choices[id := c], id, q);
    assert choices[id := c] - {id} == choices - {id};
  }

  // ---------------------------------------------------------------------------
  // Creating rows

  datatype CreateError = DuplicateId | UnknownQuestion | TextTooLong

  datatype Created = Created(tables: Tables) | Rejected(error: CreateError)

  /** Creating a Question: the id must be new and the text within its declared length. */
  function AddQuestion(t: Tables, id: QuestionId, text: string, pubDate: int): (r: Created)
    ensures r.Rejected? <==> HasQuestion(t.questions, id) || |text| > MaxQuestionText
    ensures r.Created? ==>
      r.tables == Tables(t.questions + [Question(id, text, pubDate)], t.choices, t.ledger)
    ensures r.Created? && Integrity(t) ==> Integrity(r.tables)
    ensures r.Created? && CountersMatch(t) ==> CountersMatch(r.tables)
  {
    if HasQuestion(t.questions, id) then Rejected(DuplicateId)
    else if |text| > MaxQuestionText then Rejected(TextTooLong)
    else
      var qs := t.questions + [Question(id, text, pubDate)];
      assert forall q :: q in t.questions ==> q in qs;
      Created(Tables(qs, t.choices, t.ledger))
  }

  /** Creating a Choice: its counter starts at the declared default, 0. */
  function AddChoice(t: Tables, id: ChoiceId, question: QuestionId, text: string): (r: Created)
    ensures r.Rejected? <==>
      id in t.choices || !HasQuestion(t.questions, question) || |text| > MaxChoiceText
    ensures r.Created? ==> r.tables.questions == t.questions && r.tables.ledger == t.ledger
    ensures r.Created? ==> r.tables.choices == t.choices[id := Choice(question, text, 0)]
  {
    if id in t.choices then Rejected(DuplicateId)
    else if !HasQuestion(t.questions, question) then Rejected(UnknownQuestion)
    else if |text| > MaxChoiceText then Rejected(TextTooLong)
    else Created(Tables(t.questions, t.choices[id := Choice(question, text, 0)], t.ledger))
  }

  /** A new choice has no ledger rows yet, so its counter's default of 0
      keeps the counters equal to the tallies. */
  lemma AddChoiceKeepsCountersMatching(t: Tables, id: ChoiceId, question: QuestionId, text: string)
    requires Integrity(t) && CountersMatch(t)
    requires AddChoice(t, id, question, text).Created?
    ensures Integrity(AddChoice(t, id, question, text).tables)
    ensures CountersMatch(AddChoice(t, id, question, text).tables)
  {
    var r := AddChoice(t, id, question, text).tables;
    assert (set k | k in t.ledger && t.ledger[k].choice == id) == {};
    forall c | c in r.choices ensures r.choices[c].votes == Tally(r.ledger, c) {
    }
  }

  // ---------------------------------------------------------------------------
  // Cascading deletes

  /** The question rows other than the one with id `q`, in their order. */
  function RemoveQuestionRow(questions: seq<Question>, q: QuestionId): (r: seq<Question>)
    ensures forall x :: x in r <==> x in questions && x.id != q
    ensures DistinctIds(questions) ==> DistinctIds(r)
    ensures !HasQuestion(r, q)
  {
    if questions == [] then []
    else
      var rest := RemoveQuestionRow(questions[1..], q);
      if questions[0].id == q then rest
      else
        assert DistinctIds(questions) ==> forall x :: x in rest ==> x.id != questions[0].id;
        [questions[0]] + rest
  }

  /** Whether deleting question `q` deletes the Vote row at `k`: through its
      question, or through its choice, which the question's deletion takes
      with it. */
  predicate DeletedWithQuestion(t: Tables, q: QuestionId, k: VoteKey)
    requires k in t.ledger
  {
    k.question == q ||
    (t.ledger[k].choice in t.choices && t.choices[t.ledger[k].choice].question == q)
  }

  /** Deleting a Question deletes its Choices, every Vote whose question is
      it and every Vote whose choice was one of its Choices. */
  function DeleteQuestion(t: Tables, q: QuestionId): (r: Tables)
    ensures !HasQuestion(r.questions, q)
    ensures forall x :: x in r.questions <==> x in t.questions && x.id != q
    ensures forall c :: c in r.choices <==> c in t.choices && t.choices[c].question != q
    ensures forall c :: c in r.choices ==> r.choices[c] == t.choices[c]
    ensures forall k :: k in r.ledger <==> k in t.ledger && !DeletedWithQuestion(t, q, k)
    ensures forall k :: k in r.ledger ==> r.ledger[k] == t.ledger[k]
  {
    Tables(
      RemoveQuestionRow(t.questions, q),
      map c | c in t.choices && t.choices[c].question != q :: t.choices[c],
      map k | k in t.ledger && !DeletedWithQuestion(t, q, k) :: t.ledger[k])
  }

  /** Deleting a Choice deletes exactly the Vote rows that reference it. */
  function DeleteChoice(t: Tables, c: ChoiceId): (r: Tables)
    ensures r.questions == t.questions
    ensures r.choices.Keys == t.choices.Keys - {c}
    ensures forall k :: k in r.ledger <==> k in t.ledger && t.ledger[k].choice != c
    ensures forall k :: k in r.ledger ==> r.ledger[k] == t.ledger[k]
    ensures forall d :: d in r.choices ==> r.choices[d] == t.choices[d]
  {
    Tables(t.questions, t.choices - {c}, map k | k in t.ledger && t.ledger[k].choice != c :: t.ledger[k])
  }

  /** Deleting a User deletes exactly that user's Vote rows; the counters
      are not touched. */
  function DeleteUser(t: Tables, u: UserId): (r: Tables)
    ensures r.questions == t.questions && r.choices == t.choices
    ensures forall k :: k in r.ledger <==> k in t.ledger && k.user != u
    ensures forall k :: k in r.ledger ==> r.ledger[k] == t.ledger[k]
  {
    Tables(t.questions, t.choices, map k | k in t.ledger && k.user != u :: t.ledger[k])
  }

  /** The number of user `u`'s ledger rows that reference choice `c`. */
  function UserTally(ledger: map<VoteKey, VoteRow>, u: UserId, c: ChoiceId): nat
  {
    |set k | k in ledger && k.user == u && ledger[k].choice == c|
  }

  lemma DeleteQuestionKeepsCountersMatching(t: Tables, q: QuestionId)
    requires Consistent(t) && CountersMatch(t)
    ensures Consistent(DeleteQuestion(t, q))
    ensures CountersMatch(DeleteQuestion(t, q))
    ensures forall k :: k in DeleteQuestion(t, q).ledger <==> k in t.ledger && k.question != q
  {
    var r := DeleteQuestion(t, q);
    forall c | c in r.choices ensures r.choices[c].votes == Tally(r.ledger, c) {
      assert (set k | k in r.ledger && r.ledger[k].choice == c) ==
             (set k | k in t.ledger && t.ledger[k].choice == c);
    }
    forall c | c in r.choices ensures HasQuestion(r.questions, r.choices[c].question) {
      var x :| x in t.questions && x.id == t.choices[c].question;
      assert x in r.questions;
    }
    forall k | k in r.ledger ensures HasQuestion(r.questions, k.question) {
      var x :| x in t.questions && x.id == k.question;
      assert x in r.questions;
    }
  }

  lemma DeleteChoiceKeepsCountersMatching(t: Tables, c: ChoiceId)
    requires Consistent(t) && CountersMatch(t)
    ensures Consistent(DeleteChoice(t, c))
    ensures CountersMatch(DeleteChoice(t, c))
  {
    var r := DeleteChoice(t, c);
    forall d | d in r.choices ensures r.choices[d].votes == Tally(r.ledger, d) {
      assert (set k | k in r.ledger && r.ledger[k].choice == d) ==
             (set k | k in t.ledger && t.ledger[k].choice == d);
    }
  }

  /** After a user is deleted, each counter still includes that user's
      deleted rows: it exceeds the remaining tally by exactly their number. */
  lemma DeleteUserLeavesCountersStale(t: Tables, u: UserId)
    requires CountersMatch(t)
    ensures Consistent(t) ==> Consistent(DeleteUser(t, u))
    ensures forall c :: c in t.choices ==>
      DeleteUser(t, u).choices[c].votes == Tally(DeleteUser(t, u).ledger, c) + UserTally(t.ledger, u, c)
    ensures CountersMatch(DeleteUser(t, u)) <==> forall c :: c in t.choices ==> UserTally(t.ledger, u, c) == 0
  {
    var r := DeleteUser(t, u);
    forall c | c in t.choices
      ensures r.choices[c].votes == Tally(r.ledger, c) + UserTally(t.ledger, u, c)
    {
      TallySplitsByUser(t, u, c);
    }
  }

  /** The rows referencing `c` are the ones that survive deleting user `u`
      and the ones of `u`. */
  lemma TallySplitsByUser(t: Tables, u: UserId, c: ChoiceId)
    ensures Tally(t.ledger, c) == Tally(DeleteUser(t, u).ledger, c) + UserTally(t.ledger, u, c)
  {
    var r := DeleteUser(t, u);
    var all := Referencing(t.ledger, c);
    var kept := Referencing(r.ledger, c);
    var gone := set k | k in t.ledger && k.user == u && t.ledger[k].choice == c;
    assert all == kept + gone;
    assert kept * gone == {};
  }

  // ---------------------------------------------------------------------------
  // Vote listings and display

  /** A Vote row with its key written out. */
  datatype VoteRecord = VoteRecord(user: UserId, question: QuestionId, choice: ChoiceId, votedAt: int)

  predicate InLedger(ledger: map<VoteKey, VoteRow>, r: VoteRecord)
  {
    VoteKey(r.user, r.question) in ledger && ledger[VoteKey(r.user, r.question)] == VoteRow(r.choice, r.votedAt)
  }

  function VotedAt(r: VoteRecord): int
  {
    r.votedAt
  }

  /** The ledger's rows in some order, each once. */
  ghost function Rows(ledger: map<VoteKey, VoteRow>): (s: seq<VoteRecord>)
    ensures |s| == |ledger|
    ensures forall r :: r in s <==> InLedger(ledger, r)
    decreases |ledger|
  {
    if ledger == map[] then []
    else
      var k := SomeKey(ledger);
      var rest := ledger - {k};
      assert rest.Keys == ledger.Keys - {k};
      var tail := Rows(rest);
      var head := VoteRecord(k.user, k.question, ledger[k].choice, ledger[k].votedAt);
      assert forall r :: InLedger(ledger, r) && r != head ==> InLedger(rest, r);
      [head] + tail
  }

  /** The default order of a Vote listing: newest `voted_at` first. */
  ghost function VoteListing(ledger: map<VoteKey, VoteRow>): (s: seq<VoteRecord>)
    ensures Ordering.NonIncreasing(s, VotedAt)
    ensures |s| == |ledger|
    ensures forall r :: r in s <==> InLedger(ledger, r)
  {
    var rows := Rows(ledger);
    var s := Ordering.SortDescending(rows, VotedAt);
    assert forall r :: r in s <==> r in multiset(rows);
    s
  }

  /** The display text of a Vote: "<username> voted for <choice text>". */
  function VoteLabel(username: string, choiceText: string): (s: string)
    ensures |s| == |username| + 11 + |choiceText|
    ensures s[..|username|] == username
    ensures s[|username|..|username| + 11] == " voted for "
    ensures s[|username| + 11..] == choiceText
  {
    username + " voted for " + choiceText
  }
}
