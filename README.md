# Poll voting: ledger and counters

This project models the voting core of a small Django poll application.
A poll is a **Question** with a publication date. A Question has
**Choices**, and each Choice stores a vote counter. Besides the counters,
the application keeps a ledger of **Vote** rows. There is at most one
Vote row per (user, question) pair, and the row names the choice that
user picked.

The read-side views are modelled as pure functions:

- `index` lists the five newest questions and the signed-in user's vote on each one.
- `detail` and `results` look up one question and the requester's Vote row for it.

The `vote` view is modelled twice:

- `Views.CastVote` is a function on the three tables.
- `Views.PollDb.Vote` is a method on a class whose fields are the three tables. It performs the code's saves in the code's order.

The method is proved equal to the function. The lemmas in
`VoteProperties` describe what each kind of request does:

- which rows a vote may touch;
- how a first vote and a changed vote move the counters;
- when the counters stay equal to the ledger tallies;
- the one case in which they drift apart.

`Models` holds the schema's declared rules:

- the text length limits;
- the counter default of 0;
- the (user, question) uniqueness;
- the three cascading deletes;
- the newest-first order of Vote listings;
- the display text of a Vote.

`Ordering` is the descending sort that `order_by('-field')` performs.

State is modelled as follows:

- The question table is a sequence of rows in creation order.
- The choice table is a map from choice id to `Choice(question, text, votes)`.
- The ledger is a map from `VoteKey(user, question)` to `VoteRow(choice, votedAt)`. Because the pair is the map key, the uniqueness constraint holds by construction.
- Users are bare ids.
- Timestamps (`pub_date`, `voted_at`) are integers.
- The current time is passed as the parameter `now`.

The `@login_required` decorator is the outcome `LoginRequired`, returned
with the tables unchanged. The submitted `choice` form field is an
`Option<ChoiceId>`, with `None` when the field is missing.

Three points about what the code does and does not do:

- **Same-choice re-vote.** A re-vote for the choice already held is not a no-op. The view subtracts one and then re-saves a stale copy, so the counter ends one higher (see Findings).
- **No transaction.** The view uses no transaction and no row locks. Requests are modelled one after another.
- **No further features.** The application has no access control, multi-choice voting, comments or categories.

## Model

| member | source | states |
|---|---|---|
| Ordering.Insert | poll_project/pollApp/views.py:12 | inserting into a newest-first sequence keeps it newest-first and adds exactly the one element (multiset) |
| Ordering.SortDescending | poll_project/pollApp/views.py:12 | the `order_by('-pub_date')` result is non-increasing in the key and a permutation of the input |
| Ordering.PrefixDominates | poll_project/pollApp/views.py:12 | slicing a descending sequence keeps elements whose key is at least that of every element left out |
| Models.FindQuestion | poll_project/pollApp/views.py:65 | `get_object_or_404` finds a row exactly when a question with that primary key exists, and returns a row with that key |
| Models.CounterWritesKeepIntegrity | poll_project/pollApp/views.py:80-87 | saving choices with only their counters changed keeps the foreign keys and length limits, and keeps every Vote's choice inside its question |
| Models.RowWriteKeepsIntegrity | poll_project/pollApp/views.py:92-96 | saving a Vote row whose question and choice exist keeps the schema's guarantees, and keeps them consistent when the choice belongs to the question |
| Models.TallyAfterWrite | poll_project/pollApp/views.py:83-84 | writing one ledger row lowers the tally of the choice it referenced by one, raises the tally of the choice it now references by one, and leaves all other tallies alone |
| Models.QuestionVotesSplit | poll_project/pollApp/models.py:12-15 | a question's total is one choice's share plus the total of the other choices |
| Models.QuestionVotesAfterWrite | poll_project/pollApp/views.py:86-87 | saving a choice's counter changes its question's total by the change in that counter and no other question's total |
| Models.AddQuestion | poll_project/pollApp/models.py:5-7 | creation is refused exactly for a taken id or a text over 300 characters; otherwise the row is appended and integrity and matching counters are kept |
| Models.AddChoice | poll_project/pollApp/models.py:12-15 | creation is refused exactly for a taken id, an unknown question or a text over 200 characters; otherwise the new choice has `votes == 0` and nothing else changes |
| Models.AddChoiceKeepsCountersMatching | poll_project/pollApp/models.py:15 | the default counter of 0 keeps every counter equal to its tally |
| Models.RemoveQuestionRow | poll_project/pollApp/models.py:5 | removing a question row keeps exactly the other rows and keeps primary keys distinct |
| Models.DeleteQuestion | poll_project/pollApp/models.py:13-25 | deleting a question removes it, exactly its choices, and exactly the Votes on it or on one of its choices; all other rows are unchanged |
| Models.DeleteChoice | poll_project/pollApp/models.py:24 | deleting a choice removes exactly the Vote rows that reference it and leaves every other row unchanged |
| Models.DeleteUser | poll_project/pollApp/models.py:23 | deleting a user removes exactly that user's Vote rows and touches no choice |
| Models.DeleteQuestionKeepsCountersMatching | poll_project/pollApp/models.py:13-25 | with every Vote consistent, the cascade removes exactly the Votes of the question and keeps counters equal to tallies |
| Models.DeleteChoiceKeepsCountersMatching | poll_project/pollApp/models.py:24 | the choice cascade keeps the remaining counters equal to their tallies |
| Models.TallySplitsByUser | poll_project/pollApp/models.py:23 | a choice's tally is the tally left after deleting a user plus that user's rows for the choice |
| Models.DeleteUserLeavesCountersStale | poll_project/pollApp/models.py:23 | after a user is deleted, each counter exceeds its tally by that user's deleted rows for it; the counters still match if and only if the user had no rows |
| Models.Rows | poll_project/pollApp/models.py:21-29 | the ledger written out as Vote records: one per row, each one matching its row |
| Models.VoteListing | poll_project/pollApp/models.py:30 | a Vote listing holds every row once, newest `voted_at` first |
| Models.VoteLabel | poll_project/pollApp/models.py:32-33 | a Vote's text is the username, then " voted for ", then the choice text |
| Views.Latest | poll_project/pollApp/views.py:12 | at most five questions (all of them if fewer), newest first, drawn from the table, and no question left out is newer than one shown |
| Views.UserVotes | poll_project/pollApp/views.py:15-18 | empty for an anonymous user; for a signed-in user, the keys are exactly the shown questions with a Vote row, and each maps to that row's choice |
| Views.Index | poll_project/pollApp/views.py:11-24 | the index shows min(5, number of questions) questions, newest first, drawn from the table, and no unshown question is newer; user_votes is empty when anonymous, and otherwise its keys are exactly the shown questions the user has a row for, each mapped to that row's choice |
| Views.UserVote | poll_project/pollApp/views.py:31-36 | the requester's Vote row is found exactly when the requester is signed in and has a row for the question, and it is that row |
| Views.Detail | poll_project/pollApp/views.py:27-42 | 404 exactly for an unknown question; otherwise the page shows that question and the requester's row if there is one, and none when anonymous |
| Views.Results | poll_project/pollApp/views.py:45-60 | the same lookup and the same guarantees as the detail page |
| Views.FirstVoteKeepsIntegrity | poll_project/pollApp/views.py:92-98 | the saves of a first vote change only counters, keep the schema's guarantees, and keep Vote rows consistent with their questions |
| Views.RevoteKeepsIntegrity | poll_project/pollApp/views.py:79-87 | the saves of a changed vote change only counters and keep the schema's guarantees and consistency |
| Views.RevoteRefreshedKeepsIntegrity | poll_project/pollApp/views.py:79-87 | the saves of the corrected re-vote change only counters and keep the schema's guarantees and consistency |
| Views.CastVote | poll_project/pollApp/views.py:63-102 | anonymous gives LoginRequired, an unknown question gives QuestionNotFound, and a missing or foreign choice gives NoChoiceSelected, each exactly; every refusal leaves all tables unchanged; success leaves the requester's row naming the selected choice; integrity holds afterwards |
| Views.CastVoteIntended | poll_project/pollApp/views.py:77-87 | the corrected vote agrees with the code on the outcome and the ledger, and it keeps the choice set and integrity |
| Views.PollDb.constructor | poll_project/pollApp/models.py:1-33 | the store starts out holding the given tables |
| Views.PollDb.Vote | poll_project/pollApp/views.py:63-102 | the in-place loads and saves, in the code's order, leave the store and outcome exactly as `CastVote` describes, and keep integrity |
| Views.PollDb.VoteRefreshed | poll_project/pollApp/views.py:77-87 | the same saves, with the selected choice read again after the old choice is saved, give exactly `CastVoteIntended` |
| Views.PollDb.SaveFirstVote | poll_project/pollApp/views.py:92-98 | creating the row and then saving the incremented copy of the selected choice |
| Views.PollDb.SaveRevote | poll_project/pollApp/views.py:79-87 | decrementing the old choice, re-pointing the row, then saving the increment of the selected choice as loaded before |
| Views.PollDb.SaveRevoteRefreshed | poll_project/pollApp/views.py:79-87 | the same, with the selected choice loaded after the decrement |
| VoteProperties.VoteTouchesOnlyOwnRow | poll_project/pollApp/views.py:75-96 | a vote adds no choice and removes none, removes no row, adds at most the requester's row for this question, and changes no other user's or question's row |
| VoteProperties.VoteChangesOnlyCounters | poll_project/pollApp/views.py:79-98 | a vote changes no choice's question or text, only vote counters |
| VoteProperties.VoteKeepsConsistent | poll_project/pollApp/views.py:68 | a vote only stores choices of the question's own choice set, so every Vote stays consistent with its question |
| VoteProperties.FirstVoteAddsOne | poll_project/pollApp/views.py:90-98 | a first vote is Recorded and adds exactly one row with the request's time; the selected counter, its tally and the question total each rise by one; no other counter or tally changes |
| VoteProperties.RevoteMovesOneCount | poll_project/pollApp/views.py:77-87 | a changed vote is Updated and re-points the row, keeping its time; the old counter drops by one and the new one rises by one; the row count and every other choice stay the same |
| VoteProperties.RevoteMovesOneTally | poll_project/pollApp/views.py:83-84 | the same request moves one row from the old choice's tally to the new one's and changes no other tally |
| VoteProperties.RevoteKeepsQuestionTotals | poll_project/pollApp/views.py:77-87 | a changed vote leaves every question's total vote count unchanged |
| VoteProperties.VoteKeepsCountersMatching | poll_project/pollApp/views.py:75-98 | from counters equal to tallies, every request except a same-choice re-vote keeps them equal |
| VoteProperties.SameChoiceRevoteTables | poll_project/pollApp/views.py:68-87 | as written, a re-vote for the choice already held leaves the ledger as it was and stores that choice one above the copy loaded at the start |
| VoteProperties.SameChoiceRevoteDrift | poll_project/pollApp/views.py:68-87 | a same-choice re-vote is Updated and leaves the ledger unchanged, yet the counter ends at original+1 = tally+1, so the counters no longer match |
| VoteProperties.SameChoiceRevoteGrowsTotal | poll_project/pollApp/views.py:68-87 | the same request raises its question's total vote count by one |
| VoteProperties.IntendedVoteKeepsCountersMatching | poll_project/pollApp/views.py:77-87 | with the re-read, every request keeps counters equal to tallies |
| VoteProperties.IntendedSameChoiceRevoteChangesNothing | poll_project/pollApp/views.py:77-87 | with the re-read, a re-vote for the choice already held leaves all tables unchanged |
| VoteProperties.IntendedVoteKeepsConsistent | poll_project/pollApp/views.py:68-98 | the corrected vote also keeps every Vote row's choice inside its question |
| VoteProperties.RefreshedRevoteUnchanged | poll_project/pollApp/views.py:79-87 | the corrected saves for an unchanged choice give back the same tables |
| VoteProperties.RefreshedRevoteKeepsCountersMatching | poll_project/pollApp/views.py:79-87 | the corrected re-vote keeps counters equal to tallies |
| VoteProperties.Replay | poll_project/pollApp/views.py:63-102 | serving requests one after another keeps integrity and never changes the question table |
| VoteProperties.ReplayKeepsCountersMatching | poll_project/pollApp/views.py:63-102 | over any run with no same-choice re-vote, counters that start equal to their tallies stay equal |
| VoteProperties.ReplayIntended | poll_project/pollApp/views.py:77-87 | the corrected views, served in sequence, keep integrity and the question table |
| VoteProperties.ReplayIntendedKeepsCountersMatching | poll_project/pollApp/views.py:77-87 | with the corrected re-vote, counters that start equal to their tallies stay equal over every run |

## Left out

- A `choice` field that is not a number makes the code's primary-key lookup raise an uncaught error. The model receives the field already parsed, or `None` when it is missing.
- `Choice.votes` is a 32-bit `IntegerField`. The counters are unbounded integers, so overflow is not modelled.
- Concurrent requests are not modelled. Requests are served one at a time, in sequence, so races between a counter's load and its save are not captured.
- Templates, flash messages, redirects and `reverse` are presentation only. The views return a page value or a `VoteOutcome` instead.
- `DateTimeField` values are integers. `now` stands for the clock that sets `auto_now_add`.
- Users are bare ids. Nothing of Django's User table is modelled beyond the cascade from it.
- Registration, login, logout and the `profile` view are Django account glue, and the admin site is configuration. The URL table names `add_comment`, `delete_comment` and `category_polls`, but no such views exist in the code, so none are modelled.
- Access control, multi-choice voting and percentages do not appear in the code.
- Models.VoteListing: where `voted_at` values are equal, the database may return rows in any order. The model fixes one such order and proves only the newest-first property.
- Views.Latest: where `pub_date` values are equal, the model fixes one order and proves only the newest-first property; the database may pick another order among equal dates.
- Models.AddQuestion: the `max_length` of 300 is treated as enforced. Django applies it through the column type and form validation, not in `save()`, so a backend that ignores column lengths (SQLite) would store a longer text.
- Models.AddChoice: the same holds for the `max_length` of 200.
- The `__str__` methods of Question and Choice only return a field, and are not modelled separately.
- Views.CastVote: its contract states the outcome, the error cases and the requester's row. The counter movements and consistency are stated in the `VoteProperties` lemmas.

## Findings

| source | as written | input that shows it | evidently intended | confidence | as-written member | corrected member |
|---|---|---|---|---|---|---|
| poll_project/pollApp/views.py:68-87 | The selected choice is loaded before the old choice is decremented and saved (found through the row's foreign key, a separate copy). The stale copy is then incremented and saved over the decrement. | A user whose row names choice c re-votes with `choice=c`. If c's counter is n, equal to its tally, it becomes n+1 while the tally stays n. | Voting again for the choice already held leaves the counter at n, so counters keep equalling tallies. | not executed | VoteProperties.SameChoiceRevoteDrift | VoteProperties.IntendedVoteKeepsCountersMatching |

The model keeps both versions:

- `Views.CastVote` and `Views.PollDb.Vote` are the code as written.
- `Views.CastVoteIntended` and `Views.PollDb.VoteRefreshed` re-read the selected choice after the old choice is saved. `VoteProperties.ReplayIntended` is built on them.
