# Phases and debates, modelled in Dafny

This project models two concepts of a debate web application's server.

**The phase tracker.** It walks items, such as debate prompts or debates, through numbered phases with deadlines. It has three collections:
- *store*: pending items at phase 0;
- *active*: items at phase 1 or later, each with a deadline;
- *expired*: items that have run through all their phases.

Three configuration values drive it: `maxPhase` (3), the deadline extension in hours (24) and `numPromptsPerDay` (2).

The three reads (`getActive`, `getPhaseByKey`, `getHistory`) and two of the writes (`initialize`, `deleteActive`) first run a lazy sweep (`expireOld`), followed by `start`. `editDeadline`, `deleteExpired` and the three setters do not sweep.
- **Sweep**: an overdue active record advances phase by phase, its deadline pushed by the extension each time, until the deadline is in the future or the phase reaches `maxPhase`. If the record is still overdue after that, it is moved to expired.
- **Start**: when fewer than `numPromptsPerDay` records are at phase 1, the first `numPromptsPerDay` stored items move to active at phase 1 with a shared deadline.

**The debate concept.** It keeps three tables:
- debates: a prompt, a category, the participants, and the opinion ids in the order those participants joined;
- opinions: content, author and a Likert-scale answer;
- match records: for each reviewer and debate, the ids of opinions whose Likert value differs from the reviewer's own.

It supports suggesting a prompt (prompts are unique), adding or re-submitting an opinion, the matching pass, removing one matched opinion and deleting a debate with everything attached to it.

Layout:
- `base.dfy` (module `Base`): identifiers, error kinds, `Result`/`Option`, the first-match `IndexOf` that stands for `readOne`/`indexOf`, `RemoveAt` for `splice(i, 1)`, and sequence lemmas that serve as helpers.
- `phase_rules.dfy` (module `PhaseRules`): the tracker's state as a value, and each operation as a function over it. Catch-up, the per-record transition, the sweep, `start` and `initialize` are stated here, with the invariant and lemmas about them.
- `phase.dfy` (module `Phase`): class `PhaseConcept`. Its fields are the source's collections and settings. Each method's `ensures` ties the new state to a `PhaseRules` function of the old state. The source's loops are methods with invariants: the catch-up loop, the sweep loop and the promotion loop.
- `debate_rules.dfy` (module `DebateRules`): the debate tables as a value, the matching pass as a fold (`MatchPair`, `MatchRow`, `MatchAll`), the invariant, and the lemmas.
- `debate.dfy` (module `Debate`): class `DebateConcept`. It contains the nested matching loop and the deletion loop, each proved against its `DebateRules` function.

Modelling choices:
- The wall clock is the parameter `now`, in integer milliseconds. One `now` serves the whole operation, so `start`'s new deadline and the sweep's comparisons use the same instant.
- Collections are sequences in insertion order. `readOne`, `updateOne` and `deleteOne` act on the first matching record; `readMany` keeps that order. The match records form a map keyed by (reviewer, debate), because the source writes at most one record per key.
- `createOne`'s fresh identifiers are the counter `nextId` of `DebateConcept`. In the source, opinion ids are listed as strings; here they are identifiers.

Points where the code differs from what one might read from its description:
- **The sweep's aliasing.** The catch-up loop pushes the record's own deadline object (`newDate` aliases `phase.deadline`). So a record still overdue after catch-up is expired with the *pushed* date, not its original one. `Advance` and `AdvanceOne` model this as written.
- **The catch-up step count.** The number of phases a record advances is min(maxPhase - phase, ceil((now - deadline) / extension)), rounded up rather than a plain quotient (`CatchUpSteps`).
- **`start` does not top up.** It promotes up to `numPromptsPerDay` items, not just the shortfall.
- **Expired is not disjoint from store and active.** `alreadyExists` checks only active and store, so a key whose records have expired can be initialized again while its expired records stay. The invariant therefore covers store and active only, and `ExpiredKeyReinitialized` shows a key that is both expired and live after `initialize`.
- **Repeat submissions change content only.** The new Likert value is dropped, on the first opinion the user wrote in any debate.

## Model

| member | source | states |
|---|---|---|
| Base.IndexOf | server/concepts/debate.ts:141 | the position of the first occurrence, or -1 exactly when the element is absent |
| Base.RemoveAt | server/concepts/debate.ts:145 | cutting out one position shortens the list by one and removes exactly that element once |
| PhaseRules.CatchUpIsLeast | server/concepts/phase.ts:168-174 | the catch-up loop stops at the least step count at which the pushed date is not overdue or the phase is at `maxPhase`; every earlier pushed date is overdue and the phase never passes `maxPhase` |
| PhaseRules.CatchUpSteps | server/concepts/phase.ts:168-174 | closed form: the loop advances min(maxPhase - phase, ceil((now - deadline) / ext)) phases, and none when the deadline has not passed |
| PhaseRules.AdvanceSpec | server/concepts/phase.ts:161-182 | a record is untouched iff it is not overdue; it expires iff it is overdue and either at `maxPhase` or still overdue after catch-up, with the pushed date; otherwise it keeps its key, moves up 1 to `maxPhase` phases and gets the first pushed date at or after `now` |
| PhaseRules.SweepStepInPlace | server/concepts/phase.ts:163-183 | on the partly swept collection, deleting, replacing or skipping the record at the current position gives the sweep of one more record |
| PhaseRules.SweepPartitionsKeys | server/concepts/phase.ts:161-183 | every active record either survives or is expired, under its own key: survivor keys plus expired keys are the old active keys as a multiset |
| PhaseRules.SurvivorsOnTime | server/concepts/phase.ts:171-181 | after the sweep no active record is overdue, and records stay at phase 1 or later |
| PhaseRules.SweepOfOnTimeIsIdentity | server/concepts/phase.ts:161 | a sweep with nothing overdue changes nothing |
| PhaseRules.SweptInv | server/concepts/phase.ts:159-183 | the sweep keeps the invariant (stored at phase 0, active at phase 1 or later, no key live twice) and leaves the store alone |
| PhaseRules.StartedConserves | server/concepts/phase.ts:141-153 | `start` moves items from store to active without losing or duplicating a key and leaves expired alone; it does nothing when `numPromptsPerDay` records are at phase 1, and otherwise takes min(n, store size) items off the store |
| PhaseRules.StartedInv | server/concepts/phase.ts:141-153 | `start` keeps the invariant |
| PhaseRules.StartedOnTime | server/concepts/phase.ts:146-149 | promoted records carry the shared deadline, so no record is overdue after `start` when that deadline is not before `now` |
| PhaseRules.ExpiredOldSpec | server/concepts/phase.ts:159-185 | after `expireOld` the invariant holds, no active record is overdue, and expired grew by exactly the sweep's expirations |
| PhaseRules.FindStore | server/concepts/phase.ts:206 | the lookup finds a stored record iff the key is stored, and what it finds has that key |
| PhaseRules.FindActive | server/concepts/phase.ts:52 | the lookup finds a record iff the key is active, and finds the first record with the key |
| PhaseRules.InitializedSpec | server/concepts/phase.ts:28-34 | `initialize` fails with `KeyExistsError` exactly when the key is stored or active after the sweep, and then changes nothing more; on success the key is live once, one more item is stored or active, expired is as the sweep left it, and the answer is the phase-0 record unless `start` promoted it |
| PhaseRules.StoredThenStarted | server/concepts/phase.ts:31-33 | storing a key that is not live and then running `start` keeps the invariant and makes the key live exactly once |
| PhaseRules.ExpiredKeyReinitialized | server/concepts/phase.ts:28-34 | a key that has expired records but is neither stored nor active after the sweep is initialized again, and is then both expired and live, because `alreadyExists` (lines 204-210) ignores expired |
| PhaseRules.ExpiredKeyReinitializedExample | server/concepts/phase.ts:204-210 | concretely: with key 7 only expired, `initialize(7)` succeeds and key 7 is then in expired and in the live keys |
| PhaseRules.StoreAppendInv | server/concepts/phase.ts:31 | storing a key that is not live keeps the invariant and adds the key once |
| PhaseRules.SetDeadline | server/concepts/phase.ts:73 | the update changes only the deadline of the first record with the key; keys and size stay the same, and a missing key changes nothing |
| PhaseRules.DeleteActiveKey | server/concepts/phase.ts:84 | the first record with the key goes and the rest keep their order; a missing key changes nothing |
| PhaseRules.DeleteStoreKey | server/concepts/phase.ts:150 | the first stored item with the key goes, wherever it sits, and the rest keep their order; the key occurs once less; a missing key changes nothing |
| PhaseRules.DeleteExpiredKey | server/concepts/phase.ts:94 | every expired record with the key goes and every other record keeps its multiplicity |
| PhaseRules.DeleteActiveKeyInv | server/concepts/phase.ts:82-86 | removing an active record keeps the invariant |
| PhaseRules.SetDeadlineInv | server/concepts/phase.ts:71-75 | editing a deadline keeps the invariant |
| Phase.CatchUpLoop | server/concepts/phase.ts:168-174 | the loop computes the catch-up function |
| Phase.AdvanceOne | server/concepts/phase.ts:164-181 | the branches for one record compute the transition `Advance` |
| Phase.SweepLoop | server/concepts/phase.ts:161-183 | the in-place loop leaves the sweep's survivors in active and appends its expirations to expired |
| Phase.PhaseConcept.constructor | server/concepts/phase.ts:16-21 | empty collections; `maxPhase` 3, extension 24 hours, 2 prompts per day |
| Phase.PhaseConcept.Initialize | server/concepts/phase.ts:28-34 | the new state and the answer are those of `Initialized`, and the invariant holds |
| Phase.PhaseConcept.GetActive | server/concepts/phase.ts:40-43 | sweeps, then returns every active record, none of them overdue |
| Phase.PhaseConcept.GetPhaseByKey | server/concepts/phase.ts:50-53 | sweeps, then returns the first active record with the key, if any |
| Phase.PhaseConcept.GetHistory | server/concepts/phase.ts:59-62 | sweeps, then returns every expired record |
| Phase.PhaseConcept.EditDeadline | server/concepts/phase.ts:71-75 | a date before `now` is refused and changes nothing; otherwise only the key's first active record gets the new deadline |
| Phase.PhaseConcept.DeleteActive | server/concepts/phase.ts:82-86 | sweeps, then removes the key's first active record |
| Phase.PhaseConcept.DeleteExpired | server/concepts/phase.ts:93-96 | removes every expired record with the key |
| Phase.PhaseConcept.ChangeNumPromptsPerDay | server/concepts/phase.ts:103-109 | a positive value is taken; any other is refused with `BadValuesError` and the setting is kept |
| Phase.PhaseConcept.ChangeMaxPhase | server/concepts/phase.ts:116-122 | a positive value is taken; any other is refused with `BadValuesError` and the setting is kept |
| Phase.PhaseConcept.ChangeDeadlineExtension | server/concepts/phase.ts:130-136 | a positive value is taken; any other is refused with `BadValuesError` and the setting is kept |
| Phase.PhaseConcept.Start | server/concepts/phase.ts:141-153 | the promotion loop gives the state `Started`, with the deadline `now` plus the extension in milliseconds |
| Phase.PhaseConcept.ExpireOld | server/concepts/phase.ts:159-185 | the state becomes `ExpiredOld` of the old state, and no active record is overdue |
| Phase.PhaseConcept.Sweep | server/concepts/phase.ts:160-183 | the state becomes `Swept` of the old state and the invariant holds |
| Phase.PhaseConcept.AlreadyExpired | server/concepts/phase.ts:192-197 | refuses with `NotAllowedError` exactly the dates before `now` |
| Phase.PhaseConcept.AlreadyExists | server/concepts/phase.ts:204-210 | refuses with `KeyExistsError` exactly the keys that are active or stored |
| Phase.PhaseConcept.DoesntExist | server/concepts/phase.ts:217-223 | refuses with `NoPhaseError` exactly the keys that are not active; otherwise returns an active record with the key |
| DebateRules.FindOpinion | server/concepts/debate.ts:102-103 | the lookup finds an opinion iff one has the id, and what it finds has that id |
| DebateRules.AddMatchSpec | server/concepts/debate.ts:108-120 | one match write appends the id to the reviewer's list unless it is there, creating the record when missing; other records stay the same and lists stay duplicate-free |
| DebateRules.MatchPairSpec | server/concepts/debate.ts:102-121 | one pair adds the second opinion's id to the first author's list exactly when both exist and their Likert values differ, and touches no other debate |
| DebateRules.MatchRowMembers | server/concepts/debate.ts:101-123 | after the inner loop an id is in a list iff it was there or some pair calls for it |
| DebateRules.MatchRowKeys | server/concepts/debate.ts:101-123 | the inner loop creates a record iff some pair calls for it |
| DebateRules.MatchRowFrame | server/concepts/debate.ts:101-123 | the inner loop only appends, keeps lists duplicate-free and leaves other debates' records alone |
| DebateRules.MatchAllMembers | server/concepts/debate.ts:100-124 | after the pass an id is in a reviewer's list iff it was there or some opinion of that reviewer has a different Likert value from the opinion with that id |
| DebateRules.MatchAllKeys | server/concepts/debate.ts:100-124 | the pass creates a reviewer's record iff some pair calls for it |
| DebateRules.MatchAllFrame | server/concepts/debate.ts:100-124 | the pass only appends to lists, keeps them duplicate-free and leaves other debates' records alone |
| DebateRules.MatchRowFixed | server/concepts/debate.ts:101-123 | an inner loop whose every pair is already recorded changes nothing |
| DebateRules.MatchAllFixed | server/concepts/debate.ts:100-124 | a pass whose every pair is already recorded changes nothing |
| DebateRules.MatchAllIdempotent | server/concepts/debate.ts:98-126 | running the matching pass a second time changes nothing |
| DebateRules.MatchAllKeepsScales | server/concepts/debate.ts:107 | an opinion with the same Likert value as the reviewer's own is never added to the reviewer's list |
| DebateRules.MatchAllNeverOwn | server/concepts/debate.ts:107 | a reviewer is never matched to their own opinion |
| DebateRules.FindOpinionAppend | server/concepts/debate.ts:59 | a new opinion with a fresh id is found under that id and hides no other |
| DebateRules.UpdateContentSpec | server/concepts/debate.ts:63 | a repeat submission rewrites only the content of the first opinion by the user; ids, authors and Likert values stay the same |
| DebateRules.FindOpinionUpdate | server/concepts/debate.ts:63 | after a repeat submission every id still finds an opinion with the same id, author and Likert value |
| DebateRules.FindOpinionCons | server/concepts/debate.ts:102 | the lookup in a nonempty table is the first record or a lookup in the rest |
| DebateRules.FindOpinionWithout | server/concepts/debate.ts:185-187 | after removing a list of opinion ids, those ids are not found and every other id finds what it found before |
| DebateRules.WithoutIdsSub | server/concepts/debate.ts:185-187 | removing opinions never adds an id |
| DebateRules.DeleteOpinionIsWithout | server/concepts/debate.ts:186 | with unique ids, deleting the first opinion with an id removes every opinion with that id |
| DebateRules.WithoutIdsNone | server/concepts/debate.ts:185-187 | removing ids that no opinion has changes nothing |
| DebateRules.WithoutIdsThen | server/concepts/debate.ts:185-187 | removing some ids and then one more is removing all of them |
| DebateRules.ListedExist | server/concepts/debate.ts:102-105 | under the invariant every opinion a debate lists exists, so the pass never hits its `NotFoundError` |
| DebateRules.SuggestedInv | server/concepts/debate.ts:39-43 | a new debate under a fresh id keeps the invariant (prompts unique, lists aligned, ids fresh) and its prompt is then in use |
| DebateRules.FirstSubmissionFinds | server/concepts/debate.ts:56-61 | a first submission adds exactly the fresh opinion id to the table, found with its author and Likert value |
| DebateRules.FirstSubmissionWellFormed | server/concepts/debate.ts:56-61 | after a first submission each debate's i-th opinion is still by its i-th participant |
| DebateRules.FirstSubmissionInv | server/concepts/debate.ts:56-61 | a first submission keeps the invariant |
| DebateRules.RepeatSubmissionInv | server/concepts/debate.ts:62-64 | a repeat submission keeps the invariant |
| DebateRules.InvDistinctAuthors | server/concepts/debate.ts:56-61 | under the invariant no two opinions a debate lists share an author |
| DebateRules.MatchedInv | server/concepts/debate.ts:98-126 | the matching pass keeps the invariant |
| DebateRules.RemovedInv | server/concepts/debate.ts:145-146 | removing one matched id keeps the invariant, and the id leaves the list |
| DebateRules.DeletedSpec | server/concepts/debate.ts:183-191 | after `delete` the debate is gone, other debates are unchanged, its opinions are not found while others are found as before, and only its match records are gone |
| DebateRules.DeletedInv | server/concepts/debate.ts:183-191 | `delete` keeps the invariant |
| Debate.MatchLoop | server/concepts/debate.ts:100-124 | the nested loop computes the matching pass `MatchAll` over the debate's opinions against themselves |
| Debate.DeleteLoop | server/concepts/debate.ts:185-187 | the loop of `deleteOne` calls removes exactly the debate's opinions |
| Debate.DebateConcept.constructor | server/concepts/debate.ts:25-27 | three empty tables, and the invariant holds |
| Debate.DebateConcept.GetDebate | server/concepts/debate.ts:169-176 | the debate, or `NotFoundError` exactly when there is none |
| Debate.DebateConcept.IsParticipant | server/concepts/debate.ts:74-79 | whether the user is a participant, or `NotFoundError` for a missing debate |
| Debate.DebateConcept.GetParticipants | server/concepts/debate.ts:86-89 | the participants, or `NotFoundError` for a missing debate |
| Debate.DebateConcept.PromptAlreadyUsed | server/concepts/debate.ts:157-162 | refuses with `UsedPromptError` exactly when some debate has the prompt |
| Debate.DebateConcept.SuggestPrompt | server/concepts/debate.ts:39-43 | a used prompt is refused and changes nothing; otherwise a new debate under a fresh id, returned |
| Debate.DebateConcept.AddOpinion | server/concepts/debate.ts:53-66 | a missing debate is refused; a first-time participant joins with a new opinion; a returning one only rewrites content; the invariant holds |
| Debate.DebateConcept.MatchParticipantToDifferentOpinions | server/concepts/debate.ts:98-126 | a missing debate is refused; otherwise the records become the matching pass's result and the debate's records are returned |
| Debate.DebateConcept.RemoveDifferentOpinion | server/concepts/debate.ts:135-150 | a missing record or id is refused and changes nothing; otherwise the first occurrence of the id leaves the reviewer's list and nothing else changes |
| Debate.DebateConcept.Delete | server/concepts/debate.ts:183-191 | a missing debate is refused and changes nothing; otherwise the state becomes `Deleted` and the invariant holds |

## Left out

- The route layer that cascades phases into debates, the response formatting, the web server, and the styling: they are not part of this model.
- The document store: collections are sequences and maps, and the store's own `_id` of phase records is not modelled. Records are addressed by key, which the invariant keeps unique among stored and active records, so `deleteOne({ _id })` in the sweep and in `start` is the same as deletion by key.
- Dates are integer milliseconds, and the wall clock is the parameter `now`. `new Date()` is read once per operation instead of once per helper.
- Phase.PhaseConcept.ChangeNumPromptsPerDay: the source also refuses a non-integer value; the model's parameter is an integer, so that check is left out.
- Phase.PhaseConcept.ChangeMaxPhase: the source also refuses a non-integer value; the model's parameter is an integer, so that check is left out.
- Phase.PhaseConcept.ChangeDeadlineExtension: the source accepts a fractional number of hours; the model's extension is a whole number of hours.
- Concurrency between the asynchronous calls, and logging to the console, are left out.
- The category of a debate is stored but no operation reads it, so nothing is proved about it.
- Debate.DebateConcept.MatchParticipantToDifferentOpinions: the source throws `NotFoundError` part way through the pass when a listed opinion is missing, keeping the writes made so far. Under the invariant (`ListedExist`) this cannot happen, so the model takes the branch as dead rather than modelling partial writes.
- Debate.DebateConcept.MatchParticipantToDifferentOpinions: the debate's records are returned as a map from (reviewer, debate), not as a list in creation order.
- Debate.DebateConcept.GetDebateById: it only forwards to `GetDebate`, so it has no contract of its own.
- Opinion ids are listed as strings in the source and converted with `new ObjectId(...)`; the model takes them as identifiers, so a malformed id string, which the conversion would reject, cannot arise.
