# Round-robin lead assignment, modelled in Dafny

This project models the serverless handlers of a round-robin lead-assignment service. The
service hands each incoming contact to the next active member of a sales team and records the
choice in a shared key-value store:

- the rotation pointer `last-assigned:<team>`;
- the team counter `total-count:<team>`;
- the global counter `total-count:global`;
- per-member counters `member-count:<team>:<id>`;
- per-member availability overrides `member-active:<team>:<id>`.

Around the assignment handler sit:

- an override toggle (GET and POST);
- three administrative resets;
- a read-only team preview;
- a read-only statistics report.

The model works as follows:

- The store is a class `Store.Kv` whose `data: map<string, Value>` field the handlers update
  through GET, SET, INCR and DEL.
- Every handler is a module-level method that takes the store `kv: Kv`, proved against a pure
  function of the store's contents. The writing handlers (assign, toggle POST, the three resets) declare `modifies kv`
  and are proved against a transition function; the read-only ones (toggle GET, teams, stats)
  modify nothing and are proved against a report function. The properties are lemmas about
  those functions.
- Request fields are `Option<Value>`, with `None` standing for undefined or null. The
  JavaScript coercions the handlers rely on are written out in module `Js`: truthiness,
  `String(x)` and `Number(x)`.
- Team lookups `TEAMS[key]` distinguish three cases: an own key, a property every object
  inherits (such as `constructor`), and an absent key.
- The code uses three catalogs, and the model keeps all three:
  - `api/assign.js` declares its own one-team catalog (`Assign.AssignTeams`);
  - `api/teams.js` declares another (`TeamsPreview.PreviewTeams`);
  - the other handlers read the shared one (`TeamsConfig.Teams`).

Modules, one per source file plus shared pieces:

- `Js`: values and coercions.
- `Keys`: the key scheme, and why keys of different families or teams never collide.
- `Store`: the store and the counted deletion loop of the resets.
- `TeamsConfig`: catalog lookups and the shared catalog.
- `Rotation`: the next-index rule.
- `Assign`, `ToggleStatus`, `HardReset`, `ResetGlobal`, `Reset`, `TeamsPreview`, `Stats`: one
  module per handler.

What the handlers do, as written:

- `api/assign.js` reads the request fields `contactId` and `team` (api/assign.js:38).
- It selects active members by the static catalog flag `active === true` alone and reads no
  `member-active` key (api/assign.js:76).
- It sends the owner update to HubSpot straight after choosing the owner, with no read of the
  contact's current owner (api/assign.js:121-134).
- It writes the pointer only after the HubSpot update returns (api/assign.js:143), so a failed
  update leaves the store unchanged. The increment follows the pointer write, so a refused
  increment leaves the pointer moved.
- It increments only `total-count:<team>` (api/assign.js:145-146), and no member or global
  counter.
- The stats report computes a percentage per team only (api/stats.js:34), and per member
  only a lead count (api/stats.js:47-58).

## Model

| member | source | states |
|---|---|---|
| Js.NumberOrZero | api/stats.js:19 | `Number(v) \|\| 0` reads an absent value as 0 and a stored integer as itself |
| Js.DecimalRoundTrip | api/stats.js:49 | a counter held as a decimal string reads back through `Number` as the same number |
| Keys.SplitAtSeparator | api/toggle-status.js:31 | two keys built as head, separator, tail with separator-free heads are equal only if heads and tails are |
| Keys.FamiliesDisjoint | api/hard-reset.js:54-61 | the pointer, team-counter, member-counter and override families never share a key, and the pointer, member-counter and override keys never equal the global key; a team counter equals it only for the team "global" (see Keys.TotalCountIsGlobal) |
| Keys.TotalCountIsGlobal | api/reset-global.js:58 | a team counter key is the global counter key exactly for the team key "global" |
| Keys.PrefixedInjective | api/hard-reset.js:54-57 | different teams have different pointer keys and different counter keys |
| Keys.MemberKeysInjective | api/toggle-status.js:26 | for ':'-free team keys, a member counter or override key determines its team and member |
| Store.Lookup | api/assign.js:94 | GET yields the stored value, or null exactly when the key is absent |
| Store.Incremented | api/assign.js:146 | INCR counts an absent key as 0, adds one to an integer, and fails on any other value |
| Store.Kv.Get | api/assign.js:94 | GET returns the stored value or null and changes nothing |
| Store.Kv.Set | api/assign.js:143 | SET stores the value under the key and leaves all other keys as they were |
| Store.Kv.Incr | api/assign.js:146 | INCR stores and returns the incremented count; on failure the store is unchanged |
| Store.Kv.Del | api/reset.js:22 | DEL removes the key and replies 1 exactly when it existed |
| Store.DeleteAll | api/hard-reset.js:69-76 | the DEL loop removes exactly the listed keys; the count is the number of listed keys that existed |
| Store.KeySetBound | api/hard-reset.js:69-76 | a key list names at most as many distinct keys as it has entries |
| TeamsConfig.Resolve | api/assign.js:57-64 | `TEAMS[key]` is the team with that key if there is one; else an inherited property for prototype names; else undefined |
| TeamsConfig.ActiveMembers | api/assign.js:76 | filtering never yields more members than the team has |
| TeamsConfig.ActiveMembersExactly | api/assign.js:76 | the active list holds exactly the team members whose flag is set |
| TeamsConfig.ActiveKeepsDistinct | api/assign.js:76 | filtering a list of distinct ids keeps the ids distinct |
| TeamsConfig.IndexOfId | api/assign.js:104-106 | `findIndex` gives the first position with that id, or -1 exactly when no member has it |
| TeamsConfig.IndexOfOwnId | api/assign.js:104-106 | with distinct ids, looking up a member's own id finds that member's position |
| TeamsConfig.TeamKeys | lib/teams-config.js:6-66 | the shared catalog has the teams '499', '500', '6000', 'unknown' in that order |
| TeamsConfig.Roster499 | lib/teams-config.js:10-18 | team '499' has its first two members active |
| TeamsConfig.Roster500 | lib/teams-config.js:25-33 | team '500' has its first five members active |
| TeamsConfig.Roster6000 | lib/teams-config.js:40-48 | team '6000' has its first two members active |
| TeamsConfig.RosterUnknown | lib/teams-config.js:55-63 | team 'unknown' has its first five members active |
| TeamsConfig.EveryTeamStaffed | lib/teams-config.js:7-65 | every team lists seven members and at least one of them is active |
| TeamsConfig.SharedCatalogWellFormed | lib/teams-config.js:6-66 | keys distinct, without ':' or '-', not "global"; member ids distinct and non-empty within each team |
| TeamsConfig.TeamKeysClean | lib/teams-config.js:7-52 | the team keys are distinct, contain no ':' or '-', and none is "global" |
| TeamsConfig.Distinct499 | lib/teams-config.js:10-18 | team '499' lists pairwise distinct member ids |
| TeamsConfig.Distinct500 | lib/teams-config.js:25-33 | team '500' lists pairwise distinct member ids |
| TeamsConfig.Distinct6000 | lib/teams-config.js:40-48 | team '6000' lists pairwise distinct member ids |
| TeamsConfig.DistinctUnknown | lib/teams-config.js:55-63 | team 'unknown' lists pairwise distinct member ids |
| TeamsConfig.NonEmpty499 | lib/teams-config.js:10-18 | every member id of team '499' is non-empty |
| TeamsConfig.NonEmpty500 | lib/teams-config.js:25-33 | every member id of team '500' is non-empty |
| TeamsConfig.NonEmpty6000 | lib/teams-config.js:40-48 | every member id of team '6000' is non-empty |
| TeamsConfig.NonEmptyUnknown | lib/teams-config.js:55-63 | every member id of team 'unknown' is non-empty |
| Rotation.NextIndex | api/assign.js:101-119 | the next index is always a valid position among the active members |
| Rotation.RestartWithoutMatch | api/assign.js:101-118 | no pointer, or a pointer naming no active member, restarts the rotation at index 0 |
| Rotation.AdvanceAfterMatch | api/assign.js:103-109 | a pointer matching the active member at position p, compared as strings, gives (p + 1) mod n |
| Rotation.FirstMatchAdvances | api/assign.js:103-109 | a pointer naming the first active member moves the rotation to index 1 |
| Rotation.SingleActiveReselects | api/assign.js:109 | with one active member, that member is always chosen |
| Rotation.StepAround | api/assign.js:104-109 | from a pointer at member i mod n the rotation moves to (i + 1) mod n |
| Assign.Plan | api/assign.js:43-121 | an accepted request names a catalog team, its active members and a valid index into them |
| Assign.Handle | api/assign.js:43-166 | the handler's response and new store are those of the transition on the handler's own catalog |
| Assign.HandleFor | api/assign.js:43-166 | the handler's steps, for any catalog, produce exactly the transition's response and store |
| Assign.ValidationOrder | api/assign.js:43-88 | missing contact, missing team, unknown team, no members, no active members are checked in order; each rejection writes nothing |
| Assign.ChosenOwnerIsActive | api/assign.js:76-121 | the chosen owner is the active member at the reported index, which is in range |
| Assign.HubSpotFailureChangesNothing | api/assign.js:130-134 | if the HubSpot update fails the result is a 500 and the store is unchanged |
| Assign.SuccessWrites | api/assign.js:143-146 | success sets the pointer to the owner's id and the team counter to old + 1 (absent as 0); no other key changes |
| Assign.CounterFailureKeepsPointer | api/assign.js:143-146 | if INCR fails the result is a 500 while the pointer has already moved |
| Assign.PointerLeadsTo | api/assign.js:101-121 | a pointer at the member before position i leads to index i mod n |
| Assign.RunStep | api/assign.js:101-146 | the i-th request of a run chooses active[i mod n] and writes it back as the pointer |
| Assign.PlanAt | api/assign.js:47-109 | before the i-th request of a run from no pointer, validation passes and the rotation stands at i mod n |
| Assign.RoundRobinCoverage | api/assign.js:101-143 | with no prior pointer, k successive successful requests choose active[0], active[1], … cyclically |
| Assign.CoverageStep | api/assign.js:101-143 | one more successful request extends the rotation by active[i mod n], moves the pointer onto it and advances the counter by one |
| Assign.SalesTeamRotation | api/assign.js:7-16 | the handler's own team cycles through its three members in catalog order |
| ToggleStatus.Effective | api/toggle-status.js:30-34 | the state is true exactly for a stored boolean true or string "true"; it is undefined exactly when no override is stored |
| ToggleStatus.HandleGet | api/toggle-status.js:20-43 | GET builds the states object the catalog and the store determine, without writing |
| ToggleStatus.CollectStates | api/toggle-status.js:24-36 | the loop over the catalog's teams yields the object the entries of every team determine |
| ToggleStatus.AddTeamStates | api/toggle-status.js:25-35 | the inner loop assigns each member's effective state in roster order |
| ToggleStatus.TeamEntryFrom | api/toggle-status.js:25-34 | every entry assigned for a team belongs to one of its members |
| ToggleStatus.TeamEntryPresent | api/toggle-status.js:25-34 | every member of a team gets an entry |
| ToggleStatus.EntryFrom | api/toggle-status.js:24-35 | every entry GET assigns is a catalog member's effective state |
| ToggleStatus.EntryPresent | api/toggle-status.js:24-35 | every catalog member gets an entry |
| ToggleStatus.ToMapAgrees | api/toggle-status.js:31-33 | when all assignments to a key agree, the object holds that value |
| ToggleStatus.ToMapKeys | api/toggle-status.js:31-33 | the object has a key only if some assignment wrote it |
| ToggleStatus.GetReportsEffective | api/toggle-status.js:24-35 | GET has exactly one key `<team>-<id>` per catalog member, holding that member's effective state |
| ToggleStatus.GetWithoutOverrides | api/toggle-status.js:33 | with no overrides stored, every state is undefined (members have no `defaultActive`) |
| ToggleStatus.HandlePost | api/toggle-status.js:56-107 | POST's response and new store are those of the POST transition on the shared catalog |
| ToggleStatus.PostValidationOrder | api/toggle-status.js:61-92 | missing teamKey, missing memberId, non-boolean active (400), unknown team (404), an inherited property name whose missing `members` throws (500) and an unknown member (404) are rejected in that order, without writing |
| ToggleStatus.PostWritesOneKey | api/toggle-status.js:95-96 | success writes only the member's override key, with "true" or "false", for a member of the team |
| ToggleStatus.PostThenGet | api/toggle-status.js:31-96 | after a successful POST with `active = b`, GET reports b for that member |
| ToggleStatus.OverrideReadsBack | api/toggle-status.js:95-96 | an override stored as `active.toString()` reads back as `active` |
| HardReset.MemberCountKeys | api/hard-reset.js:60-62 | one member counter key per member, in member order |
| HardReset.TeamKeyListContents | api/hard-reset.js:51-62 | the list is the pointer, the team counter and one counter per member: 2 + members entries |
| HardReset.CollectTeamKeys | api/hard-reset.js:51-62 | the push loop builds exactly that list |
| HardReset.Handle | api/hard-reset.js:20-98 | the handler's response and new store are those of the hard-reset transition |
| HardReset.RejectionsDeleteNothing | api/hard-reset.js:20-62 | a wrong confirmation (400, checked first), a missing team (400), an unknown team (404) and an inherited property name whose missing `members` throws (500) are rejected without deleting |
| HardReset.HardResetEffect | api/hard-reset.js:69-93 | success deletes exactly the team's list; the count is at most 2 + members; memberCount is the team size |
| HardReset.ClearTeamEffect | api/hard-reset.js:51-94 | the team's keys are gone; the global counter, all overrides and other teams' keys keep their values |
| HardReset.TeamKeyListSpares | api/hard-reset.js:51-62 | the list names neither the global counter, nor any override, nor any key of another team |
| HardReset.GlobalNotListed | api/hard-reset.js:94 | the global counter is not in a team's list |
| HardReset.OverrideNotListed | api/hard-reset.js:51-62 | no override key is in a team's list |
| HardReset.OtherTeamCountersNotListed | api/hard-reset.js:51-62 | another team's pointer and counter are not in a team's list |
| HardReset.OtherTeamMemberNotListed | api/hard-reset.js:51-62 | no member counter of another ':'-free team is in a team's list |
| HardReset.DeletedAtMostListed | api/hard-reset.js:69-76 | the reported count never exceeds the length of the list |
| HardReset.HardResetRestartsRotation | api/hard-reset.js:96 | after a successful hard reset the team's pointer is absent, so the rotation rule (NextIndex) restarts at index 0 for any non-empty active list |
| HardReset.HardResetIdempotent | api/hard-reset.js:69-76 | a second hard reset changes nothing and reports zero deleted keys |
| HardReset.DeleteAgain | api/hard-reset.js:69-76 | deleting the same keys a second time finds none of them and changes nothing |
| ResetGlobal.Summaries | api/reset-global.js:50-54 | one summary per team in order, with its name, 2 + members listed keys and its member count |
| ResetGlobal.Handle | api/reset-global.js:18-90 | the handler's response and new store are those of the global-reset transition |
| ResetGlobal.CollectAll | api/reset-global.js:35-55 | the loop gathers every team's key list, in catalog order, and its summary |
| ResetGlobal.AllTeamKeysMember | api/reset-global.js:35-55 | a key is listed exactly when it is in some team's list |
| ResetGlobal.AllTeamKeysCount | api/reset-global.js:35-55 | the team lists together hold, per team, its pointer, its counter and one key per member |
| ResetGlobal.AllKeysLength | api/reset-global.js:58-60 | `totalKeys`, the length of the deletion list, is the sum over the teams of 2 + their member count, plus one for the global counter |
| ResetGlobal.SumKeysUniform | api/reset-global.js:35-55 | with n members in every team, that sum is (2 + n) per team |
| ResetGlobal.GlobalRejectionDeletesNothing | api/reset-global.js:18-25 | any confirmation other than "RESET_EVERYTHING" is rejected without deleting |
| ResetGlobal.GlobalResetEffect | api/reset-global.js:35-72 | every team's pointer, counter and member counters and the global counter are gone; overrides keep their values |
| ResetGlobal.SharedCatalogGlobalReset | api/reset-global.js:58-80 | on the shared catalog 37 keys are listed, each summary counts 9 keys and 7 members, at most 37 are deleted, 4 teams are affected |
| ResetGlobal.SharedCatalogKeyCount | api/reset-global.js:60 | the list for the shared catalog, global counter included, has 37 keys |
| ResetGlobal.SharedCatalogSummaries | api/reset-global.js:50-54 | each shared-catalog summary counts 9 listed keys and 7 members |
| ResetGlobal.UniformSummaries | api/reset-global.js:50-54 | with n members per team, every summary entry counts 2 + n keys and n members |
| ResetGlobal.GlobalResetIdempotent | api/reset-global.js:65-72 | a second global reset changes nothing and reports zero deleted keys |
| Reset.Handle | api/reset.js:12-26 | the handler's response and new store are those of the reset transition |
| Reset.ResetEffect | api/reset.js:12-26 | a missing team is rejected without change; otherwise exactly the pointer and counter go, the rotation restarts, and the global counter survives unless the team is "global" |
| Reset.ResetKeepsMemberKeys | api/reset.js:20-26 | member counters and overrides keep their values |
| Reset.ResetIdempotent | api/reset.js:22-26 | resetting twice gives the same store and response as resetting once |
| TeamsPreview.StrictIndexOf | api/teams.js:50-53 | a pointer matches only if it is a string equal to some active member's id |
| TeamsPreview.Handle | api/teams.js:33-80 | the preview object for the local catalog, computed without writing |
| TeamsPreview.PreviewOf | api/teams.js:34-79 | the loop body yields the preview of one team |
| TeamsPreview.PreviewFollowsRotation | api/teams.js:49-67 | for an absent or string pointer the previewed next owner is the one the assignment rotation picks |
| TeamsPreview.NumericPointerRestarts | api/teams.js:50-62 | a pointer read back as a number never matches under `===`: the preview restarts at the first active member |
| TeamsPreview.NumericPointerDiverges | api/teams.js:50-53 | for pointer 246802831 the rotation continues at index 1 while the preview shows 246802831 again |
| TeamsPreview.NumericPointerAdvances | api/assign.js:101-109 | assign's string comparison finds the numeric pointer 246802831 at index 0 and moves to index 1 |
| TeamsPreview.NumericPointerIgnored | api/teams.js:49-53 | the preview's strict comparison never matches a numeric pointer and shows the first active member |
| TeamsPreview.NextOwnerIsActive | api/teams.js:58-67 | the next owner is null exactly when no member is active, and otherwise is an active member |
| TeamsPreview.LastAssignedNamesPointer | api/teams.js:50-75 | `lastAssigned` is the matched member's name, null when the pointer is absent or names no active member |
| TeamsPreview.TotalAssignmentsDefault | api/teams.js:42-78 | an absent counter previews as 0 assignments and a stored integer as itself |
| TeamsPreview.ActiveAtMostTotal | api/teams.js:72-73 | every preview counts at most as many active members as members |
| TeamsPreview.PreviewRosters | api/teams.js:4-21 | every member of the local catalog is active |
| TeamsPreview.PreviewCatalogFullyActive | api/teams.js:4-21 | both local teams are previewed, with 4 and 2 active members, each with a next owner |
| Stats.PercentageOf | api/stats.js:34-36 | the `'0.0'` literal branch (ZeroPercent) is taken exactly when the global total is not positive; otherwise the share is the symbolic `Ratio` |
| Stats.ZeroShareTakesRatio | api/stats.js:34-36 | a team with no leads under a positive global total takes the ratio branch, not the literal one |
| Stats.InsertSorted | api/stats.js:65 | inserting into a descending list keeps it descending |
| Stats.InsertPermutes | api/stats.js:65 | inserting adds exactly the one entry |
| Stats.InsertStable | api/stats.js:65 | an inserted entry goes before the entries with equal leads; the others keep their order |
| Stats.SortDescCorrect | api/stats.js:65 | the sort is descending by leads, a permutation, and stable among equal leads |
| Stats.ActiveAtMostMembers | api/stats.js:74-79 | the active total never exceeds the member total |
| Stats.SharedCatalogTotals | api/stats.js:74-79 | the shared catalog has 28 members, 14 of them active |
| Stats.SharedCatalogMembers | api/stats.js:74-79 | the shared catalog has 28 members |
| Stats.SharedCatalogActive | api/stats.js:74-79 | 14 members of the shared catalog are active |
| Stats.Handle | api/stats.js:14-85 | the report for the shared catalog, computed without writing |
| Stats.CollectBreakdown | api/stats.js:26-38 | the team loop builds the breakdown object |
| Stats.CollectMembers | api/stats.js:43-62 | the nested loop pushes, in catalog order, every member whose count is positive |
| Stats.CollectTeamMembers | api/stats.js:46-61 | the inner loop keeps, in roster order, the team's members whose count is positive |
| Stats.CollectedExactly | api/stats.js:43-62 | an entry is collected exactly when it is a catalog member's entry with a positive count |
| Stats.TeamCollectedExactly | api/stats.js:46-60 | within a team, exactly the members with a positive count are collected |
| Stats.Ranking | api/stats.js:65-83 | allMembers is the collected list sorted descending, stably, as a permutation; topPerformers is its first min(10, n), none outranked |
| Stats.RankedHaveLeads | api/stats.js:51 | every ranked member has at least one lead |
| Stats.AbsentCountersReadZero | api/stats.js:18-49 | absent global, team and member counters read as 0 |
| Stats.BreakdownKeys | api/stats.js:26-38 | the breakdown has exactly one key per team |
| Stats.BreakdownEntry | api/stats.js:26-37 | each team's entry holds its own counter, and its percentage takes the `'0.0'` literal branch (ZeroPercent) exactly when the global total is not positive |
| Stats.SharedCatalogReport | api/stats.js:71-79 | the shared-catalog report counts 4 teams, 28 members and 14 active members |

## Left out

- HubSpot: the owner update is a boolean input (`hubspotOk`) and no network call is modelled. Health probes (`api/health.js`) are not part of this model.
- Store transport: the Redis and Vercel KV clients, their JSON auto-deserialisation and connection failures are left out. A stored value is whatever `Value` the client hands back. A store that cannot be reached, which would give 500 from any handler, is not modelled. The only store error modelled is INCR on a non-integer value.
- Store clients: `api/reset.js` and `api/teams.js` import the `@vercel/kv` client, while the other handlers import `lib/redis`. The model has one `Store.Kv`, so Reset.ResetEffect and TeamsPreview.PreviewFollowsRotation hold only when both clients address the same database, which depends on deployment configuration outside this model.
- Concurrency: the pointer GET and SET in the assignment are not atomic. The sequential model cannot express lost updates between concurrent requests.
- HTTP handling is not modelled: method checks (405), CORS headers, OPTIONS, console logging, timestamps, and response fields that only echo constant text.
- Stats.PercentageOf: the one-decimal rendering of teamTotal / globalTotal * 100 (floating point, `toFixed(1)`) is kept as the symbolic `Ratio`. Only the `'0.0'` literal branch is computed. A `Ratio` can itself render as "0.0" (a zero team total, or a share below 0.05%), so `ZeroPercent` is not the only way the response shows "0.0".
- Js.ToNumber: only "" and unsigned decimal strings parse. Signs, whitespace, decimals, exponents and hexadecimal read as NaN. Integer counters are unbounded, with no 64-bit INCR overflow. INCR on a numeric string is treated as an error.
- Request fields are scalars (string, integer, boolean). Objects and arrays in the body, and their `String()` forms, are not modelled.
- A request without a body, where destructuring `req.body` throws and the handler answers 500, is not modelled. The model takes each body field as given, possibly undefined.
- The shared catalog is not read by `api/assign.js` or `api/teams.js`; each declares its own, and the model follows that.
- TeamsPreview.NumericPointerRestarts: whether the store client actually returns a numeric pointer is a property of the client's deserialisation, which is not modelled. The lemma states what the strict comparison does when it does.
