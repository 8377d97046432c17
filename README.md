# gitlab-attendant: merge-request assignment, modelled in Dafny

This project models `assign_open_merge_requests`, the task of gitlab-attendant that assigns a
reviewer to stale, unassigned merge requests. The task runs in five steps:

1. It fetches the open merge requests.
2. It is meant to discard, in three in-place passes, those that are work in progress, those
   younger than 24 hours, and those that already have an assignee. As written, each pass skips
   the element right after one it removes, so some of those survive (see "## Findings").
3. It fetches the member list of each survivor's project.
4. It builds each survivor's candidates: the project's member ids other than the author's.
5. When there are candidates, it picks one at random and dispatches one assignment call.

The GitLab API is abstracted:

- the open merge requests are an input sequence;
- the member lookup is a map from project id to the project's member records;
- a project missing from the map stands for a failed GET, on which the process exits (`sys.exit(1)`);
- member requests and assignment calls are returned as traces;
- `SystemRandom().choice` is a nondeterministic pick of a candidate index (`:|`).

Files:

- `lists.dfy` (module `Lists`) models Python's `list.remove`, which deletes the first equal
  element. It also defines `DropsOnly(drop, r, s)`: `r` is `s` with some elements deleted, each
  satisfying `drop`, and the order of the rest kept. `Kept` is the ideal filter.
- `tasks.dfy` (module `Tasks`) holds the records and the three discard passes. Each pass is a
  method with an index loop over a shrinking sequence, specified by the function `PassFrom`.
  The module also holds the member fetches, the candidate list, the assignment loop, and the
  run predicates `Serve` and `Run`.
- `scenarios.dfy` (module `Scenarios`) restates the cases of the task's unit tests over the run
  model. It also holds the concrete input that exposes the skipped-element behaviour.

How the code behaves where a reader might expect otherwise, as the model follows it:

- `if not open_merge_requests: pass` (gitlab_attendant/tasks.py:50-51) does not return early. No
  member is fetched in that case only because the comprehension at gitlab_attendant/tasks.py:54-59
  runs over an empty list (`Tasks.NothingEligibleNothingRequested`).
- Members are fetched once per surviving merge request, in survivor order, not once per project.
  Later results overwrite the same key (`Tasks.RequestsFollowSurvivors`).
- The passes remove elements from the list they iterate. Because of that, the element right after
  a removed one is never examined (see "## Findings").

## Model

| member | source | states |
|---|---|---|
| Lists.RemoveFirst | gitlab_attendant/tasks.py:24 | `list.remove(x)` on a list holding `x`: the result is one element shorter |
| Lists.RemoveFirstMultiset | gitlab_attendant/tasks.py:24 | `list.remove(x)` takes away exactly one copy of `x` and nothing else |
| Lists.RemoveFirstAt | gitlab_attendant/tasks.py:24 | the element removed is the first one equal to `x`; everything before and after it is kept in order |
| Tasks.DiscardPass | gitlab_attendant/tasks.py:23-47 | one discard pass as the comprehension runs it: the index advances past each read element while removals shift later ones down; the result only deletes elements the pass condition holds of, keeping order |
| Tasks.PassDropsOnly | gitlab_attendant/tasks.py:23-47 | each pass removes only elements that are WIP / younger than a day / assigned, and the list after it is a subsequence of the list before |
| Tasks.PassNoMatch | gitlab_attendant/tasks.py:23-47 | a pass over a list where no element matches leaves the list unchanged |
| Tasks.PassSingleton | gitlab_attendant/tasks.py:23-47 | on a one-element list a pass yields `[]` if the element matches and the list itself otherwise |
| Tasks.AgeGateBoundary | gitlab_attendant/tasks.py:35-39 | on a one-element list the age pass keeps the merge request exactly when `now - created_at >= 24h`; the boundary is kept. On every list `Tasks.PassDropsOnly` gives the keep direction: a request at least a day old is never removed |
| Tasks.SurvivorsKeepEligible | gitlab_attendant/tasks.py:23-47 | after the three passes no eligible merge request is lost: filtering survivors by eligibility equals filtering the input; survivors are input elements in input order |
| Tasks.EligibleMergeRequests | gitlab_attendant/tasks.py:22-47 | the intended result of the passes: a merge request is in it exactly when it is in the input and not WIP, at least a day old and unassigned, in input order |
| Tasks.FetchProjectMembers | gitlab_attendant/tasks.py:54-59 | one member request per survivor, in order, stopping at the first failed request; when none fails the map binds each survivor's project id to its members |
| Tasks.RequestsFollowSurvivors | gitlab_attendant/tasks.py:54-59 | requests are a prefix of the survivors' project ids (no memoization); all of them when no request fails; otherwise every request before the last succeeds and the last one fails, so the failure is the first one |
| Tasks.MembersOfExactly | gitlab_attendant/tasks.py:54-59 | the member map holds exactly the survivors' known projects, each bound to the members the lookup gives |
| Tasks.CandidatesExactly | gitlab_attendant/tasks.py:66-69 | a candidate is exactly a member id different from the author's; the list is empty exactly when every member is the author (or there are none) |
| Tasks.CleanProjectMembers | gitlab_attendant/tasks.py:66-69 | the inner loop collects the member ids other than the author's, in member order; the author is never among them |
| Tasks.AssignEach | gitlab_attendant/tasks.py:65-77 | the assignment loop dispatches, in survivor order, one call `(project_id, iid, chosen)` per survivor with candidates, `chosen` being one of them, and none for the others |
| Tasks.DispatchedMatches | gitlab_attendant/tasks.py:65-77 | the k-th call belongs to the k-th survivor with candidates and names one of its candidates |
| Tasks.ServeSurvivors | gitlab_attendant/tasks.py:53-77 | fetch then assign; a failed fetch exits before any assignment |
| Tasks.AssignOpenMergeRequests | gitlab_attendant/tasks.py:14-77 | the whole task: the three passes run in order, then the survivors are served |
| Tasks.NothingEligibleNothingRequested | gitlab_attendant/tasks.py:50-59 | with no survivor, no member request is made and no assignment dispatched |
| Tasks.ServeAssignments | gitlab_attendant/tasks.py:65-77 | at most one call per survivor, in survivor order; each names a member of the merge request's project who is not its author |
| Tasks.AssignEligibleMergeRequests | gitlab_attendant/tasks.py:14-77 | the task as evidently intended: serve exactly the eligible merge requests |
| Tasks.IntendedAssignsOnlyEligible | gitlab_attendant/tasks.py:14-77 | the intended task assigns only eligible merge requests, never to their author |
| Scenarios.LoneSurvivor | gitlab_attendant/tasks.py:54-77 | a lone survivor of a known project: its project is requested once; it is assigned one candidate if it has any, and nothing otherwise |
| Scenarios.OnlyOtherMemberAssigned | gitlab_attendant/tests/test_tasks.py:22-50 | author 1, members `[5]`: exactly one call, `(1, 1, 5)` |
| Scenarios.NoMergeRequests | gitlab_attendant/tests/test_tasks.py:55-70 | no open merge requests: no member request, no call |
| Scenarios.LoneIneligibleIgnored | gitlab_attendant/tests/test_tasks.py:75-151 | a lone merge request that is WIP, or created now, or already assigned: no member request, no call |
| Scenarios.NoCandidateNoAssignment | gitlab_attendant/tests/test_tasks.py:156-215 | a project with no members, or whose only member is the author: the members are requested, no call is made, no error |
| Scenarios.OneDayOldAssigned | gitlab_attendant/tasks.py:35-39 | a merge request exactly 24 hours old is assigned |
| Scenarios.FailedFetchExits | gitlab_attendant/utils.py:23-30 | a failed member request ends the process before any assignment |
| Scenarios.WorkInProgressPairAssigned | gitlab_attendant/tasks.py:23-27 | two consecutive WIP merge requests: the pass removes the first only, and the second is assigned |
| Scenarios.AssignedPairReassigned | gitlab_attendant/tasks.py:43-47 | two consecutive already-assigned merge requests: the second is reassigned |
| Scenarios.WorkInProgressPairIntended | gitlab_attendant/tasks.py:22-27 | the intended filter drops both of them |

## Findings

| source | as written | input that shows it | evidently intended | confidence | as-written member | corrected member |
|---|---|---|---|---|---|---|
| gitlab_attendant/tasks.py:23-47 | each pass calls `list.remove` inside a comprehension that iterates the same list; the element after a removed one slides into the slot just read and is never examined | two consecutive WIP merge requests, both two days old and unassigned, in a project whose members are `[5]` with author `1`: the second survives and is assigned to member 5. Two consecutive already-assigned merge requests behave the same way: the second is reassigned, as Scenarios.AssignedPairReassigned shows | every WIP, younger-than-a-day or already-assigned merge request is discarded, as the comments at lines 22, 31 and 42 say | high; not executed | Scenarios.WorkInProgressPairAssigned | Tasks.EligibleMergeRequests |

`Tasks.AssignOpenMergeRequests` keeps the passes as written. `Tasks.AssignEligibleMergeRequests`
serves the corrected list through the same fetch and assignment code. `Tasks.SurvivorsKeepEligible`
shows how the two relate: the as-written passes never lose an eligible merge request, but may let
ineligible ones through.

## Left out

- The fetch of open merge requests (`get_all_open_merge_requests`) is an input sequence. The API
  wrappers in `gitlab_attendant/api_calls.py` are not part of this model.
- HTTP transport and retries (`gitlab_attendant/utils.py`) are left out, being network I/O. A failed
  member request is a project id missing from the lookup map, and it ends the run.
- The response of the assignment call (`put_request`) is ignored, as the task ignores it. Its
  transport failures are not modelled.
- The member lookup is a fixed map, so refetching a project returns the same list. The overwrite of
  the dict entry by a later fetch is therefore not observable in the model.
- ISO-8601 parsing (`dateutil.parser.parse`) and the UTC clock are left out. `created_at` and `now`
  are whole seconds, and `timedelta(1)` is 86400. Sub-second precision is not modelled.
- Tasks.AssignEach: the pick is any candidate. Uniformity and the cryptographic strength of
  `random.SystemRandom` are not verifiable properties here.
- The records carry only the fields the task reads. `assignee` is `Option<Member>`, so a present
  assignee counts as truthy; an empty assignee dict, which Python treats as falsy, is not modelled.
- Logging, the CLI, the scheduler loop and packaging (`log_handlers.py`, `main.py`, `setup.py`) are
  process plumbing and are left out.
- The other four tasks imported by the tests are not defined in the modelled `tasks.py`. They are
  not part of this model.
