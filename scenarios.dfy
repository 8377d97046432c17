/** The cases of the task's unit tests, stated over the run model, and the
    skipped-element behaviour of the discard passes on a concrete input. */
module Scenarios {
  import opened Lists
  import opened Tasks

  /** An unassigned merge request of project 1 by user 1, two days old. */
  function Stale(now: int, iid: int): MergeRequest
  {
    MergeRequest(false, now - 2 * OneDay, None, 1, iid, Member(1))
  }

  /** A merge request no pass removes survives all three. */
  lemma SurvivesAll(now: int, mr: MergeRequest)
    requires Eligible(now, mr)
    ensures Survivors(now, [mr]) == [mr]
  {
    PassSingleton(WorkInProgress, mr);
    PassSingleton(YoungerThanADay(now), mr);
    PassSingleton(HasAssignee, mr);
  }

  /** A single merge request one pass removes leaves no survivor. */
  lemma SurvivesNone(now: int, mr: MergeRequest)
    requires !Eligible(now, mr)
    ensures Survivors(now, [mr]) == []
  {
    PassSingleton(WorkInProgress, mr);
    PassSingleton(YoungerThanADay(now), mr);
    PassSingleton(HasAssignee, mr);
    assert Pass(YoungerThanADay(now), []) == [];
    assert Pass(HasAssignee, []) == [];
  }

  /** A run whose passes leave one merge request, of a project the lookup
      knows: its project's members are requested once, and it is assigned
      one of its candidates if it has any, else nothing. */
  lemma LoneSurvivor(open: seq<MergeRequest>, now: int, directory: map<ProjectId, seq<Member>>,
    requested: seq<ProjectId>, calls: seq<Assignment>, exited: bool, mr: MergeRequest)
    requires Survivors(now, open) == [mr] && mr.projectId in directory
    requires Run(open, now, directory, requested, calls, exited)
    ensures requested == [mr.projectId] && !exited
    ensures var candidates := Candidates(directory[mr.projectId], mr.author.id);
      if candidates == [] then calls == []
      else |calls| == 1 && calls[0].projectId == mr.projectId && calls[0].iid == mr.iid
           && calls[0].memberId in candidates
  {
    assert [mr][1..] == [] && [mr][..0] == [];
    assert Requests([mr], directory) == [mr.projectId];
    assert !Exits([mr], directory);
    assert MembersOf([mr], directory) == map[mr.projectId := directory[mr.projectId]];
    var table := MembersOf([mr], directory);
    assert Dispatched([mr], table, calls);
    if Candidates(directory[mr.projectId], mr.author.id) == [] {
      assert Dispatched([mr][..0], table, calls);
    } else {
      assert Dispatched([mr][..0], table, calls[..|calls| - 1]);
    }
  }

  /** One stale unassigned merge request by user 1, project members [5]:
      exactly one call, assigning member 5. */
  lemma OnlyOtherMemberAssigned(now: int, requested: seq<ProjectId>, calls: seq<Assignment>, exited: bool)
    requires Run([Stale(now, 1)], now, map[1 := [Member(5)]], requested, calls, exited)
    ensures requested == [1] && !exited && calls == [Assignment(1, 1, 5)]
  {
    var mr := Stale(now, 1);
    SurvivesAll(now, mr);
    LoneSurvivor([mr], now, map[1 := [Member(5)]], requested, calls, exited, mr);
    assert Candidates([Member(5)], 1) == [5];
  }

  /** No open merge requests: no member fetch, no assignment. */
  lemma NoMergeRequests(now: int, directory: map<ProjectId, seq<Member>>,
    requested: seq<ProjectId>, calls: seq<Assignment>, exited: bool)
    requires Run([], now, directory, requested, calls, exited)
    ensures requested == [] && calls == [] && !exited
  {
    assert Survivors(now, []) == [];
    NothingEligibleNothingRequested([], directory, requested, calls, exited);
  }

  /** A lone merge request that is work in progress, younger than a day,
      or already assigned: no member fetch, no assignment. */
  lemma LoneIneligibleIgnored(now: int, mr: MergeRequest, directory: map<ProjectId, seq<Member>>,
    requested: seq<ProjectId>, calls: seq<Assignment>, exited: bool)
    requires mr.workInProgress || mr.createdAt == now || mr.assignee.Some?
    requires Run([mr], now, directory, requested, calls, exited)
    ensures requested == [] && calls == [] && !exited
  {
    SurvivesNone(now, mr);
    NothingEligibleNothingRequested([], directory, requested, calls, exited);
  }

  /** A merge request exactly one day old is assigned. */
  lemma OneDayOldAssigned(now: int, requested: seq<ProjectId>, calls: seq<Assignment>, exited: bool)
    requires Run([MergeRequest(false, now - OneDay, None, 1, 1, Member(1))], now, map[1 := [Member(5)]], requested, calls, exited)
    ensures calls == [Assignment(1, 1, 5)]
  {
    var mr := MergeRequest(false, now - OneDay, None, 1, 1, Member(1));
    SurvivesAll(now, mr);
    LoneSurvivor([mr], now, map[1 := [Member(5)]], requested, calls, exited, mr);
    assert Candidates([Member(5)], 1) == [5];
  }

  /** The project has no members, or only the author: the member list is
      fetched and nothing is assigned, without error. */
  lemma NoCandidateNoAssignment(now: int, members: seq<Member>,
    requested: seq<ProjectId>, calls: seq<Assignment>, exited: bool)
    requires members == [] || members == [Member(1)]
    requires Run([Stale(now, 1)], now, map[1 := members], requested, calls, exited)
    ensures requested == [1] && !exited && calls == []
  {
    var mr := Stale(now, 1);
    SurvivesAll(now, mr);
    LoneSurvivor([mr], now, map[1 := members], requested, calls, exited, mr);
    assert Candidates(members, 1) == [];
  }

  /** A failed member request ends the run before any assignment. */
  lemma FailedFetchExits(now: int, requested: seq<ProjectId>, calls: seq<Assignment>, exited: bool)
    requires Run([Stale(now, 1)], now, map[2 := [Member(5)]], requested, calls, exited)
    ensures requested == [1] && exited && calls == []
  {
    SurvivesAll(now, Stale(now, 1));
    assert Exits([Stale(now, 1)], map[2 := [Member(5)]]) by {
      assert [Stale(now, 1)][0].projectId !in map[2 := [Member(5)]];
    }
  }

  /** Two merge requests in a row that are both work in progress: the WIP
      pass removes the first, the second slides into the slot just read and
      is never examined, and the run assigns it. */
  lemma WorkInProgressPairAssigned(now: int, requested: seq<ProjectId>, calls: seq<Assignment>, exited: bool)
    requires Run([Stale(now, 1).(workInProgress := true), Stale(now, 2).(workInProgress := true)],
                 now, map[1 := [Member(5)]], requested, calls, exited)
    ensures Pass(WorkInProgress, [Stale(now, 1).(workInProgress := true), Stale(now, 2).(workInProgress := true)])
            == [Stale(now, 2).(workInProgress := true)]
    ensures calls == [Assignment(1, 2, 5)]
  {
    var a, b := Stale(now, 1).(workInProgress := true), Stale(now, 2).(workInProgress := true);
    assert RemoveFirst([a, b], a) == [b];
    assert PassFrom(WorkInProgress, [a, b], 0) == PassFrom(WorkInProgress, [b], 1) == [b];
    PassSingleton(YoungerThanADay(now), b);
    PassSingleton(HasAssignee, b);
    assert Survivors(now, [a, b]) == [b];
    LoneSurvivor([a, b], now, map[1 := [Member(5)]], requested, calls, exited, b);
    assert Candidates([Member(5)], 1) == [5];
  }

  /** The same with two already-assigned merge requests in a row: the
      second is reassigned. */
  lemma AssignedPairReassigned(now: int, requested: seq<ProjectId>, calls: seq<Assignment>, exited: bool)
    requires Run([Stale(now, 1).(assignee := Some(Member(2))), Stale(now, 2).(assignee := Some(Member(2)))],
                 now, map[1 := [Member(5)]], requested, calls, exited)
    ensures calls == [Assignment(1, 2, 5)]
  {
    var a, b := Stale(now, 1).(assignee := Some(Member(2))), Stale(now, 2).(assignee := Some(Member(2)));
    PassNoMatch(WorkInProgress, [a, b]);
    PassNoMatch(YoungerThanADay(now), [a, b]);
    assert RemoveFirst([a, b], a) == [b];
    assert PassFrom(HasAssignee, [a, b], 0) == PassFrom(HasAssignee, [b], 1) == [b];
    assert Survivors(now, [a, b]) == [b];
    LoneSurvivor([a, b], now, map[1 := [Member(5)]], requested, calls, exited, b);
    assert Candidates([Member(5)], 1) == [5];
  }

  /** The evidently intended filter drops both. */
  lemma WorkInProgressPairIntended(now: int)
    ensures EligibleMergeRequests(now, [Stale(now, 1).(workInProgress := true), Stale(now, 2).(workInProgress := true)]) == []
  {
    var a, b := Stale(now, 1).(workInProgress := true), Stale(now, 2).(workInProgress := true);
    assert [a, b][1..] == [b] && [b][1..] == [];
    assert Ineligible(now)(a) && Ineligible(now)(b);
    assert Kept(Ineligible(now), [b]) == Kept(Ineligible(now), []) == [];
  }
}
