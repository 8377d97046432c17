/** The merge-request assignment task of gitlab-attendant
    (`assign_open_merge_requests`): three in-place discard passes over the
    open merge requests, one member fetch per surviving merge request, and
    one random assignment per survivor whose project has a member other than
    its author. The GitLab API is abstracted: the fetched merge requests are
    an input sequence, member lookup is a map from project id to members
    (a project missing from it is a failed request, on which the process
    exits), and requests and assignments are returned as traces. */
module Tasks {
  import opened Lists

  type ProjectId = int
  type UserId = int

  /** `timedelta(1)`, in seconds. */
  const OneDay: int := 86400

  /** A project member record; the task reads only its `id`. */
  datatype Member = Member(id: UserId)

  /** An open merge request, with the fields the task reads. Timestamps are
      whole seconds; `assignee` is `None` when the API gives null. */
  datatype MergeRequest = MergeRequest(
    workInProgress: bool,
    createdAt: int,
    assignee: Option<Member>,
    projectId: ProjectId,
    iid: int,
    author: Member)

  datatype Option<T> = None | Some(value: T)

  /** One `assign_user_to_merge_request(project_id, iid, user_id)` call. */
  datatype Assignment = Assignment(projectId: ProjectId, iid: int, memberId: UserId)

  /** The three discard passes, in the order the task runs them. */
  datatype Discard = WorkInProgress | YoungerThanADay(now: int) | HasAssignee

  /** The condition under which a pass removes a merge request. */
  predicate Discards(rule: Discard, mr: MergeRequest)
  {
    match rule
    case WorkInProgress => mr.workInProgress
    case YoungerThanADay(now) => now - mr.createdAt < OneDay
    case HasAssignee => mr.assignee.Some?
  }

  function Discarder(rule: Discard): MergeRequest -> bool
  {
    mr => Discards(rule, mr)
  }

  /** What the task evidently means to assign: not work in progress, at
      least a day old, and unassigned. */
  predicate Eligible(now: int, mr: MergeRequest)
  {
    !mr.workInProgress && now - mr.createdAt >= OneDay && mr.assignee.None?
  }

  function Ineligible(now: int): MergeRequest -> bool
  {
    mr => !Eligible(now, mr)
  }

  // ---------------------------------------------------------------------
  // The discard passes

  /** The list a pass leaves when its iterator stands at index `i` of the
      current list `s`: read `s[i]`, advance, and if the element is to be
      discarded remove its first occurrence, so the next element slides into
      the slot just read and is never examined. */
  function PassFrom(rule: Discard, s: seq<MergeRequest>, i: nat): seq<MergeRequest>
    decreases |s| - i
  {
    if i >= |s| then s
    else if Discards(rule, s[i]) then PassFrom(rule, RemoveFirst(s, s[i]), i + 1)
    else PassFrom(rule, s, i + 1)
  }

  function Pass(rule: Discard, s: seq<MergeRequest>): seq<MergeRequest>
  {
    PassFrom(rule, s, 0)
  }

  /** The merge requests left after the three passes. */
  function Survivors(now: int, open: seq<MergeRequest>): seq<MergeRequest>
  {
    Pass(HasAssignee, Pass(YoungerThanADay(now), Pass(WorkInProgress, open)))
  }

  lemma {:induction false} PassFromDropsOnly(rule: Discard, s: seq<MergeRequest>, i: nat)
    ensures DropsOnly(Discarder(rule), PassFrom(rule, s, i), s)
    decreases |s| - i
  {
    if i >= |s| {
      DropsOnlyReflexive(Discarder(rule), s);
    } else if Discards(rule, s[i]) {
      var t := RemoveFirst(s, s[i]);
      RemoveFirstDropsOnly(Discarder(rule), s, s[i]);
      PassFromDropsOnly(rule, t, i + 1);
      DropsOnlyTransitive(Discarder(rule), PassFrom(rule, t, i + 1), t, s);
    } else {
      PassFromDropsOnly(rule, s, i + 1);
    }
  }

  /** A pass removes only elements its condition holds of, and keeps the
      order of the rest. */
  lemma PassDropsOnly(rule: Discard, s: seq<MergeRequest>)
    ensures DropsOnly(Discarder(rule), Pass(rule, s), s)
  {
    PassFromDropsOnly(rule, s, 0);
  }

  lemma {:induction false} PassFromNoMatch(rule: Discard, s: seq<MergeRequest>, i: nat)
    requires forall k :: 0 <= k < |s| ==> !Discards(rule, s[k])
    ensures PassFrom(rule, s, i) == s
    decreases |s| - i
  {
    if i < |s| {
      PassFromNoMatch(rule, s, i + 1);
    }
  }

  /** A pass over a list none of whose elements match leaves it unchanged. */
  lemma PassNoMatch(rule: Discard, s: seq<MergeRequest>)
    requires forall k :: 0 <= k < |s| ==> !Discards(rule, s[k])
    ensures Pass(rule, s) == s
  {
    PassFromNoMatch(rule, s, 0);
  }

  /** A one-element list loses its element exactly when it matches. */
  lemma PassSingleton(rule: Discard, mr: MergeRequest)
    ensures Pass(rule, [mr]) == if Discards(rule, mr) then [] else [mr]
  {
    if Discards(rule, mr) {
      assert RemoveFirst([mr], mr) == [];
      assert PassFrom(rule, [mr], 0) == PassFrom(rule, [], 1);
    } else {
      assert PassFrom(rule, [mr], 0) == PassFrom(rule, [mr], 1);
    }
  }

  /** On a one-element list the age gate keeps the merge request exactly
      when it is at least a day old: the boundary `now - created_at == 24h`
      is kept. On longer lists `PassDropsOnly` gives only the keep direction
      (a request at least a day old is never removed); a younger one right
      after a removed one is skipped and kept. */
  lemma AgeGateBoundary(now: int, mr: MergeRequest)
    ensures Pass(YoungerThanADay(now), [mr]) == [mr] <==> now - mr.createdAt >= OneDay
  {
    PassSingleton(YoungerThanADay(now), mr);
  }

  /** The passes never lose an eligible merge request: filtering the
      survivors by eligibility gives the same list as filtering the input.
      Every survivor is an input element, and survivors keep input order. */
  lemma SurvivorsKeepEligible(now: int, open: seq<MergeRequest>)
    ensures DropsOnly(Ineligible(now), Survivors(now, open), open)
    ensures Kept(Ineligible(now), Survivors(now, open)) == Kept(Ineligible(now), open)
    ensures multiset(Survivors(now, open)) <= multiset(open)
  {
    var s1 := Pass(WorkInProgress, open);
    var s2 := Pass(YoungerThanADay(now), s1);
    var s3 := Pass(HasAssignee, s2);
    PassDropsOnly(WorkInProgress, open);
    PassDropsOnly(YoungerThanADay(now), s1);
    PassDropsOnly(HasAssignee, s2);
    DropsOnlyWeaken(Discarder(WorkInProgress), Ineligible(now), s1, open);
    DropsOnlyWeaken(Discarder(YoungerThanADay(now)), Ineligible(now), s2, s1);
    DropsOnlyWeaken(Discarder(HasAssignee), Ineligible(now), s3, s2);
    DropsOnlyTransitive(Ineligible(now), s2, s1, open);
    DropsOnlyTransitive(Ineligible(now), s3, s2, open);
    DropsOnlyKept(Ineligible(now), s3, open);
    DropsOnlySubMultiset(Ineligible(now), s3, open);
  }

  /** One discard pass, as the list comprehension runs it: an index walks
      the list while `list.remove` shrinks it. */
  method DiscardPass(rule: Discard, s: seq<MergeRequest>) returns (r: seq<MergeRequest>)
    ensures r == Pass(rule, s)
    ensures DropsOnly(Discarder(rule), r, s)
  {
    r := s;
    var i := 0;
    DropsOnlyReflexive(Discarder(rule), s);
    while i < |r|
      invariant i <= |r| + 1
      invariant PassFrom(rule, r, i) == Pass(rule, s)
      invariant DropsOnly(Discarder(rule), r, s)
      decreases |r| - i
    {
      var mr := r[i];
      i := i + 1;
      if Discards(rule, mr) {
        RemoveFirstDropsOnly(Discarder(rule), r, mr);
        DropsOnlyTransitive(Discarder(rule), RemoveFirst(r, mr), r, s);
        r := RemoveFirst(r, mr);
      }
    }
  }

  /** The evidently intended result of the three passes: exactly the
      eligible merge requests, in input order. */
  function EligibleMergeRequests(now: int, open: seq<MergeRequest>): (r: seq<MergeRequest>)
    ensures forall mr :: mr in r <==> mr in open && Eligible(now, mr)
    ensures DropsOnly(Ineligible(now), r, open)
  {
    KeptDropsOnly(Ineligible(now), open);
    Kept(Ineligible(now), open)
  }

  // ---------------------------------------------------------------------
  // Member fetches

  function ProjectIds(s: seq<MergeRequest>): (ids: seq<ProjectId>)
    ensures |ids| == |s|
    ensures forall k :: 0 <= k < |s| ==> ids[k] == s[k].projectId
  {
    if s == [] then [] else [s[0].projectId] + ProjectIds(s[1..])
  }

  /** The requests the dict comprehension issues: one per survivor, in
      survivor order, up to and including the first that fails. */
  function Requests(survivors: seq<MergeRequest>, directory: map<ProjectId, seq<Member>>): (req: seq<ProjectId>)
  {
    if survivors == [] then []
    else if survivors[0].projectId !in directory then [survivors[0].projectId]
    else [survivors[0].projectId] + Requests(survivors[1..], directory)
  }

  /** Whether some member fetch fails, ending the process. */
  predicate Exits(survivors: seq<MergeRequest>, directory: map<ProjectId, seq<Member>>)
  {
    exists k :: 0 <= k < |survivors| && survivors[k].projectId !in directory
  }

  /** The member map the dict comprehension builds when every fetch
      succeeds: each survivor's project id bound to its members. */
  function MembersOf(survivors: seq<MergeRequest>, directory: map<ProjectId, seq<Member>>): (table: map<ProjectId, seq<Member>>)
    decreases |survivors|
  {
    if survivors == [] then map[]
    else
      var n := |survivors| - 1;
      var p := survivors[n].projectId;
      var table := MembersOf(survivors[..n], directory);
      if p in directory then table[p := directory[p]] else table
  }

  /** The member map holds exactly the survivors' projects, each with the
      members the lookup gives for it. */
  lemma {:induction false} MembersOfExactly(survivors: seq<MergeRequest>, directory: map<ProjectId, seq<Member>>)
    ensures forall p :: p in MembersOf(survivors, directory) ==> p in directory && MembersOf(survivors, directory)[p] == directory[p]
    ensures forall k :: 0 <= k < |survivors| && survivors[k].projectId in directory ==> survivors[k].projectId in MembersOf(survivors, directory)
    ensures forall p :: p in MembersOf(survivors, directory) ==> p in ProjectIds(survivors)
    decreases |survivors|
  {
    if survivors != [] {
      var n := |survivors| - 1;
      MembersOfExactly(survivors[..n], directory);
      forall k | 0 <= k < n ensures survivors[..n][k] == survivors[k] { }
      var ids := ProjectIds(survivors);
      forall p | p in ProjectIds(survivors[..n]) ensures p in ids {
        var k :| 0 <= k < n && ProjectIds(survivors[..n])[k] == p;
        assert ids[k] == p;
      }
      assert ids[n] == survivors[n].projectId;
    }
  }

  /** A known first project neither causes nor prevents a failed fetch. */
  lemma ExitsCons(survivors: seq<MergeRequest>, directory: map<ProjectId, seq<Member>>)
    requires survivors != [] && survivors[0].projectId in directory
    ensures Exits(survivors, directory) <==> Exits(survivors[1..], directory)
  {
    var rest := survivors[1..];
    if Exits(rest, directory) {
      var k :| 0 <= k < |rest| && rest[k].projectId !in directory;
      assert survivors[k + 1] == rest[k];
    }
  }

  /** Requests are a prefix of the survivors' project ids: only survivors'
      projects, in survivor order, one request per survivor and no
      memoization; all of them are requested unless a fetch fails, and then
      the failing request is the first failure and the last request. */
  lemma {:induction false} RequestsFollowSurvivors(survivors: seq<MergeRequest>, directory: map<ProjectId, seq<Member>>)
    ensures |Requests(survivors, directory)| <= |survivors|
    ensures Requests(survivors, directory) == ProjectIds(survivors)[..|Requests(survivors, directory)|]
    ensures !Exits(survivors, directory) ==> Requests(survivors, directory) == ProjectIds(survivors)
    ensures Exits(survivors, directory) ==> Requests(survivors, directory)[|Requests(survivors, directory)| - 1] !in directory
    ensures forall k :: 0 <= k < |Requests(survivors, directory)| - 1 ==> Requests(survivors, directory)[k] in directory
  {
    if survivors != [] {
      var mr, rest := survivors[0], survivors[1..];
      RequestsFollowSurvivors(rest, directory);
      if mr.projectId in directory {
        ExitsCons(survivors, directory);
        assert ProjectIds(survivors) == [mr.projectId] + ProjectIds(rest);
      } else {
        assert Exits(survivors, directory) by { assert survivors[0].projectId !in directory; }
      }
    }
  }

  /** The member fetches of the dict comprehension: one GET per survivor;
      a failed GET exits the process, so no later request is made. */
  method FetchProjectMembers(survivors: seq<MergeRequest>, directory: map<ProjectId, seq<Member>>)
    returns (table: map<ProjectId, seq<Member>>, requested: seq<ProjectId>, exited: bool)
    ensures requested == Requests(survivors, directory)
    ensures exited == Exits(survivors, directory)
    ensures !exited ==> table == MembersOf(survivors, directory)
  {
    table, requested, exited := map[], [], false;
    var i := 0;
    while i < |survivors|
      invariant i <= |survivors|
      invariant requested + Requests(survivors[i..], directory) == Requests(survivors, directory)
      invariant forall k :: 0 <= k < i ==> survivors[k].projectId in directory
      invariant table == MembersOf(survivors[..i], directory)
    {
      var projectId := survivors[i].projectId;
      ghost var rest := Requests(survivors[i + 1..], directory);
      assert survivors[i..][1..] == survivors[i + 1..];
      assert Requests(survivors[i..], directory)
          == if projectId in directory then [projectId] + rest else [projectId];
      ghost var before := requested;
      requested := requested + [projectId];
      if projectId !in directory {
        exited := true;
        assert survivors[i].projectId !in directory;
        return;
      }
      assert requested + rest == before + ([projectId] + rest);
      assert survivors[..i + 1][..i] == survivors[..i];
      table := table[projectId := directory[projectId]];
      i := i + 1;
    }
    assert survivors[..i] == survivors;
    assert survivors[i..] == [];
  }

  // ---------------------------------------------------------------------
  // Candidates and assignment

  /** The ids of `members` other than `authorId`, in member order. */
  function Candidates(members: seq<Member>, authorId: UserId): seq<UserId>
  {
    if members == [] then []
    else if members[0].id == authorId then Candidates(members[1..], authorId)
    else [members[0].id] + Candidates(members[1..], authorId)
  }

  /** A candidate is exactly a member id that is not the author's. */
  lemma {:induction false} CandidatesExactly(members: seq<Member>, authorId: UserId)
    ensures forall u :: u in Candidates(members, authorId) <==> u != authorId && Member(u) in members
    ensures |Candidates(members, authorId)| <= |members|
    ensures Candidates(members, authorId) == [] <==> forall k :: 0 <= k < |members| ==> members[k].id == authorId
  {
    if members != [] {
      CandidatesExactly(members[1..], authorId);
      assert members == [members[0]] + members[1..];
      if Candidates(members[1..], authorId) == [] && members[0].id == authorId {
        forall k | 0 <= k < |members| ensures members[k].id == authorId {
          if k > 0 { assert members[k] == members[1..][k - 1]; }
        }
      }
    }
  }

  /** The inner loop of the task: collect the ids of the project's members
      other than the merge request's author. */
  method CleanProjectMembers(members: seq<Member>, authorId: UserId) returns (clean: seq<UserId>)
    ensures clean == Candidates(members, authorId)
    ensures authorId !in clean
  {
    clean := [];
    for i := 0 to |members|
      invariant clean + Candidates(members[i..], authorId) == Candidates(members, authorId)
    {
      assert members[i..][1..] == members[i + 1..];
      if members[i].id != authorId {
        clean := clean + [members[i].id];
      }
    }
    CandidatesExactly(members, authorId);
  }

  /** The assignments a run may dispatch for `survivors`, read back to front:
      each survivor with candidates gets exactly one assignment, to one of
      its candidates, in survivor order; the others get none. */
  predicate Dispatched(survivors: seq<MergeRequest>, table: map<ProjectId, seq<Member>>, calls: seq<Assignment>)
    requires forall k :: 0 <= k < |survivors| ==> survivors[k].projectId in table
    decreases |survivors|
  {
    if survivors == [] then calls == []
    else
      var n := |survivors| - 1;
      var mr := survivors[n];
      var candidates := Candidates(table[mr.projectId], mr.author.id);
      if candidates == [] then Dispatched(survivors[..n], table, calls)
      else
        calls != []
        && var a := calls[|calls| - 1];
        a.projectId == mr.projectId && a.iid == mr.iid && a.memberId in candidates
        && Dispatched(survivors[..n], table, calls[..|calls| - 1])
  }

  /** The assignment loop: for each survivor, pick any of its candidates
      (the source uses `SystemRandom().choice`) and dispatch one assignment. */
  method AssignEach(survivors: seq<MergeRequest>, table: map<ProjectId, seq<Member>>) returns (calls: seq<Assignment>)
    requires forall k :: 0 <= k < |survivors| ==> survivors[k].projectId in table
    ensures Dispatched(survivors, table, calls)
  {
    calls := [];
    for i := 0 to |survivors|
      invariant Dispatched(survivors[..i], table, calls)
    {
      var mr := survivors[i];
      assert survivors[..i + 1][..i] == survivors[..i];
      var clean := CleanProjectMembers(table[mr.projectId], mr.author.id);
      if clean != [] {
        var k :| 0 <= k < |clean|;
        var chosen := clean[k];
        ghost var before := calls;
        calls := calls + [Assignment(mr.projectId, mr.iid, chosen)];
        assert calls[..|calls| - 1] == before;
      }
    }
    assert survivors[..|survivors|] == survivors;
  }

  /** Whether a survivor's project, as fetched, has a member other than
      the merge request's author. */
  predicate HasCandidates(table: map<ProjectId, seq<Member>>, mr: MergeRequest)
  {
    mr.projectId in table && Candidates(table[mr.projectId], mr.author.id) != []
  }

  function NoCandidates(table: map<ProjectId, seq<Member>>): MergeRequest -> bool
  {
    mr => !HasCandidates(table, mr)
  }

  /** The k-th assignment belongs to the k-th survivor that has candidates,
      and names one of its candidates: one assignment per such survivor, in
      survivor order, none for the others. */
  lemma {:induction false} DispatchedMatches(survivors: seq<MergeRequest>, table: map<ProjectId, seq<Member>>, calls: seq<Assignment>)
    requires forall k :: 0 <= k < |survivors| ==> survivors[k].projectId in table
    requires Dispatched(survivors, table, calls)
    ensures |calls| == |Kept(NoCandidates(table), survivors)|
    ensures forall k :: 0 <= k < |calls| ==>
      var mr := Kept(NoCandidates(table), survivors)[k];
      calls[k].projectId == mr.projectId && calls[k].iid == mr.iid
      && mr.projectId in table && calls[k].memberId in Candidates(table[mr.projectId], mr.author.id)
    decreases |survivors|
  {
    if survivors != [] {
      var n := |survivors| - 1;
      var init, mr := survivors[..n], survivors[n];
      assert survivors == init + [mr];
      KeptAppend(NoCandidates(table), init, mr);
      var served := Kept(NoCandidates(table), init);
      if Candidates(table[mr.projectId], mr.author.id) == [] {
        DispatchedMatches(init, table, calls);
        assert Kept(NoCandidates(table), survivors) == served;
      } else {
        var prefix := calls[..|calls| - 1];
        DispatchedMatches(init, table, prefix);
        assert Kept(NoCandidates(table), survivors) == served + [mr];
        assert calls == prefix + [calls[|calls| - 1]];
      }
    }
  }

  /** Serving a list of survivors: the member fetches, then the
      assignments; a failed fetch ends the process before any assignment. */
  ghost predicate Serve(
    survivors: seq<MergeRequest>, directory: map<ProjectId, seq<Member>>,
    requested: seq<ProjectId>, calls: seq<Assignment>, exited: bool)
  {
    requested == Requests(survivors, directory)
    && exited == Exits(survivors, directory)
    && if exited then calls == []
       else
         MembersOfExactly(survivors, directory);
         Dispatched(survivors, MembersOf(survivors, directory), calls)
  }

  /** A run of the task as written: the three passes, then serving what
      survives them. */
  ghost predicate Run(
    open: seq<MergeRequest>, now: int, directory: map<ProjectId, seq<Member>>,
    requested: seq<ProjectId>, calls: seq<Assignment>, exited: bool)
  {
    Serve(Survivors(now, open), directory, requested, calls, exited)
  }

  /** The second half of the task: build the member map from one fetch
      per survivor, then assign. */
  method ServeSurvivors(survivors: seq<MergeRequest>, directory: map<ProjectId, seq<Member>>)
    returns (requested: seq<ProjectId>, calls: seq<Assignment>, exited: bool)
    ensures Serve(survivors, directory, requested, calls, exited)
  {
    var table;
    table, requested, exited := FetchProjectMembers(survivors, directory);
    if exited {
      calls := [];
      return;
    }
    MembersOfExactly(survivors, directory);
    calls := AssignEach(survivors, table);
  }

  /** `assign_open_merge_requests`: `open` is what the open-merge-requests
      query returned, `now` the current time in seconds, `directory` the
      member lists the API would return per project. Returns the project ids
      whose members were requested, the assignment calls made, and whether
      the process exited on a failed request. */
  method AssignOpenMergeRequests(open: seq<MergeRequest>, now: int, directory: map<ProjectId, seq<Member>>)
    returns (requested: seq<ProjectId>, calls: seq<Assignment>, exited: bool)
    ensures Run(open, now, directory, requested, calls, exited)
  {
    var survivors := DiscardPass(WorkInProgress, open);
    survivors := DiscardPass(YoungerThanADay(now), survivors);
    survivors := DiscardPass(HasAssignee, survivors);
    // The source tests for an empty list here but does nothing about it;
    // with no survivors the fetch and assignment loops simply do not run.
    requested, calls, exited := ServeSurvivors(survivors, directory);
  }

  /** The task as evidently intended: serve exactly the eligible merge
      requests. */
  method AssignEligibleMergeRequests(open: seq<MergeRequest>, now: int, directory: map<ProjectId, seq<Member>>)
    returns (requested: seq<ProjectId>, calls: seq<Assignment>, exited: bool)
    ensures Serve(EligibleMergeRequests(now, open), directory, requested, calls, exited)
  {
    requested, calls, exited := ServeSurvivors(EligibleMergeRequests(now, open), directory);
  }

  /** With no survivor, nothing is requested and nothing assigned. */
  lemma NothingEligibleNothingRequested(
    survivors: seq<MergeRequest>, directory: map<ProjectId, seq<Member>>,
    requested: seq<ProjectId>, calls: seq<Assignment>, exited: bool)
    requires Serve(survivors, directory, requested, calls, exited)
    requires survivors == []
    ensures requested == [] && calls == [] && !exited
  {
  }

  /** What serving dispatches when no fetch fails: the k-th call goes to the
      k-th survivor whose project has a member other than its author, names
      such a member, and so never assigns a merge request to its author. */
  lemma ServeAssignments(
    survivors: seq<MergeRequest>, directory: map<ProjectId, seq<Member>>,
    requested: seq<ProjectId>, calls: seq<Assignment>, exited: bool)
    requires Serve(survivors, directory, requested, calls, exited)
    requires !exited
    ensures var served := Kept(NoCandidates(MembersOf(survivors, directory)), survivors);
      |calls| == |served| <= |survivors|
      && forall k :: 0 <= k < |calls| ==>
           served[k] in survivors
           && calls[k].projectId == served[k].projectId && calls[k].iid == served[k].iid
           && calls[k].memberId != served[k].author.id
           && served[k].projectId in directory
           && Member(calls[k].memberId) in directory[served[k].projectId]
  {
    var table := MembersOf(survivors, directory);
    MembersOfExactly(survivors, directory);
    DispatchedMatches(survivors, table, calls);
    var served := Kept(NoCandidates(table), survivors);
    forall k | 0 <= k < |calls|
      ensures served[k] in survivors
      ensures calls[k].memberId != served[k].author.id
      ensures served[k].projectId in directory
      ensures Member(calls[k].memberId) in directory[served[k].projectId]
    {
      assert served[k] in served;
      CandidatesExactly(table[served[k].projectId], served[k].author.id);
    }
  }

  /** The intended task assigns only eligible merge requests, each to a
      member of its project other than its author. */
  lemma IntendedAssignsOnlyEligible(
    open: seq<MergeRequest>, now: int, directory: map<ProjectId, seq<Member>>,
    requested: seq<ProjectId>, calls: seq<Assignment>, exited: bool)
    requires Serve(EligibleMergeRequests(now, open), directory, requested, calls, exited)
    ensures forall k :: 0 <= k < |calls| ==>
      exists mr :: (mr in open && Eligible(now, mr)
                    && mr.projectId == calls[k].projectId && mr.iid == calls[k].iid
                    && mr.author.id != calls[k].memberId)
  {
    if !exited {
      var survivors := EligibleMergeRequests(now, open);
      ServeAssignments(survivors, directory, requested, calls, exited);
      var served := Kept(NoCandidates(MembersOf(survivors, directory)), survivors);
      forall k | 0 <= k < |calls|
        ensures exists mr :: (mr in open && Eligible(now, mr)
                                && mr.projectId == calls[k].projectId && mr.iid == calls[k].iid
                                && mr.author.id != calls[k].memberId)
      {
        assert served[k] in survivors;
      }
    }
  }
}
