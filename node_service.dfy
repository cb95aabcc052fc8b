/**
 * The group-list store of the node service: the ordered list of joined
 * groups, the active group id, the polling timers, and the operations that
 * change them (refresh, leave, switch, start and stop polling), plus the
 * bounded wait for a newly created or joined group to show up.
 *
 * Requests to the node are not modelled; their replies are parameters.
 */
module NodeService {
  import opened Wrappers
  import opened JsString

  /** The fields of a group the store reads; the node's group record carries more. */
  datatype Group = Group(group_id: string, group_name: string, user_pubkey: string)

  datatype PollKind = Created | Joined

  datatype NodeError =
    | RequestFailed
      /** `state.groups[0].group_id` on an empty list: a TypeError. */
    | NoFirstGroup
    | NotInGroup(groupId: string)
    | GroupNotExist(groupId: string)
    | PollingTwice
    | NewGroupNotFound(kind: PollKind, groupId: string)

  /** The reply to `fetchMyGroups`: its `groups` field may be missing. */
  datatype GroupsReply = Reply(groups: Option<seq<Group>>) | Rejected

  // ---------------------------------------------------------------------
  // lookups

  /** `groups.some((v) => v.group_id === id)` */
  predicate HasGroup(groups: seq<Group>, id: string) {
    exists i :: 0 <= i < |groups| && groups[i].group_id == id
  }

  /** `groups.findIndex((v) => v.group_id === id)`: the first position with that id, or -1. */
  function FindIndex(groups: seq<Group>, id: string): (i: int)
    ensures -1 <= i < |groups|
    ensures i == -1 <==> !HasGroup(groups, id)
    ensures i >= 0 ==> groups[i].group_id == id
    ensures i >= 0 ==> forall j :: 0 <= j < i ==> groups[j].group_id != id
    decreases |groups|
  {
    if groups == [] then -1
    else if groups[0].group_id == id then 0
    else
      var k := FindIndex(groups[1..], id);
      if k == -1 then -1 else k + 1
  }

  /** `groups.find((v) => v.group_id === id) ?? null`: the first group with that id. */
  function FindById(groups: seq<Group>, id: string): (r: Option<Group>)
    ensures r.None? <==> !HasGroup(groups, id)
    ensures r.Some? ==> r.value.group_id == id && r.value in groups
    ensures r.Some? ==> exists i :: 0 <= i < |groups| && groups[i] == r.value && forall j :: 0 <= j < i ==> groups[j].group_id != id
  {
    var i := FindIndex(groups, id);
    if i < 0 then None else Some(groups[i])
  }

  /**
   * `Object.fromEntries(groups.map((v) => [v.group_id, v]))`: one entry per
   * id of the list; when two groups share an id the later one wins.
   */
  function EntriesById(groups: seq<Group>): (m: map<string, Group>)
    ensures forall id :: id in m <==> HasGroup(groups, id)
    ensures forall i :: 0 <= i < |groups| ==> groups[i].group_id in m
    ensures forall i :: 0 <= i < |groups| ==>
              (forall j :: i < j < |groups| ==> groups[j].group_id != groups[i].group_id) ==>
                m[groups[i].group_id] == groups[i]
    decreases |groups|
  {
    if groups == [] then map[]
    else
      var init := groups[..|groups| - 1];
      var last := groups[|groups| - 1];
      assert groups == init + [last];
      HasGroupSnoc(init, last);
      EntriesById(init)[last.group_id := last]
  }

  lemma HasGroupSnoc(init: seq<Group>, last: Group)
    ensures forall id :: HasGroup(init + [last], id) <==> HasGroup(init, id) || last.group_id == id
  {
    var s := init + [last];
    forall id | HasGroup(s, id) ensures HasGroup(init, id) || last.group_id == id {
      var i :| 0 <= i < |s| && s[i].group_id == id;
      if i < |init| { assert init[i] == s[i]; }
    }
    forall id | HasGroup(init, id) ensures HasGroup(s, id) {
      var i :| 0 <= i < |init| && init[i].group_id == id;
      assert s[i] == init[i];
    }
    assert s[|init|] == last;
  }

  /** With distinct ids the map and `find` agree on every id. */
  lemma EntriesAgreeWithFind(groups: seq<Group>, id: string)
    requires forall i, j :: 0 <= i < j < |groups| ==> groups[i].group_id != groups[j].group_id
    requires HasGroup(groups, id)
    ensures Some(EntriesById(groups)[id]) == FindById(groups, id)
  {
    var i := FindIndex(groups, id);
    assert forall j :: i < j < |groups| ==> groups[j].group_id != groups[i].group_id;
  }

  // ---------------------------------------------------------------------
  // ordering

  /** The comparator given to `groups.sort`: by name, then by id. */
  function Compare(a: Group, b: Group): int {
    if StrLt(b.group_name, a.group_name) then 1
    else if StrLt(a.group_name, b.group_name) then -1
    else if StrLt(b.group_id, a.group_id) then 1
    else if StrLt(a.group_id, b.group_id) then -1
    else 0
  }

  /** The comparator puts `a` first exactly when its name is smaller, or the names are equal and its id is not larger. */
  lemma CompareMeansNameThenId(a: Group, b: Group)
    ensures Compare(a, b) <= 0 <==>
              || StrLt(a.group_name, b.group_name)
              || (a.group_name == b.group_name && (StrLt(a.group_id, b.group_id) || a.group_id == b.group_id))
    ensures Compare(a, b) == 0 <==> a.group_name == b.group_name && a.group_id == b.group_id
  {
    StrLtAsymmetric(a.group_name, b.group_name);
    StrLtTrichotomy(a.group_name, b.group_name);
    StrLtIrreflexive(a.group_name);
    StrLtAsymmetric(a.group_id, b.group_id);
    StrLtTrichotomy(a.group_id, b.group_id);
    StrLtIrreflexive(a.group_id);
  }

  lemma CompareAntisymmetric(a: Group, b: Group)
    ensures Compare(a, b) == -Compare(b, a)
  {
    CompareMeansNameThenId(a, b);
    CompareMeansNameThenId(b, a);
    StrLtAsymmetric(a.group_name, b.group_name);
    StrLtAsymmetric(a.group_id, b.group_id);
  }

  lemma CompareTransitive(a: Group, b: Group, c: Group)
    requires Compare(a, b) <= 0 && Compare(b, c) <= 0
    ensures Compare(a, c) <= 0
  {
    CompareMeansNameThenId(a, b);
    CompareMeansNameThenId(b, c);
    CompareMeansNameThenId(a, c);
    if StrLt(a.group_name, b.group_name) && StrLt(b.group_name, c.group_name) {
      StrLtTransitive(a.group_name, b.group_name, c.group_name);
    }
    if StrLt(a.group_id, b.group_id) && StrLt(b.group_id, c.group_id) {
      StrLtTransitive(a.group_id, b.group_id, c.group_id);
    }
  }

  /** Ascending by name, then by id. */
  ghost predicate SortedByNameThenId(s: seq<Group>) {
    forall i, j :: 0 <= i < j < |s| ==> Compare(s[i], s[j]) <= 0
  }

  /** Places `g` after every element that does not compare above it. */
  function Insert(sorted: seq<Group>, g: Group): (r: seq<Group>)
    ensures multiset(r) == multiset(sorted) + multiset{g}
    decreases |sorted|
  {
    if sorted == [] then [g]
    else if Compare(sorted[0], g) > 0 then [g] + sorted
    else
      assert sorted == [sorted[0]] + sorted[1..];
      [sorted[0]] + Insert(sorted[1..], g)
  }

  lemma {:induction false} InsertKeepsSorted(sorted: seq<Group>, g: Group)
    requires SortedByNameThenId(sorted)
    ensures SortedByNameThenId(Insert(sorted, g))
    decreases |sorted|
  {
    if sorted == [] {
    } else if Compare(sorted[0], g) > 0 {
      var r := Insert(sorted, g);
      CompareAntisymmetric(sorted[0], g);
      forall j | 1 <= j < |r| ensures Compare(g, r[j]) <= 0 {
        if j > 1 { CompareTransitive(g, sorted[0], r[j]); }
      }
    } else {
      var rest := Insert(sorted[1..], g);
      InsertKeepsSorted(sorted[1..], g);
      var r := [sorted[0]] + rest;
      forall j | 1 <= j < |r| ensures Compare(sorted[0], r[j]) <= 0 {
        assert r[j] in multiset(rest);
        assert r[j] in multiset(sorted[1..]) || r[j] == g;
        if r[j] != g {
          var k :| 0 <= k < |sorted[1..]| && sorted[1..][k] == r[j];
          assert sorted[k + 1] == r[j];
        }
      }
    }
  }

  /**
   * What `groups.sort(Compare)` leaves: a comparator that is a total
   * preorder and a stable sort, which inserting from left to right also is.
   */
  function SortGroups(s: seq<Group>): (r: seq<Group>)
    ensures multiset(r) == multiset(s)
    decreases |s|
  {
    if s == [] then []
    else
      assert s == s[..|s| - 1] + [s[|s| - 1]];
      Insert(SortGroups(s[..|s| - 1]), s[|s| - 1])
  }

  /** The sorted list is ordered by name, then id, and is a permutation of its input. */
  lemma {:induction false} SortGroupsSorted(s: seq<Group>)
    ensures SortedByNameThenId(SortGroups(s))
    ensures multiset(SortGroups(s)) == multiset(s) && |SortGroups(s)| == |s|
    decreases |s|
  {
    if s != [] {
      SortGroupsSorted(s[..|s| - 1]);
      InsertKeepsSorted(SortGroups(s[..|s| - 1]), s[|s| - 1]);
    }
    assert |multiset(SortGroups(s))| == |multiset(s)|;
  }

  // ---------------------------------------------------------------------
  // leaving: splice at findIndex

  /** `s.splice(start, 1)`: a negative start counts back from the end. */
  function SpliceOne(s: seq<Group>, start: int): seq<Group> {
    var k := if start >= 0 then start else if |s| + start < 0 then 0 else |s| + start;
    if k < |s| then s[..k] + s[k + 1..] else s
  }

  /** Removing the first group with `id` and nothing else. */
  function RemoveFirst(s: seq<Group>, id: string): (r: seq<Group>)
    decreases |s|
  {
    if s == [] then []
    else if s[0].group_id == id then s[1..]
    else [s[0]] + RemoveFirst(s[1..], id)
  }

  lemma HasGroupCons(s: seq<Group>, id: string)
    requires s != []
    ensures HasGroup(s, id) <==> s[0].group_id == id || HasGroup(s[1..], id)
  {
    var t := s[1..];
    if HasGroup(s, id) && s[0].group_id != id {
      var i :| 0 <= i < |s| && s[i].group_id == id;
      assert t[i - 1] == s[i];
    }
    if HasGroup(t, id) {
      var i :| 0 <= i < |t| && t[i].group_id == id;
      assert s[i + 1] == t[i];
    }
  }

  /** The list is unchanged when no group has the id. */
  lemma {:induction false} RemoveFirstWhenAbsent(s: seq<Group>, id: string)
    requires !HasGroup(s, id)
    ensures RemoveFirst(s, id) == s
    decreases |s|
  {
    if s != [] {
      HasGroupCons(s, id);
      RemoveFirstWhenAbsent(s[1..], id);
      assert s == [s[0]] + s[1..];
    }
  }

  /** When a group has the id, exactly one copy of the first such group is gone. */
  lemma {:induction false} RemoveFirstRemovesOne(s: seq<Group>, id: string)
    requires HasGroup(s, id)
    ensures |RemoveFirst(s, id)| == |s| - 1
    ensures multiset(RemoveFirst(s, id)) == multiset(s) - multiset{FindById(s, id).value}
    decreases |s|
  {
    var t := s[1..];
    assert s == [s[0]] + t;
    HasGroupCons(s, id);
    if s[0].group_id == id {
      assert FindIndex(s, id) == 0;
    } else {
      RemoveFirstRemovesOne(t, id);
      assert FindIndex(s, id) == FindIndex(t, id) + 1;
      assert FindById(s, id) == FindById(t, id);
      var g := FindById(t, id).value;
      assert g in multiset(t);
      calc {
        multiset(RemoveFirst(s, id));
        multiset([s[0]]) + multiset(RemoveFirst(t, id));
        multiset([s[0]]) + (multiset(t) - multiset{g});
        (multiset([s[0]]) + multiset(t)) - multiset{g};
        multiset(s) - multiset{g};
      }
    }
  }

  /** Removing the first group with `id`, when it sits at `k`, cuts the list around `k`. */
  lemma {:induction false} RemoveFirstAt(s: seq<Group>, id: string, k: nat)
    requires k < |s| && s[k].group_id == id
    requires forall j :: 0 <= j < k ==> s[j].group_id != id
    ensures RemoveFirst(s, id) == s[..k] + s[k + 1..]
    decreases k
  {
    if k == 0 {
      assert s[..0] + s[1..] == s[1..];
    } else {
      var t := s[1..];
      assert t[k - 1] == s[k];
      assert forall j :: 0 <= j < k - 1 ==> t[j] == s[j + 1];
      RemoveFirstAt(t, id, k - 1);
      assert s[..k] + s[k + 1..] == [s[0]] + (t[..k - 1] + t[k..]);
    }
  }

  /** When the id is present, splicing at its `findIndex` removes exactly its first group and keeps the order of the rest. */
  lemma SpliceAtFindIndex(s: seq<Group>, id: string)
    requires HasGroup(s, id)
    ensures SpliceOne(s, FindIndex(s, id)) == RemoveFirst(s, id)
  {
    var k := FindIndex(s, id);
    RemoveFirstAt(s, id, k);
  }

  /** When the id is absent, `findIndex` gives -1 and the splice drops the last group instead. */
  lemma SpliceWhenAbsent(s: seq<Group>, id: string)
    requires !HasGroup(s, id) && s != []
    ensures SpliceOne(s, FindIndex(s, id)) == s[..|s| - 1]
    ensures SpliceOne(s, FindIndex(s, id)) != RemoveFirst(s, id)
  {
    assert FindIndex(s, id) == -1;
    var spliced := SpliceOne(s, -1);
    assert spliced == s[..|s| - 1] + s[|s|..];
    assert |spliced| == |s| - 1;
    RemoveFirstWhenAbsent(s, id);
  }

  /** A concrete case: leaving `a` after a poll already dropped it removes the unrelated `b`. */
  lemma LeaveAfterRacingPoll()
    ensures var b := Group("b", "books", "k");
            SpliceOne([b], FindIndex([b], "a")) == []
  {
    var b := Group("b", "books", "k");
    assert !HasGroup([b], "a");
  }

  /** What the list is after a periodic refresh that may have landed during an await. */
  function AfterPoll(groups: seq<Group>, polled: Option<seq<Group>>): seq<Group> {
    if polled.Some? then SortGroups(polled.value) else groups
  }

  /** `state.groups[0].group_id ?? ''` as written: on an empty list the access throws a TypeError. */
  function InitActiveId(groups: seq<Group>): (r: Result<string, NodeError>)
    ensures r.Err? <==> groups == []
    ensures r.Err? ==> r.error == NoFirstGroup
    ensures r.Ok? ==> r.value == groups[0].group_id
  {
    if groups == [] then Err(NoFirstGroup) else Ok(groups[0].group_id)
  }

  /** The written access and the guarded one agree except on the empty list, where only the guarded one gives `''`. */
  lemma InitActiveIdAgreesWhenNonEmpty(groups: seq<Group>)
    ensures groups != [] ==> InitActiveId(groups) == Ok(FirstIdOrEmpty(groups))
    ensures InitActiveId([]).Err? && FirstIdOrEmpty([]) == ""
  {
  }

  /** `state.groups.at(0)?.group_id ?? ''` */
  function FirstIdOrEmpty(groups: seq<Group>): (id: string)
    ensures groups == [] ==> id == ""
    ensures groups != [] ==> id == groups[0].group_id
  {
    if groups == [] then "" else groups[0].group_id
  }

  // ---------------------------------------------------------------------
  // polling timers

  datatype PollTask = UpdateGroups | UpdateNodeInfo | UpdateNetworkInfo | UpdateAllGroupConfig

  /** The handle `setIntervalAsTimeout(task, intervalMs)` returns; calling it stops that timer. */
  datatype Disposer = Disposer(serial: nat, task: PollTask, intervalMs: nat)

  /** The refreshes `startPolling` runs once, in call order. */
  const Refreshes: seq<PollTask> := [UpdateGroups, UpdateNodeInfo, UpdateNetworkInfo, UpdateAllGroupConfig]

  /** The four timers `startPolling` pushes, numbered from `serial`. */
  function Timers(serial: nat): (ds: seq<Disposer>)
    ensures |ds| == 4
    ensures forall i :: 0 <= i < 4 ==> ds[i].serial == serial + i && ds[i].task == Refreshes[i]
  {
    [ Disposer(serial, UpdateGroups, 5000),
      Disposer(serial + 1, UpdateNodeInfo, 10000),
      Disposer(serial + 2, UpdateNetworkInfo, 10000),
      Disposer(serial + 3, UpdateAllGroupConfig, 20000) ]
  }

  // ---------------------------------------------------------------------
  // the store

  class NodeStore {
    var groups: seq<Group>
    var activeGroupId: string
    var disposes: seq<Disposer>
    /** Every disposer invoked so far, in call order. */
    var invoked: seq<Disposer>
    /** The one-off refreshes started so far, in call order. */
    var started: seq<PollTask>
    /** How many timers have been created; numbers the next one. */
    var timersMade: nat

    constructor ()
      ensures groups == [] && activeGroupId == "" && disposes == []
      ensures invoked == [] && started == [] && timersMade == 0
    {
      groups, activeGroupId, disposes := [], "", [];
      invoked, started, timersMade := [], [], 0;
    }

    /** The `activeGroup` getter. */
    function ActiveGroup(): (r: Option<Group>)
      reads this
      ensures r.None? <==> !HasGroup(groups, activeGroupId)
      ensures r.Some? ==> r.value.group_id == activeGroupId && r.value in groups
      ensures r.Some? ==> exists i :: 0 <= i < |groups| && groups[i] == r.value && forall j :: 0 <= j < i ==> groups[j].group_id != activeGroupId
    {
      FindById(groups, activeGroupId)
    }

    /** The `groupMap` getter. */
    function GroupMap(): (m: map<string, Group>)
      reads this
      ensures forall id :: id in m <==> HasGroup(groups, id)
    {
      EntriesById(groups)
    }

    /**
     * `updateGroups(init)`: the fetched list (a missing list counts as
     * empty), sorted, replaces `groups`; with `init` the first group
     * becomes active, and on an empty list the access to its id throws
     * after `groups` has already been replaced.
     */
    method UpdateGroups(reply: GroupsReply, init: bool) returns (r: Result<(), NodeError>)
      modifies this`groups, this`activeGroupId
      ensures reply.Rejected? ==> r == Err(RequestFailed) && groups == old(groups) && activeGroupId == old(activeGroupId)
      ensures reply.Reply? ==> groups == SortGroups(reply.groups.GetOr([]))
      ensures reply.Reply? ==> SortedByNameThenId(groups) && multiset(groups) == multiset(reply.groups.GetOr([]))
      ensures reply.Reply? && !init ==> r.Ok? && activeGroupId == old(activeGroupId)
      ensures reply.Reply? && init && groups != [] ==> r.Ok? && activeGroupId == groups[0].group_id
      ensures reply.Reply? && init && groups == [] ==> r == Err(NoFirstGroup) && activeGroupId == old(activeGroupId)
    {
      if reply.Rejected? {
        return Err(RequestFailed);
      }
      var fetched := reply.groups.GetOr([]);
      SortGroupsSorted(fetched);
      groups := SortGroups(fetched);
      r := Ok(());
      if init {
        var first := InitActiveId(groups);
        if first.Err? {
          return Err(first.error);
        }
        activeGroupId := first.value;
      }
    }

    /**
     * `leaveGroup(id)`. An id not in the list throws and changes nothing.
     * Otherwise the leave request is awaited; a periodic refresh may land
     * meanwhile (`polledMeanwhile`, the list it fetched). Then the group at
     * `findIndex` is spliced out, and if it was active the first remaining
     * group becomes active, or none.
     */
    method LeaveGroup(groupId: string, apiOk: bool, polledMeanwhile: Option<seq<Group>>) returns (r: Result<(), NodeError>)
      modifies this`groups, this`activeGroupId
      ensures !HasGroup(old(groups), groupId) ==>
                r == Err(NotInGroup(groupId)) && groups == old(groups) && activeGroupId == old(activeGroupId)
      ensures HasGroup(old(groups), groupId) && !apiOk ==>
                r == Err(RequestFailed) && groups == AfterPoll(old(groups), polledMeanwhile) && activeGroupId == old(activeGroupId)
      ensures HasGroup(old(groups), groupId) && apiOk ==>
                var mid := AfterPoll(old(groups), polledMeanwhile);
                && r == Ok(())
                && groups == SpliceOne(mid, FindIndex(mid, groupId))
                && activeGroupId == (if old(activeGroupId) == groupId then FirstIdOrEmpty(groups) else old(activeGroupId))
      ensures HasGroup(old(groups), groupId) && apiOk && polledMeanwhile.None? ==> groups == RemoveFirst(old(groups), groupId)
    {
      if !HasGroup(groups, groupId) {
        return Err(NotInGroup(groupId));
      }
      ghost var before := groups;
      if polledMeanwhile.Some? {
        groups := SortGroups(polledMeanwhile.value);
      }
      if !apiOk {
        return Err(RequestFailed);
      }
      if polledMeanwhile.None? {
        SpliceAtFindIndex(before, groupId);
      }
      groups := SpliceOne(groups, FindIndex(groups, groupId));
      if activeGroupId == groupId {
        activeGroupId := FirstIdOrEmpty(groups);
      }
      r := Ok(());
    }

    /** `changeActiveGroup(id)`: throws when no group has the id; otherwise only the active id changes. */
    method ChangeActiveGroup(groupId: string) returns (r: Result<(), NodeError>)
      modifies this`activeGroupId
      ensures !HasGroup(groups, groupId) ==> r == Err(GroupNotExist(groupId)) && activeGroupId == old(activeGroupId)
      ensures HasGroup(groups, groupId) ==> r == Ok(()) && activeGroupId == groupId
      ensures HasGroup(groups, groupId) ==> ActiveGroup().Some? && ActiveGroup().value.group_id == groupId
    {
      if !HasGroup(groups, groupId) {
        return Err(GroupNotExist(groupId));
      }
      activeGroupId := groupId;
      r := Ok(());
    }

    /** `stopPolling()`: every disposer is called in order, then the list is emptied. */
    method StopPolling()
      modifies this`disposes, this`invoked
      ensures invoked == old(invoked) + old(disposes)
      ensures disposes == []
    {
      var i := 0;
      while i < |disposes|
        invariant 0 <= i <= |disposes|
        invariant disposes == old(disposes)
        invariant invoked == old(invoked) + disposes[..i]
      {
        invoked := invoked + [disposes[i]];
        i := i + 1;
      }
      assert disposes[..i] == disposes;
      disposes := [];
    }

    /**
     * `startPolling(restart)`: refuses to start twice unless restarting;
     * a restart first stops the running timers. Then the four refreshes run
     * once and exactly four timers are registered.
     */
    method StartPolling(restart: bool) returns (r: Result<(), NodeError>)
      modifies this`disposes, this`invoked, this`started, this`timersMade
      ensures !restart && old(disposes) != [] ==>
                && r == Err(PollingTwice)
                && disposes == old(disposes) && invoked == old(invoked)
                && started == old(started) && timersMade == old(timersMade)
      ensures restart || old(disposes) == [] ==>
                && r == Ok(())
                && invoked == old(invoked) + (if restart then old(disposes) else [])
                && started == old(started) + Refreshes
                && disposes == Timers(old(timersMade))
                && timersMade == old(timersMade) + 4
    {
      if !restart && disposes != [] {
        return Err(PollingTwice);
      }
      if restart {
        StopPolling();
      }
      started := started + Refreshes;
      disposes := disposes + Timers(timersMade);
      timersMade := timersMade + 4;
      r := Ok(());
    }
  }

  // ---------------------------------------------------------------------
  // waiting for a new group

  const MaxPolls: nat := 100

  /**
   * The loop of `createGroup` and `joinGroup`: at most 100 checks, stopping
   * at the first snapshot of the list (`observed(i)` at check `i`) that
   * holds the id; then the group is looked up in that same snapshot.
   */
  method WaitForGroup(kind: PollKind, groupId: string, observed: nat -> seq<Group>) returns (r: Result<Group, NodeError>, polls: nat)
    ensures 1 <= polls <= MaxPolls
    ensures forall i :: 0 <= i < polls - 1 ==> !HasGroup(observed(i), groupId)
    ensures r.Ok? <==> HasGroup(observed(polls - 1), groupId)
    ensures r.Ok? ==> Some(r.value) == FindById(observed(polls - 1), groupId) && r.value.group_id == groupId
    ensures r.Err? ==> polls == MaxPolls && r.error == NewGroupNotFound(kind, groupId)
  {
    var i := 0;
    var found := false;
    while i < MaxPolls && !found
      invariant 0 <= i <= MaxPolls
      invariant found ==> i >= 1 && HasGroup(observed(i - 1), groupId)
      invariant !found ==> forall j :: 0 <= j < i ==> !HasGroup(observed(j), groupId)
      invariant found ==> forall j :: 0 <= j < i - 1 ==> !HasGroup(observed(j), groupId)
      invariant i == 0 ==> !found
    {
      found := FindIndex(observed(i), groupId) >= 0;
      i := i + 1;
    }
    polls := i;
    var theGroup := FindById(observed(polls - 1), groupId);
    if theGroup.None? {
      return Err(NewGroupNotFound(kind, groupId)), polls;
    }
    r := Ok(theGroup.value);
  }

  /** `createGroup(params)`: the API reply's id (None when the request fails), then the wait. */
  method CreateGroup(createdId: Option<string>, observed: nat -> seq<Group>) returns (r: Result<Group, NodeError>)
    ensures createdId.None? ==> r == Err(RequestFailed)
    ensures r.Ok? ==> createdId.Some? && r.value.group_id == createdId.value
    ensures createdId.Some? && r.Err? ==>
              r.error == NewGroupNotFound(Created, createdId.value)
              && forall i :: 0 <= i < MaxPolls ==> !HasGroup(observed(i), createdId.value)
  {
    if createdId.None? {
      return Err(RequestFailed);
    }
    var polls;
    r, polls := WaitForGroup(Created, createdId.value, observed);
  }

  /** `joinGroup(params)`: as `createGroup`, with the join request. */
  method JoinGroup(joinedId: Option<string>, observed: nat -> seq<Group>) returns (r: Result<Group, NodeError>)
    ensures joinedId.None? ==> r == Err(RequestFailed)
    ensures r.Ok? ==> joinedId.Some? && r.value.group_id == joinedId.value
    ensures joinedId.Some? && r.Err? ==>
              r.error == NewGroupNotFound(Joined, joinedId.value)
              && forall i :: 0 <= i < MaxPolls ==> !HasGroup(observed(i), joinedId.value)
  {
    if joinedId.None? {
      return Err(RequestFailed);
    }
    var polls;
    r, polls := WaitForGroup(Joined, joinedId.value, observed);
  }
}
