/** The group editor of the Secret-Santa page (frontend/src/App.js): the list
    of groups is replaced, never mutated, by each edit, and finding matches
    stores the matcher's result and switches to the pairings view. Indices
    come from the page's own lists and are never negative. */
module GroupEditing {
  import opened Wrappers
  import opened Santa

  type Groups = seq<seq<string>>

  // ---- Array.prototype.slice with non-negative bounds ----

  /** `s.slice(0, k)`: the first `k` elements, or all when there are fewer. */
  function SliceTo<T>(s: seq<T>, k: nat): (r: seq<T>)
    ensures |r| == if k < |s| then k else |s|
    ensures forall i :: 0 <= i < |r| ==> r[i] == s[i]
  {
    if k < |s| then s[..k] else s
  }

  /** `s.slice(k)`: the elements from index `k` on, or none past the end. */
  function SliceFrom<T>(s: seq<T>, k: nat): (r: seq<T>)
    ensures |r| == if k < |s| then |s| - k else 0
    ensures forall i :: 0 <= i < |r| ==> r[i] == s[k + i]
  {
    if k < |s| then s[k..] else []
  }

  /** `[...s.slice(0, k), x, ...s.slice(k + 1)]`. */
  function Splice<T>(s: seq<T>, k: nat, x: T): (r: seq<T>)
    ensures k < |s| ==> r == s[k := x]
    ensures k >= |s| ==> r == s + [x]
  {
    SliceTo(s, k) + [x] + SliceFrom(s, k + 1)
  }

  /** `[...s.slice(0, k), ...s.slice(k + 1)]`. */
  function Cut<T>(s: seq<T>, k: nat): (r: seq<T>)
    ensures k < |s| ==> (|r| == |s| - 1
      && (forall i :: 0 <= i < k ==> r[i] == s[i])
      && (forall i :: k <= i < |r| ==> r[i] == s[i + 1]))
    ensures k >= |s| ==> r == s
  {
    SliceTo(s, k) + SliceFrom(s, k + 1)
  }

  // ---- the edits ----

  /** What `groups[groupID].slice(…)` throws when the group index is past
      the end (V8's wording). */
  const NoGroup := "TypeError: Cannot read properties of undefined (reading 'slice')"

  /** What `[...groups[groupID], member]` throws in the same case. */
  const NotIterable := "TypeError: undefined is not iterable (cannot read property Symbol(Symbol.iterator))"

  /** `updateGroup`: group `id` becomes `g`; an index past the end appends. */
  function UpdateGroup(groups: Groups, id: nat, g: seq<string>): (r: Groups)
    ensures id < |groups| ==> (|r| == |groups| && r[id] == g
      && forall i :: 0 <= i < |groups| && i != id ==> r[i] == groups[i])
    ensures id >= |groups| ==> r == groups + [g]
  {
    Splice(groups, id, g)
  }

  /** `removeGroup`: group `id` is dropped and the rest keep their order. */
  function RemoveGroup(groups: Groups, id: nat): (r: Groups)
    ensures id < |groups| ==> (|r| == |groups| - 1
      && (forall i :: 0 <= i < id ==> r[i] == groups[i])
      && (forall i :: id <= i < |r| ==> r[i] == groups[i + 1]))
    ensures id >= |groups| ==> r == groups
  {
    Cut(groups, id)
  }

  /** `updateMember`: member `mid` of group `gid` becomes `m` (appended when
      `mid` is past the group's end), and `m` is returned. */
  function UpdateMember(groups: Groups, gid: nat, mid: nat, m: string): (r: Result<(Groups, string), string>)
    ensures r.Failure? <==> gid >= |groups|
    ensures r.Success? ==> (r.value.1 == m && |r.value.0| == |groups|
      && r.value.0[gid] == (if mid < |groups[gid]| then groups[gid][mid := m] else groups[gid] + [m])
      && forall i :: 0 <= i < |groups| && i != gid ==> r.value.0[i] == groups[i])
  {
    if gid >= |groups| then Failure(NoGroup)
    else Success((UpdateGroup(groups, gid, Splice(groups[gid], mid, m)), m))
  }

  /** `addMember`: `m` goes to the end of group `gid`. */
  function AddMember(groups: Groups, gid: nat, m: string): (r: Result<Groups, string>)
    ensures r.Failure? <==> gid >= |groups|
    ensures r.Success? ==> (|r.value| == |groups| && r.value[gid] == groups[gid] + [m]
      && forall i :: 0 <= i < |groups| && i != gid ==> r.value[i] == groups[i])
  {
    if gid >= |groups| then Failure(NotIterable)
    else Success(UpdateGroup(groups, gid, groups[gid] + [m]))
  }

  /** `removeMember`: member `mid` of group `gid` is dropped; an index past
      the group's end leaves it as it was. */
  function RemoveMember(groups: Groups, gid: nat, mid: nat): (r: Result<Groups, string>)
    ensures r.Failure? <==> gid >= |groups|
    ensures r.Success? ==> (|r.value| == |groups|
      && r.value[gid] == Cut(groups[gid], mid)
      && forall i :: 0 <= i < |groups| && i != gid ==> r.value[i] == groups[i])
  {
    if gid >= |groups| then Failure(NoGroup)
    else Success(UpdateGroup(groups, gid, Cut(groups[gid], mid)))
  }

  /** Adding a member and then removing the last one restores the groups. */
  lemma AddThenRemove(groups: Groups, gid: nat, m: string)
    requires gid < |groups|
    ensures AddMember(groups, gid, m).Success?
    ensures RemoveMember(AddMember(groups, gid, m).value, gid, |groups[gid]|) == Success(groups)
  {
    var added := AddMember(groups, gid, m).value;
    assert Cut(added[gid], |groups[gid]|) == groups[gid];
    assert added[gid := groups[gid]] == groups;
  }

  /** Writing back the member that was there undoes an update. */
  lemma UpdateMemberUndo(groups: Groups, gid: nat, mid: nat, m: string)
    requires gid < |groups| && mid < |groups[gid]|
    ensures UpdateMember(groups, gid, mid, m).Success?
    ensures UpdateMember(UpdateMember(groups, gid, mid, m).value.0, gid, mid, groups[gid][mid])
      == Success((groups, groups[gid][mid]))
  {
    var once := UpdateMember(groups, gid, mid, m).value.0;
    assert once[gid][mid := groups[gid][mid]] == groups[gid];
    assert once[gid := groups[gid]] == groups;
  }

  /** A group appended past the end is exactly what removing it takes away. */
  lemma AppendThenRemoveGroup(groups: Groups, g: seq<string>)
    ensures RemoveGroup(UpdateGroup(groups, |groups|, g), |groups|) == groups
  {
    var grown := UpdateGroup(groups, |groups|, g);
    assert RemoveGroup(grown, |groups|) == grown[..|groups|];
  }

  // ---- finding matches ----

  /** The page's state: the groups, the last pairings, and whether the
      pairings view is shown. */
  datatype Page = Page(groups: Groups, pairings: seq<Pair>, showPairings: bool)

  /** The page at first load. */
  function Initial(): (p: Page)
    ensures p.groups == [] && p.pairings == [] && !p.showPairings
  {
    Page([], [], false)
  }

  /** `setPairings(santaSelector(groups))` inside a `try` whose `catch`
      ignores the error: a failure leaves the pairings as they were. */
  function Rematch(p: Page, draws: seq<nat>): (r: Page)
    requires ValidDraws(|MemberKeys(p.groups)|, draws)
    ensures r.groups == p.groups && r.showPairings == p.showPairings
    ensures SantaSelector(p.groups, draws).Success? ==> r.pairings == SantaSelector(p.groups, draws).value
    ensures SantaSelector(p.groups, draws).Failure? ==> r.pairings == p.pairings
  {
    match SantaSelector(p.groups, draws)
    case Success(ms) => p.(pairings := ms)
    case Failure(_) => p
  }

  /** `onFindMatches`: rematch, then show the pairings whatever happened. */
  function FindMatches(p: Page, draws: seq<nat>): (r: Page)
    requires ValidDraws(|MemberKeys(p.groups)|, draws)
    ensures r.showPairings && r.groups == p.groups
    ensures SantaSelector(p.groups, draws).Success? ==> r.pairings == SantaSelector(p.groups, draws).value
    ensures SantaSelector(p.groups, draws).Failure? ==> r.pairings == p.pairings
  {
    Rematch(p, draws).(showPairings := true)
  }

  /** `onRandomizeMatches`: rematch and stay on the pairings view. */
  function RandomizeMatches(p: Page, draws: seq<nat>): (r: Page)
    requires ValidDraws(|MemberKeys(p.groups)|, draws)
    ensures r.showPairings == p.showPairings && r.groups == p.groups
    ensures SantaSelector(p.groups, draws).Success? ==> r.pairings == SantaSelector(p.groups, draws).value
    ensures SantaSelector(p.groups, draws).Failure? ==> r.pairings == p.pairings
  {
    Rematch(p, draws)
  }

  /** The two buttons store the same pairings; only finding switches the
      view. Repeating either with the same draws changes nothing more. */
  lemma FindAndRandomizeAgree(p: Page, draws: seq<nat>)
    requires ValidDraws(|MemberKeys(p.groups)|, draws)
    ensures FindMatches(p, draws) == RandomizeMatches(p, draws).(showPairings := true)
    ensures RandomizeMatches(FindMatches(p, draws), draws) == FindMatches(p, draws)
    ensures RandomizeMatches(RandomizeMatches(p, draws), draws) == RandomizeMatches(p, draws)
  {}

  /** Finding matches with no groups shows an empty pairings list on a fresh
      page: the matcher's error is swallowed. */
  lemma EmptyGroupsShowNothing()
    ensures ValidDraws(|MemberKeys(Initial().groups)|, [])
    ensures FindMatches(Initial(), []) == Page([], [], true)
  {
    assert SantaSelector([], []) == Failure(InvalidInput);
  }
}
