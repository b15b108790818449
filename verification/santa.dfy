/** The Secret-Santa matcher `santaSelector` (frontend/src/scripts/SantaSelector.js)
    as written: every member is looked up to its group, the members are
    shuffled by Fisher–Yates with the random draws given as input, and a
    chain of gifts is walked from the first member of the second half,
    alternating halves, until the walk returns to where it began. */
module Santa {
  import opened Wrappers
  import opened Text
  import opened Seqs
  import opened OrderedTable

  /** A match: the giver and the receiver. */
  type Pair = (string, string)

  // ---- shuffleArray ----

  /** What `Math.floor(Math.random() * (i + 1))` yields, for `i` from the
      last index down to 1: one draw per step, each at most `i`. */
  predicate ValidDraws(n: nat, draws: seq<nat>) {
    |draws| == (if n == 0 then 0 else n - 1)
    && forall k :: 0 <= k < |draws| ==> draws[k] <= n - 1 - k
  }

  function Swap<T>(a: seq<T>, i: nat, j: nat): (r: seq<T>)
    requires i < |a| && j < |a|
    ensures |r| == |a| && multiset(r) == multiset(a)
    ensures r[i] == a[j] && r[j] == a[i]
    ensures forall k :: 0 <= k < |a| && k != i && k != j ==> r[k] == a[k]
  {
    a[i := a[j]][j := a[i]]
  }

  /** Swapping keeps a sequence free of repeats. */
  lemma SwapDistinct<T>(a: seq<T>, i: nat, j: nat)
    requires i < |a| && j < |a| && Distinct(a)
    ensures Distinct(Swap(a, i, j))
  {
    var r := Swap(a, i, j);
    forall p, q | 0 <= p < q < |r| ensures r[p] != r[q] {
      var p' := if p == i then j else if p == j then i else p;
      var q' := if q == i then j else if q == j then i else q;
      assert r[p] == a[p'] && r[q] == a[q'];
    }
  }

  /** The Fisher–Yates loop from step `k` on (index `|a| - 1 - k`). */
  function ShuffleFrom<T>(a: seq<T>, draws: seq<nat>, k: nat): (r: seq<T>)
    requires ValidDraws(|a|, draws) && k <= |draws|
    ensures |r| == |a| && multiset(r) == multiset(a)
    decreases |draws| - k
  {
    if k == |draws| then a
    else ShuffleFrom(Swap(a, |a| - 1 - k, draws[k]), draws, k + 1)
  }

  /** `shuffleArray`: a permutation of its input. */
  function Shuffle<T>(a: seq<T>, draws: seq<nat>): (r: seq<T>)
    requires ValidDraws(|a|, draws)
    ensures |r| == |a| && multiset(r) == multiset(a)
  {
    ShuffleFrom(a, draws, 0)
  }

  /** Shuffling keeps the members and keeps them free of repeats. */
  lemma {:induction false} ShuffleFromDistinct<T>(a: seq<T>, draws: seq<nat>, k: nat)
    requires ValidDraws(|a|, draws) && k <= |draws| && Distinct(a)
    ensures Distinct(ShuffleFrom(a, draws, k))
    decreases |draws| - k
  {
    if k < |draws| {
      SwapDistinct(a, |a| - 1 - k, draws[k]);
      ShuffleFromDistinct(Swap(a, |a| - 1 - k, draws[k]), draws, k + 1);
    }
  }

  lemma ShuffleMembers<T>(a: seq<T>, draws: seq<nat>)
    requires ValidDraws(|a|, draws)
    ensures forall x :: x in Shuffle(a, draws) <==> x in a
    ensures Distinct(a) ==> Distinct(Shuffle(a, draws))
  {
    var r := Shuffle(a, draws);
    forall x ensures x in r <==> x in a {
      assert x in r <==> x in multiset(r);
      assert x in a <==> x in multiset(a);
    }
    if Distinct(a) {
      ShuffleFromDistinct(a, draws, 0);
    }
  }

  // ---- getGroupLookupTable ----

  /** Position of the last occurrence of `m` in `row`, or -1. */
  function LastIndex(row: seq<string>, m: string): (i: int)
    ensures -1 <= i < |row|
    ensures i >= 0 ==> row[i] == m && forall j :: i < j < |row| ==> row[j] != m
    ensures i < 0 <==> m !in row
  {
    if row == [] then -1
    else if row[|row| - 1] == m then |row| - 1
    else LastIndex(row[..|row| - 1], m)
  }

  /** The last group that lists `m`, or -1 when no group does. */
  function LastRow(groups: seq<seq<string>>, m: string): (g: int)
    ensures -1 <= g < |groups|
    ensures g >= 0 ==> m in groups[g] && forall h :: g < h < |groups| ==> m !in groups[h]
    ensures g < 0 <==> forall h :: 0 <= h < |groups| ==> m !in groups[h]
  {
    if groups == [] then -1
    else if m in groups[|groups| - 1] then |groups| - 1
    else LastRow(groups[..|groups| - 1], m)
  }

  /** `mapping[value] = [rowIndex, index, false]` for each member of one row.
      The visited flag is kept apart, as a set, by the walk below. */
  function RowPut(t: Table<(nat, nat)>, row: seq<string>, g: nat): Table<(nat, nat)>
    decreases |row|
  {
    if row == [] then t
    else
      var last: nat := |row| - 1;
      Put(RowPut(t, row[..last], g), row[last], (g, last))
  }

  /** `getGroupLookupTable`: the rows folded into one object in order. */
  function GroupLookup(groups: seq<seq<string>>): Table<(nat, nat)>
    decreases |groups|
  {
    if groups == [] then Empty()
    else RowPut(GroupLookup(groups[..|groups| - 1]), groups[|groups| - 1], |groups| - 1)
  }

  lemma {:induction false} RowPutGet(t: Table<(nat, nat)>, row: seq<string>, g: nat, m: string)
    ensures Get(RowPut(t, row, g), m)
      == if LastIndex(row, m) >= 0 then Some((g, LastIndex(row, m))) else Get(t, m)
    decreases |row|
  {
    if row != [] {
      var init := row[..|row| - 1];
      if row[|row| - 1] == m {
        PutSelf(RowPut(t, init, g), m, (g, |row| - 1));
      } else {
        PutOther(RowPut(t, init, g), row[|row| - 1], (g, |row| - 1), m);
        RowPutGet(t, init, g, m);
      }
    }
  }

  /** Each member maps to the last place it is listed: its last group, and
      its last position in that group; a name listed twice keeps only the
      later entry. */
  lemma {:induction false} LookupLastWins(groups: seq<seq<string>>, m: string)
    ensures Get(GroupLookup(groups), m)
      == if LastRow(groups, m) >= 0
         then Some((LastRow(groups, m) as nat, LastIndex(groups[LastRow(groups, m)], m) as nat))
         else None
    decreases |groups|
  {
    if groups != [] {
      var init := groups[..|groups| - 1];
      RowPutGet(GroupLookup(init), groups[|groups| - 1], |groups| - 1, m);
      LookupLastWins(init, m);
      if m !in groups[|groups| - 1] {
        assert forall h :: 0 <= h < |init| ==> init[h] == groups[h];
      }
    }
  }

  lemma {:induction false} RowPutUnique(t: Table<(nat, nat)>, row: seq<string>, g: nat)
    requires UniqueKeys(t)
    ensures UniqueKeys(RowPut(t, row, g))
    decreases |row|
  {
    if row != [] {
      RowPutUnique(t, row[..|row| - 1], g);
      PutGet(RowPut(t, row[..|row| - 1], g), row[|row| - 1], (g, |row| - 1), "");
    }
  }

  lemma {:induction false} LookupUnique(groups: seq<seq<string>>)
    ensures UniqueKeys(GroupLookup(groups))
    decreases |groups|
  {
    if groups != [] {
      LookupUnique(groups[..|groups| - 1]);
      RowPutUnique(GroupLookup(groups[..|groups| - 1]), groups[|groups| - 1], |groups| - 1);
    }
  }

  /** `Object.keys(groupLookup)`: every listed member exactly once. */
  function MemberKeys(groups: seq<seq<string>>): (ks: seq<string>)
    ensures Distinct(ks)
    ensures forall m :: m in ks <==> LastRow(groups, m) >= 0
  {
    var t := GroupLookup(groups);
    LookupUnique(groups);
    forall m ensures m in Keys(t) <==> LastRow(groups, m) >= 0 {
      LookupLastWins(groups, m);
      if m in Keys(t) {
        var i :| 0 <= i < |Keys(t)| && Keys(t)[i] == m;
        assert Find(t.entries, m).Some?;
      }
    }
    Keys(t)
  }

  // ---- the receiver group ----

  /** The `forEach` over the unmatched counts from index `k` on, with the
      best index and value so far. */
  function MaxScan(u: seq<int>, g: int, k: nat, best: int, bestVal: int): int
    decreases |u| - k
  {
    if k >= |u| then best
    else if u[k] >= bestVal && k != g then MaxScan(u, g, k + 1, k, u[k])
    else MaxScan(u, g, k + 1, best, bestVal)
  }

  /** The group to give to: a group other than `g` with the most unmatched
      members, ties going to the later group; -1 if every other count is
      negative. */
  function MaximalGroup(u: seq<int>, g: int): (r: int)
    ensures r == -1 || (0 <= r < |u| && r != g)
  {
    MaxScanSpec(u, g, 0, -1, 0);
    MaxScan(u, g, 0, -1, 0)
  }

  lemma {:induction false} MaxScanSpec(u: seq<int>, g: int, k: nat, best: int, bestVal: int)
    requires k <= |u| && bestVal >= 0
    requires best == -1 ==> bestVal == 0 && forall j :: 0 <= j < k && j != g ==> u[j] < 0
    requires best != -1 ==> (0 <= best < k && best != g && u[best] == bestVal
      && (forall j :: 0 <= j < k && j != g ==> u[j] <= bestVal)
      && (forall j :: best < j < k && j != g ==> u[j] < bestVal))
    ensures var r := MaxScan(u, g, k, best, bestVal);
      (r == -1 <==> forall j :: 0 <= j < |u| && j != g ==> u[j] < 0)
      && (r != -1 ==> (0 <= r < |u| && r != g && u[r] >= 0
        && (forall j :: 0 <= j < |u| && j != g ==> u[j] <= u[r])
        && (forall j :: r < j < |u| && j != g ==> u[j] < u[r])))
    decreases |u| - k
  {
    if k < |u| {
      if u[k] >= bestVal && k != g {
        MaxScanSpec(u, g, k + 1, k, u[k]);
      } else {
        MaxScanSpec(u, g, k + 1, best, bestVal);
      }
    }
  }

  /** The receiver group is a largest other group, the last of the largest
      ones. */
  lemma MaximalGroupSpec(u: seq<int>, g: int)
    ensures var r := MaximalGroup(u, g);
      (r == -1 <==> forall j :: 0 <= j < |u| && j != g ==> u[j] < 0)
      && (r != -1 ==> (u[r] >= 0
        && (forall j :: 0 <= j < |u| && j != g ==> u[j] <= u[r])
        && (forall j :: r < j < |u| && j != g ==> u[j] < u[r])))
  {
    MaxScanSpec(u, g, 0, -1, 0);
  }

  // ---- Array.prototype.find ----

  /** The index of the first element satisfying `p`. */
  function FirstWhere(s: seq<string>, p: string -> bool): (r: Option<nat>)
    ensures r.Some? ==> r.value < |s| && p(s[r.value]) && forall j :: 0 <= j < r.value ==> !p(s[j])
    ensures r.None? ==> forall j :: 0 <= j < |s| ==> !p(s[j])
  {
    if s == [] then None
    else if p(s[0]) then Some(0)
    else match FirstWhere(s[1..], p)
      case None =>
        assert forall j :: 1 <= j < |s| ==> s[j] == s[1..][j - 1];
        None
      case Some(i) =>
        assert forall j :: 1 <= j <= i ==> s[j] == s[1..][j - 1];
        Some(i + 1)
  }

  // ---- the walk ----

  /** The loop's variables: the current giver, which half the next receiver
      is sought in, the members already visited, the unmatched counts per
      group, and the matches so far. */
  datatype Walk = Walk(current: string, onLeft: bool, visited: set<string>,
                       unmatched: seq<int>, matches: seq<Pair>)

  predicate AllIn(s: seq<string>, ks: set<string>) {
    forall i :: 0 <= i < |s| ==> s[i] in ks
  }

  /** Consecutive matches share a member: each receiver gives next. */
  predicate Linked(ms: seq<Pair>) {
    forall i :: 0 <= i < |ms| - 1 ==> ms[i].1 == ms[i + 1].0
  }

  predicate DistinctGivers(ms: seq<Pair>) {
    forall i, j :: 0 <= i < j < |ms| ==> ms[i].0 != ms[j].0
  }

  /** The members `ks` of both halves, all listed in some group, and the
      current giver among them and not yet visited. */
  predicate Frame(w: Walk, groups: seq<seq<string>>, ks: set<string>, start: string) {
    w.current in ks && w.current !in w.visited && w.visited <= ks && start in ks
    && |w.unmatched| == |groups|
    && (forall m :: m in ks ==> LastRow(groups, m) >= 0)
  }

  /** The matches so far run from `start` to the current giver, one per
      visited member. */
  predicate ChainSoFar(w: Walk, ks: set<string>, start: string) {
    |w.visited| == |w.matches|
    && (w.matches == [] ==> w.current == start)
    && (w.matches != [] ==> w.matches[0].0 == start && w.matches[|w.matches| - 1].1 == w.current)
    && Linked(w.matches) && DistinctGivers(w.matches)
    && (forall i :: 0 <= i < |w.matches| ==> w.matches[i].0 in w.visited && w.matches[i].1 in ks)
  }

  /** The first unvisited member of group `mg` in `half`. */
  function SeekGroup(half: seq<string>, groups: seq<seq<string>>, mg: int, visited: set<string>): (r: Option<nat>)
    ensures r.Some? ==> r.value < |half| && half[r.value] !in visited && LastRow(groups, half[r.value]) == mg
    ensures r.Some? ==> forall j :: 0 <= j < r.value ==> half[j] in visited || LastRow(groups, half[j]) != mg
    ensures r.None? ==> forall j :: 0 <= j < |half| ==> half[j] in visited || LastRow(groups, half[j]) != mg
  {
    FirstWhere(half, m => LastRow(groups, m) == mg && m !in visited)
  }

  /** The first member of `both` outside group `gid`, other than the
      previous giver `prev`, and not in `seen`. */
  function SeekOther(both: seq<string>, groups: seq<seq<string>>, gid: int, prev: Option<string>, seen: set<string>): (r: Option<nat>)
    ensures r.Some? ==> (r.value < |both| && both[r.value] !in seen && LastRow(groups, both[r.value]) != gid
      && Some(both[r.value]) != prev)
    ensures r.Some? ==> forall j :: 0 <= j < r.value ==> (
      both[j] in seen || LastRow(groups, both[j]) == gid || Some(both[j]) == prev)
    ensures r.None? ==> forall j :: 0 <= j < |both| ==> (
      both[j] in seen || LastRow(groups, both[j]) == gid || Some(both[j]) == prev)
  {
    FirstWhere(both, v => LastRow(groups, v) != gid && Some(v) != prev && v !in seen)
  }

  /** The receiver for the current giver: first an unvisited member of the
      receiver group in the half being sought; failing that, the first
      unvisited member of another group (and not the previous giver) in
      that half and then the other; failing that, the starting member. */
  function Receiver(w: Walk, groups: seq<seq<string>>, left: seq<string>, right: seq<string>, start: string): (r: string)
    requires LastRow(groups, w.current) >= 0
    ensures r == start || (r in left + right && r !in w.visited
      && LastRow(groups, r) != LastRow(groups, w.current))
    ensures r != start ==> r != w.current
  {
    var gid := LastRow(groups, w.current);
    var mg := MaximalGroup(w.unmatched, gid);
    var half := if w.onLeft then right else left;
    var other := if w.onLeft then left else right;
    var prev := if |w.matches| == 0 then None else Some(w.matches[|w.matches| - 1].0);
    match SeekGroup(half, groups, mg, w.visited)
    case Some(i) =>
      assert half[i] in left + right;
      half[i]
    case None =>
      match SeekOther(half + other, groups, gid, prev, w.visited + {w.current})
      case Some(i) =>
        assert (half + other)[i] in left + right;
        (half + other)[i]
      case None => start
  }

  /** One turn: mark the giver visited, record the match, count the
      receiver's group down and switch halves. */
  function Step(w: Walk, groups: seq<seq<string>>, ks: set<string>, left: seq<string>, right: seq<string>, start: string): (r: Walk)
    requires Frame(w, groups, ks, start) && AllIn(left, ks) && AllIn(right, ks)
    ensures r.visited == w.visited + {w.current} && r.matches == w.matches + [(w.current, r.current)]
    ensures r.current == start || (r.current in ks && r.current !in r.visited)
    ensures r.current != start ==> LastRow(groups, r.current) != LastRow(groups, w.current)
    ensures |r.unmatched| == |w.unmatched|
  {
    var p := Receiver(w, groups, left, right, start);
    assert p in ks;
    var gp := LastRow(groups, p);
    Walk(p, !w.onLeft, w.visited + {w.current},
         w.unmatched[gp := w.unmatched[gp] - 1], w.matches + [(w.current, p)])
  }

  /** A turn extends the chain by one match from the current giver. */
  lemma StepExtends(w: Walk, groups: seq<seq<string>>, ks: set<string>, left: seq<string>, right: seq<string>, start: string)
    requires Frame(w, groups, ks, start) && AllIn(left, ks) && AllIn(right, ks) && ChainSoFar(w, ks, start)
    ensures ChainSoFar(Step(w, groups, ks, left, right, start), ks, start)
  {
    var r := Step(w, groups, ks, left, right, start);
    ChainExtend(w, r.current, r.onLeft, r.unmatched, ks, start);
  }

  /** Appending the match from the current giver to a member of `ks`. */
  lemma ChainExtend(w: Walk, p: string, onLeft: bool, unmatched: seq<int>, ks: set<string>, start: string)
    requires ChainSoFar(w, ks, start) && w.current !in w.visited && p in ks
    ensures ChainSoFar(Walk(p, onLeft, w.visited + {w.current}, unmatched, w.matches + [(w.current, p)]), ks, start)
  {
    var ms := w.matches + [(w.current, p)];
    var n := |w.matches|;
    assert forall i :: 0 <= i < n ==> ms[i] == w.matches[i];
    assert ms[n] == (w.current, p);
    assert |w.visited + {w.current}| == |w.visited| + 1;
    assert Linked(ms) by {
      forall i | 0 <= i < |ms| - 1 ensures ms[i].1 == ms[i + 1].0 {
        if i < n - 1 { assert ms[i + 1] == w.matches[i + 1]; }
      }
    }
    assert DistinctGivers(ms) by {
      forall i, j | 0 <= i < j < |ms| ensures ms[i].0 != ms[j].0 {
        if j == n { assert ms[i].0 in w.visited; }
      }
    }
  }

  /** A finished walk: a chain of matches from `start` back to `start`,
      each member of `ks` giving at most once. */
  predicate Closed(r: seq<Pair>, ks: set<string>, start: string) {
    |r| >= 1 && r[0].0 == start && r[|r| - 1].1 == start
    && Linked(r) && DistinctGivers(r)
    && (forall i :: 0 <= i < |r| ==> r[i].0 in ks && r[i].1 in ks)
    && |r| <= |ks|
  }

  /** Every match whose receiver is not the starting member joins two
      groups. */
  predicate Crossing(ms: seq<Pair>, groups: seq<seq<string>>, start: string) {
    forall i :: 0 <= i < |ms| && ms[i].1 != start ==> LastRow(groups, ms[i].0) != LastRow(groups, ms[i].1)
  }

  lemma CrossingExtend(ms: seq<Pair>, p: Pair, groups: seq<seq<string>>, start: string)
    requires Crossing(ms, groups, start)
    requires p.1 != start ==> LastRow(groups, p.0) != LastRow(groups, p.1)
    ensures Crossing(ms + [p], groups, start)
  {
    assert forall i :: 0 <= i < |ms| ==> (ms + [p])[i] == ms[i];
  }

  /** The `do … while (start !== current)` loop. Every turn visits a member
      not visited before, so the loop ends within as many turns as there are
      members. */
  function WalkFrom(w: Walk, groups: seq<seq<string>>, ks: set<string>, left: seq<string>, right: seq<string>, start: string): (r: seq<Pair>)
    requires Frame(w, groups, ks, start) && AllIn(left, ks) && AllIn(right, ks) && ChainSoFar(w, ks, start)
    requires Crossing(w.matches, groups, start)
    ensures Closed(r, ks, start) && Crossing(r, groups, start)
    ensures |r| > |w.matches|
    decreases |ks - w.visited|
  {
    var w' := Step(w, groups, ks, left, right, start);
    StepProgress(w, groups, ks, left, right, start);
    CrossingExtend(w.matches, (w.current, w'.current), groups, start);
    if w'.current == start then w'.matches
    else WalkFrom(w', groups, ks, left, right, start)
  }

  /** A turn keeps the chain, leaves fewer members to visit, and either
      keeps the walk going from an unvisited member or closes the chain. */
  lemma StepProgress(w: Walk, groups: seq<seq<string>>, ks: set<string>, left: seq<string>, right: seq<string>, start: string)
    requires Frame(w, groups, ks, start) && AllIn(left, ks) && AllIn(right, ks) && ChainSoFar(w, ks, start)
    ensures var w' := Step(w, groups, ks, left, right, start);
      ChainSoFar(w', ks, start) && |ks - w'.visited| < |ks - w.visited|
      && (w'.current != start ==> Frame(w', groups, ks, start))
      && (w'.current == start ==> Closed(w'.matches, ks, start))
  {
    var w' := Step(w, groups, ks, left, right, start);
    StepExtends(w, groups, ks, left, right, start);
    VisitShrinks(ks, w.visited, w.current);
    if w'.current == start {
      SubsetSize(w'.visited, ks);
    }
  }

  /** Visiting one more member leaves fewer to visit. */
  lemma VisitShrinks(ks: set<string>, visited: set<string>, c: string)
    requires c in ks && c !in visited
    ensures |ks - (visited + {c})| < |ks - visited|
  {
    assert ks - (visited + {c}) == (ks - visited) - {c};
  }

  // ---- santaSelector ----

  const InvalidInput := "Invalid input. Please provide a 2D array of strings."

  /** `groupLookup[undefined][0]` when there are no members at all. */
  const NoMembers := "TypeError: Cannot read properties of undefined (reading '0')"

  function TooManyMembers(g: nat): string {
    "Group " + ShowNat(g) + " has too many members to create a complete mapping."
  }

  /** The first group, from `k` on, longer than half the distinct members. */
  function FirstTooBig(groups: seq<seq<string>>, n: nat, k: nat): (r: Option<nat>)
    requires k <= |groups|
    ensures r.Some? ==> (k <= r.value < |groups| && 2 * |groups[r.value]| > n
      && forall h :: k <= h < r.value ==> 2 * |groups[h]| <= n)
    ensures r.None? ==> forall h :: k <= h < |groups| ==> 2 * |groups[h]| <= n
    decreases |groups| - k
  {
    if k == |groups| then None
    else if 2 * |groups[k]| > n then Some(k)
    else FirstTooBig(groups, n, k + 1)
  }

  /** `santaSelector(groups)` with `draws` the shuffle's random draws.
      Group lengths count repeated names; the half they are compared with
      counts each name once. */
  function SantaSelector(groups: seq<seq<string>>, draws: seq<nat>): (r: Result<seq<Pair>, string>)
    requires ValidDraws(|MemberKeys(groups)|, draws)
    ensures groups == [] ==> r == Failure(InvalidInput)
    ensures groups != [] && r.Failure? ==>
      ((exists g :: 0 <= g < |groups| && 2 * |groups[g]| > |MemberKeys(groups)|) || MemberKeys(groups) == [])
    ensures (exists g :: 0 <= g < |groups| && 2 * |groups[g]| > |MemberKeys(groups)|) ==>
      r == Failure(TooManyMembers(FirstTooBig(groups, |MemberKeys(groups)|, 0).value))
    ensures r.Success? ==> Matching(r.value, groups, MemberKeys(groups))
    ensures r.Success? ==> |r.value| >= 2 && (|MemberKeys(groups)| >= 3 ==> |r.value| >= 3)
    ensures r.Success? ==> NoSelfGift(r.value) && (|MemberKeys(groups)| >= 3 ==> NoTwoCycle(r.value))
  {
    if groups == [] then Failure(InvalidInput)
    else
      var members := MemberKeys(groups);
      var keys := Shuffle(members, draws);
      ShuffleMembers(members, draws);
      SelectorFails(groups, members, keys);
      SelectorMatches(groups, members, keys);
      MatchKeys(groups, keys)
  }

  /** The shuffled names fail the half-size check exactly as the names do. */
  lemma SelectorFails(groups: seq<seq<string>>, members: seq<string>, keys: seq<string>)
    requires Distinct(keys) && (forall m :: m in keys ==> LastRow(groups, m) >= 0) && |keys| == |members|
    requires forall x :: x in keys <==> x in members
    ensures var r := MatchKeys(groups, keys);
      (r.Failure? ==> (exists g :: 0 <= g < |groups| && 2 * |groups[g]| > |members|) || members == [])
      && ((exists g :: 0 <= g < |groups| && 2 * |groups[g]| > |members|) ==>
            r == Failure(TooManyMembers(FirstTooBig(groups, |members|, 0).value)))
  {
    TooBigIff(groups, |members|);
  }

  /** The walk over the shuffled names matches the names, in a chain long
      enough that nobody gives to themselves, nor, with three members, to
      their own giver. */
  lemma SelectorMatches(groups: seq<seq<string>>, members: seq<string>, keys: seq<string>)
    requires Distinct(keys) && (forall m :: m in keys ==> LastRow(groups, m) >= 0) && |keys| == |members|
    requires forall x :: x in keys <==> x in members
    ensures var r := MatchKeys(groups, keys);
      r.Success? ==> (Matching(r.value, groups, members)
        && |r.value| >= 2 && (|members| >= 3 ==> |r.value| >= 3)
        && NoSelfGift(r.value) && (|members| >= 3 ==> NoTwoCycle(r.value)))
  {
    var r := MatchKeys(groups, keys);
    if r.Success? {
      assert Matching(r.value, groups, members);
      ChainClaims(r.value, groups, members);
    }
  }

  /** The test suite's first check on every match, as far as it concerns
      one match: nobody gives to themselves. */
  predicate NoSelfGift(ms: seq<Pair>) {
    forall i :: 0 <= i < |ms| ==> ms[i].0 != ms[i].1
  }

  /** The test suite's 2-cycle check: the match given by a receiver never
      goes back to that receiver's giver. */
  predicate NoTwoCycle(ms: seq<Pair>) {
    forall i, j :: 0 <= i < |ms| && 0 <= j < |ms| && ms[j].0 == ms[i].1 ==> ms[j].1 != ms[i].0
  }

  /** In a closed chain with distinct givers, two matches rule out a
      self-gift and three rule out a 2-cycle: the receiver of match `i`
      gives the next match, whose receiver is the giver after that. */
  lemma ChainClaims(ms: seq<Pair>, groups: seq<seq<string>>, members: seq<string>)
    requires Matching(ms, groups, members) && |ms| >= 2
    ensures NoSelfGift(ms)
    ensures |ms| >= 3 ==> NoTwoCycle(ms)
  {
    var n := |ms|;
    forall i | 0 <= i < n ensures ms[i].0 != ms[i].1 {
      if i < n - 1 {
        assert ms[i].1 == ms[i + 1].0;
      } else {
        assert ms[i].1 == ms[0].0;
      }
    }
    if n >= 3 {
      forall i, j | 0 <= i < n && 0 <= j < n && ms[j].0 == ms[i].1 ensures ms[j].1 != ms[i].0 {
        var ni := if i < n - 1 then i + 1 else 0;
        assert ms[ni].0 == ms[i].1;
        GiverIndex(ms, j, ni);
        var nj := if j < n - 1 then j + 1 else 0;
        assert ms[nj].0 == ms[j].1 && nj != i;
      }
    }
  }

  /** With distinct givers, a giver names its match. */
  lemma GiverIndex(ms: seq<Pair>, i: nat, j: nat)
    requires DistinctGivers(ms) && i < |ms| && j < |ms| && ms[i].0 == ms[j].0
    ensures i == j
  {
  }

  /** What a successful call returns: a chain of matches between `members`
      that closes on its first giver, each member giving at most once, and
      every match but the closing one joining two different groups. */
  predicate Matching(ms: seq<Pair>, groups: seq<seq<string>>, members: seq<string>) {
    |ms| >= 1 && ms[|ms| - 1].1 == ms[0].0 && Linked(ms) && DistinctGivers(ms)
    && |ms| <= |members|
    && (forall i :: 0 <= i < |ms| ==> ms[i].0 in members && ms[i].1 in members)
    && (forall i :: 0 <= i < |ms| - 1 ==> LastRow(groups, ms[i].0) != LastRow(groups, ms[i].1))
  }

  /** The rest of `santaSelector` once the member names are shuffled into
      `keys`: the half-size check, then the walk. */
  function MatchKeys(groups: seq<seq<string>>, keys: seq<string>): (r: Result<seq<Pair>, string>)
    requires Distinct(keys) && forall m :: m in keys ==> LastRow(groups, m) >= 0
    ensures r.Failure? <==> FirstTooBig(groups, |keys|, 0).Some? || keys == []
    ensures FirstTooBig(groups, |keys|, 0).Some? ==> r == Failure(TooManyMembers(FirstTooBig(groups, |keys|, 0).value))
    ensures r.Success? ==> r.value == WalkKeys(groups, keys)
    ensures r.Success? ==> |r.value| >= 2 && (|keys| >= 3 ==> |r.value| >= 3)
  {
    match FirstTooBig(groups, |keys|, 0)
    case Some(g) => Failure(TooManyMembers(g))
    case None =>
      if keys == [] then Failure(NoMembers)
      else Success(WalkKeys(groups, keys))
  }

  /** Some group is longer than half the members exactly when the check
      finds one. */
  lemma TooBigIff(groups: seq<seq<string>>, n: nat)
    ensures FirstTooBig(groups, n, 0).Some? <==> exists g :: 0 <= g < |groups| && 2 * |groups[g]| > n
  {
    if FirstTooBig(groups, n, 0).Some? {
      var g := FirstTooBig(groups, n, 0).value;
      assert 2 * |groups[g]| > n;
    }
  }

  /** The walk from the first member of the second half of `keys`, with
      every group's unmatched count at its length. */
  function WalkKeys(groups: seq<seq<string>>, keys: seq<string>): (ms: seq<Pair>)
    requires keys != [] && Distinct(keys) && forall m :: m in keys ==> LastRow(groups, m) >= 0
    ensures Matching(ms, groups, keys) && ms[0].0 == keys[|keys| / 2]
    ensures FirstTooBig(groups, |keys|, 0).None? ==> |ms| >= 2 && (|keys| >= 3 ==> |ms| >= 3)
  {
    var n := |keys|;
    WalkKeysSpec(groups, keys);
    WalkKeysLength(groups, keys);
    WalkFrom(StartWalk(groups, keys), groups, SetOf(keys), keys[..n / 2], keys[n / 2..], keys[n / 2])
  }

  /** The loop's variables before the first turn: the first member of the
      second half gives first, and every group's unmatched count is its
      length. */
  function StartWalk(groups: seq<seq<string>>, keys: seq<string>): Walk
    requires keys != []
  {
    Walk(keys[|keys| / 2], false, {}, seq(|groups|, i requires 0 <= i < |groups| => |groups[i]|), [])
  }

  /** What the walk from the starting member yields. */
  lemma WalkKeysSpec(groups: seq<seq<string>>, keys: seq<string>)
    requires keys != [] && Distinct(keys) && forall m :: m in keys ==> LastRow(groups, m) >= 0
    ensures var n := |keys|;
      Going(StartWalk(groups, keys), groups, SetOf(keys), keys[..n / 2], keys[n / 2..], keys[n / 2])
    ensures var n := |keys|;
      var ms := WalkFrom(StartWalk(groups, keys), groups, SetOf(keys), keys[..n / 2], keys[n / 2..], keys[n / 2]);
      Matching(ms, groups, keys) && ms[0].0 == keys[n / 2]
  {
    var n := |keys|;
    WalkStarts(groups, keys);
    var ms := WalkFrom(StartWalk(groups, keys), groups, SetOf(keys), keys[..n / 2], keys[n / 2..], keys[n / 2]);
    ClosedMatching(ms, groups, keys, keys[n / 2]);
  }

  /** A finished walk over distinct `keys` that crosses groups is a
      matching of `keys`. */
  lemma ClosedMatching(ms: seq<Pair>, groups: seq<seq<string>>, keys: seq<string>, start: string)
    requires Distinct(keys) && Closed(ms, SetOf(keys), start) && Crossing(ms, groups, start)
    ensures Matching(ms, groups, keys) && ms[0].0 == start
  {
    SetOfSize(keys);
    ClosedCrossing(ms, groups, SetOf(keys), start);
  }

  /** The half-size check makes the walk from the starting member at least
      two matches long, and three with three members. */
  lemma WalkKeysLength(groups: seq<seq<string>>, keys: seq<string>)
    requires keys != [] && Distinct(keys) && forall m :: m in keys ==> LastRow(groups, m) >= 0
    requires Going(StartWalk(groups, keys), groups, SetOf(keys), keys[..|keys| / 2], keys[|keys| / 2..], keys[|keys| / 2])
    ensures var n := |keys|;
      var ms := WalkFrom(StartWalk(groups, keys), groups, SetOf(keys), keys[..n / 2], keys[n / 2..], keys[n / 2]);
      FirstTooBig(groups, |keys|, 0).None? ==> |ms| >= 2 && (|keys| >= 3 ==> |ms| >= 3)
  {
    var n := |keys|;
    assert keys[..n / 2] + keys[n / 2..] == keys;
    FirstTurns(groups, keys, SetOf(keys), keys[..n / 2], keys[n / 2..], StartWalk(groups, keys));
  }

  /** In a finished walk only the closing match returns to the start, so
      every other match joins two groups. */
  lemma ClosedCrossing(ms: seq<Pair>, groups: seq<seq<string>>, ks: set<string>, start: string)
    requires Closed(ms, ks, start) && Crossing(ms, groups, start)
    ensures forall i :: 0 <= i < |ms| - 1 ==> LastRow(groups, ms[i].0) != LastRow(groups, ms[i].1)
  {
    forall i | 0 <= i < |ms| - 1 ensures LastRow(groups, ms[i].0) != LastRow(groups, ms[i].1) {
      assert ms[i].1 == ms[i + 1].0 != ms[0].0;
    }
  }

  /** The receiver is the starting member only as the last resort, when
      every member of either half is visited, is the giver, or shares the
      giver's group; the starting member is never found by a search once
      it is visited or giving. */
  lemma ReceiverFallback(w: Walk, groups: seq<seq<string>>, left: seq<string>, right: seq<string>, start: string)
    requires LastRow(groups, w.current) >= 0
    requires start in w.visited || start == w.current
    requires w.matches != [] ==> w.matches[|w.matches| - 1].0 in w.visited
    ensures Receiver(w, groups, left, right, start) == start ==>
      forall x :: x in left + right ==> x in w.visited || x == w.current || LastRow(groups, x) == LastRow(groups, w.current)
  {
    var gid := LastRow(groups, w.current);
    var mg := MaximalGroup(w.unmatched, gid);
    var half := if w.onLeft then right else left;
    var other := if w.onLeft then left else right;
    var prev := if |w.matches| == 0 then None else Some(w.matches[|w.matches| - 1].0);
    assert forall x :: x in left + right ==> x in half + other;
    match SeekGroup(half, groups, mg, w.visited)
    case Some(i) =>
      assert LastRow(groups, half[i]) != gid;
    case None =>
      match SeekOther(half + other, groups, gid, prev, w.visited + {w.current})
      case Some(i) =>
      case None =>
        forall x | x in left + right
          ensures x in w.visited || x == w.current || LastRow(groups, x) == gid
        {
          var j :| 0 <= j < |half + other| && (half + other)[j] == x;
        }
    }

  /** Distinct members that all share group `g`, but for at most one
      member `e`, are no more than the group's length, plus one for `e`
      when it lies outside `g`. */
  lemma GroupCap(groups: seq<seq<string>>, keys: seq<string>, g: int, e: string)
    requires Distinct(keys) && 0 <= g < |groups|
    requires forall i :: 0 <= i < |keys| ==> keys[i] == e || LastRow(groups, keys[i]) == g
    ensures |keys| <= |groups[g]| + 1
    ensures LastRow(groups, e) == g ==> |keys| <= |groups[g]|
  {
    SetOfSize(keys);
    SetOfSize(groups[g]);
    InGroup(groups, keys, g, e);
    SubsetSize(SetOf(keys) - {e}, SetOf(groups[g]));
    RemoveOneSize(SetOf(keys), e);
    if LastRow(groups, e) == g {
      SubsetSize(SetOf(keys), SetOf(groups[g]));
    }
  }

  /** Members of group `g` are listed in it. */
  lemma InGroup(groups: seq<seq<string>>, keys: seq<string>, g: int, e: string)
    requires 0 <= g < |groups|
    requires forall i :: 0 <= i < |keys| ==> keys[i] == e || LastRow(groups, keys[i]) == g
    ensures SetOf(keys) - {e} <= SetOf(groups[g])
    ensures LastRow(groups, e) == g ==> SetOf(keys) <= SetOf(groups[g])
  {
    forall x | x in SetOf(keys) ensures x == e || x in SetOf(groups[g]) {
      var i :| 0 <= i < |keys| && keys[i] == x;
    }
  }

  lemma RemoveOneSize<T>(a: set<T>, e: T)
    ensures |a| <= |a - {e}| + 1
  {
    if e in a {
      assert a == (a - {e}) + {e};
    } else {
      assert a - {e} == a;
    }
  }

  /** The half-size check rules out the short walks: the first giver never
      closes the chain at once, and with three or more members neither does
      the second, so the chain has at least two matches, and at least three
      with three members. */
  lemma FirstTurns(groups: seq<seq<string>>, keys: seq<string>, ks: set<string>, left: seq<string>, right: seq<string>, w: Walk)
    requires Distinct(keys) && left + right == keys && ks == SetOf(keys)
    requires Going(w, groups, ks, left, right, w.current) && w.visited == {} && w.matches == []
    ensures var ms := WalkFrom(w, groups, ks, left, right, w.current);
      FirstTooBig(groups, |keys|, 0).None? ==> |ms| >= 2 && (|keys| >= 3 ==> |ms| >= 3)
  {
    if FirstTooBig(groups, |keys|, 0).None? {
      var w1 := TurnOne(groups, keys, ks, left, right, w);
      if |keys| >= 3 {
        SecondTurns(groups, keys, ks, left, right, w1, w.current);
      }
    }
  }

  /** The walk after the first turn, which does not close the chain. */
  lemma TurnOne(groups: seq<seq<string>>, keys: seq<string>, ks: set<string>, left: seq<string>, right: seq<string>, w: Walk)
    returns (w1: Walk)
    requires Distinct(keys) && left + right == keys && ks == SetOf(keys)
    requires Going(w, groups, ks, left, right, w.current) && w.visited == {} && w.matches == []
    requires FirstTooBig(groups, |keys|, 0).None?
    ensures Going(w1, groups, ks, left, right, w.current) && w1.visited == {w.current} && |w1.matches| == 1
    ensures WalkFrom(w, groups, ks, left, right, w.current) == WalkFrom(w1, groups, ks, left, right, w.current)
  {
    FirstTurn(groups, keys, ks, left, right, w);
    w1 := Step(w, groups, ks, left, right, w.current);
    WalkOn(w, groups, ks, left, right, w.current);
  }

  /** From the second giver on, the chain gains at least two more matches. */
  lemma SecondTurns(groups: seq<seq<string>>, keys: seq<string>, ks: set<string>, left: seq<string>, right: seq<string>, w: Walk, start: string)
    requires Distinct(keys) && left + right == keys && |keys| >= 3
    requires Going(w, groups, ks, left, right, start) && w.visited == {start} && |w.matches| == 1
    requires FirstTooBig(groups, |keys|, 0).None?
    ensures |WalkFrom(w, groups, ks, left, right, start)| >= 3
  {
    SecondTurn(groups, keys, ks, left, right, w, start);
    WalkOn(w, groups, ks, left, right, start);
  }

  /** The walk's loop condition: a giver in its frame, with the chain so
      far crossing groups. */
  predicate Going(w: Walk, groups: seq<seq<string>>, ks: set<string>, left: seq<string>, right: seq<string>, start: string) {
    Frame(w, groups, ks, start) && AllIn(left, ks) && AllIn(right, ks) && ChainSoFar(w, ks, start)
    && Crossing(w.matches, groups, start)
  }

  /** A turn that does not return to the start leaves the walk to go on
      from the new giver. */
  lemma WalkOn(w: Walk, groups: seq<seq<string>>, ks: set<string>, left: seq<string>, right: seq<string>, start: string)
    requires Going(w, groups, ks, left, right, start)
    requires Step(w, groups, ks, left, right, start).current != start
    ensures var w' := Step(w, groups, ks, left, right, start);
      Going(w', groups, ks, left, right, start) && |w'.matches| == |w.matches| + 1
      && WalkFrom(w, groups, ks, left, right, start) == WalkFrom(w', groups, ks, left, right, start)
  {
    var w' := Step(w, groups, ks, left, right, start);
    StepProgress(w, groups, ks, left, right, start);
    CrossingExtend(w.matches, (w.current, w'.current), groups, start);
  }

  /** The first giver finds a receiver other than itself: otherwise every
      member would share its group, which is at most half of them. */
  lemma FirstTurn(groups: seq<seq<string>>, keys: seq<string>, ks: set<string>, left: seq<string>, right: seq<string>, w: Walk)
    requires Distinct(keys) && left + right == keys && ks == SetOf(keys)
    requires Going(w, groups, ks, left, right, w.current) && w.visited == {} && w.matches == []
    requires FirstTooBig(groups, |keys|, 0).None?
    ensures Step(w, groups, ks, left, right, w.current).current != w.current
  {
    var start := w.current;
    ReceiverFallback(w, groups, left, right, start);
    if Receiver(w, groups, left, right, start) == start {
      GroupCap(groups, keys, LastRow(groups, start), start);
      assert false;
    }
  }

  /** With three or more members the second giver does not close the chain
      either: otherwise every member but the first would share the second
      giver's group, and `n - 1` is more than half of `n`. */
  lemma SecondTurn(groups: seq<seq<string>>, keys: seq<string>, ks: set<string>, left: seq<string>, right: seq<string>, w: Walk, start: string)
    requires Distinct(keys) && left + right == keys && |keys| >= 3
    requires Going(w, groups, ks, left, right, start) && w.visited == {start} && |w.matches| == 1
    requires FirstTooBig(groups, |keys|, 0).None?
    ensures Step(w, groups, ks, left, right, start).current != start
  {
    ReceiverFallback(w, groups, left, right, start);
    if Receiver(w, groups, left, right, start) == start {
      var g := LastRow(groups, w.current);
      assert forall i :: 0 <= i < |keys| ==> keys[i] == start || LastRow(groups, keys[i]) == g by {
        forall i | 0 <= i < |keys| ensures keys[i] == start || LastRow(groups, keys[i]) == g {
          assert keys[i] in left + right;
        }
      }
      GroupCap(groups, keys, g, start);
      assert false;
    }
  }

  lemma WalkStarts(groups: seq<seq<string>>, keys: seq<string>)
    requires keys != [] && forall m :: m in keys ==> LastRow(groups, m) >= 0
    ensures var n := |keys|; var w := StartWalk(groups, keys);
      Going(w, groups, SetOf(keys), keys[..n / 2], keys[n / 2..], keys[n / 2])
      && w.current == keys[n / 2] && w.visited == {} && w.matches == []
  {
    var n := |keys|;
    assert forall i :: 0 <= i < n / 2 ==> keys[..n / 2][i] == keys[i];
    assert forall i :: 0 <= i < n - n / 2 ==> keys[n / 2..][i] == keys[n / 2 + i];
  }

  /** With more than nothing to match, the half-size check leaves at least
      two members, since a lone member's group is longer than half of one. */
  lemma SuccessHasTwo(groups: seq<seq<string>>, draws: seq<nat>)
    requires ValidDraws(|MemberKeys(groups)|, draws)
    requires SantaSelector(groups, draws).Success?
    ensures |MemberKeys(groups)| >= 2
  {
    if |MemberKeys(groups)| == 1 {
      LoneMemberTooBig(groups);
    }
  }

  /** A lone member's group is longer than half of one member. */
  lemma LoneMemberTooBig(groups: seq<seq<string>>)
    requires |MemberKeys(groups)| == 1
    ensures FirstTooBig(groups, 1, 0).Some?
  {
    var g := LastRow(groups, MemberKeys(groups)[0]);
    assert |groups[g]| >= 1;
  }
}
