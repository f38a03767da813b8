/** harvest.source: the legacy helpers that pick a source for a creep, count how many creeps
    target each source, order objects by distance and decide where to withdraw, pick up and
    deposit. Game calls (withdraw, pickup, transfer, harvest) are inputs: the model returns
    which call is made and which object the creep moves to. */
module HarvestSource {
  import opened Screeps

  // ----- Distances, sorting and the nearest object -----

  /** An object with the distance the sort compares, as `sortOnDist` stores it on each object
      before sorting, and the object's place in the list handed to the sort. Distances are
      squared: the square root keeps their order. */
  datatype Ranked<T> = Ranked(item: T, dist: nat, index: nat)

  /** Exchanging two elements of a sequence keeps its multiset. */
  lemma SwapMultiset<T>(s: seq<T>, p1: nat, p2: nat)
    requires p1 < |s| && p2 < |s|
    ensures multiset(s[p1 := s[p2]][p2 := s[p1]]) == multiset(s)
  {
    var u := s[p1 := s[p2]];
    assert multiset(u) == multiset(s) - multiset{s[p1]} + multiset{s[p2]};
    assert u[p2] == s[p2] || p1 == p2;
  }

  /** `swap`: exchanges the elements at `p1` and `p2`, and nothing else. */
  method Swap<T>(list: array<T>, p1: nat, p2: nat)
    requires p1 < list.Length && p2 < list.Length
    modifies list
    ensures list[..] == old(list[..])[p1 := old(list[p2])][p2 := old(list[p1])]
    ensures multiset(list[..]) == multiset(old(list[..]))
  {
    ghost var s := list[..];
    var cache := list[p1];
    list[p1] := list[p2];
    list[p2] := cache;
    assert list[..] == s[p1 := s[p2]][p2 := s[p1]];
    SwapMultiset(s, p1, p2);
  }

  predicate SortedByDist<T>(s: seq<Ranked<T>>) {
    forall p, q :: 0 <= p < q < |s| ==> s[p].dist <= s[q].dist
  }

  /** Objects at the same distance come in the order of their places in the original list. */
  predicate TiesInListedOrder<T>(s: seq<Ranked<T>>) {
    forall p, q :: 0 <= p < q < |s| && s[p].dist == s[q].dist ==> s[p].index < s[q].index
  }

  /** Exchanging neighbours at different distances keeps the order of the ties. */
  lemma SwapKeepsTies<T>(s: seq<Ranked<T>>, i: int)
    requires 0 <= i && i + 1 < |s| && s[i].dist != s[i + 1].dist
    requires TiesInListedOrder(s)
    ensures TiesInListedOrder(s[i := s[i + 1]][i + 1 := s[i]])
  {
    var t := s[i := s[i + 1]][i + 1 := s[i]];
    forall p, q | 0 <= p < q < |t| && t[p].dist == t[q].dist
      ensures t[p].index < t[q].index
    {
      var p' := if p == i then i + 1 else if p == i + 1 then i else p;
      var q' := if q == i then i + 1 else if q == i + 1 then i else q;
      assert t[p] == s[p'] && t[q] == s[q'];
      assert p' < q';
    }
  }

  /** In a sorted list whose ties keep their listed order, an earlier object is nearer, or
      as near and listed earlier. */
  lemma TieBreak<T>(s: seq<Ranked<T>>, p: int, q: int)
    requires SortedByDist(s) && TiesInListedOrder(s) && 0 <= p < q < |s|
    ensures s[p].dist < s[q].dist || (s[p].dist == s[q].dist && s[p].index < s[q].index)
  {
  }

  /** Every object before `k` is at most as far as every object from `k` on. */
  predicate SplitAt<T>(s: seq<Ranked<T>>, k: int) {
    forall p, q :: 0 <= p < k <= q < |s| ==> s[p].dist <= s[q].dist
  }

  /** The objects from `k` on are in order. */
  predicate SortedFrom<T>(s: seq<Ranked<T>>, k: int) {
    forall p, q :: 0 <= k <= p < q < |s| ==> s[p].dist <= s[q].dist
  }

  /** No object up to `i` is farther than the one at `i`. */
  predicate MaxAt<T>(s: seq<Ranked<T>>, i: int)
    requires i < |s|
  {
    forall p :: 0 <= p <= i ==> s[p].dist <= s[i].dist
  }

  /** The step of the inner loop at `i`: after ordering the neighbours `i` and `i + 1` the
      farthest of the first `i + 2` objects sits at `i + 1`, and the part from `m` on is
      untouched. */
  lemma BubbleStep<T>(s: seq<Ranked<T>>, t: seq<Ranked<T>>, i: int, m: int)
    requires 0 <= i && i + 1 < m <= |s|
    requires SortedFrom(s, m) && SplitAt(s, m)
    requires MaxAt(s, i)
    requires t == if s[i].dist > s[i + 1].dist then s[i := s[i + 1]][i + 1 := s[i]] else s
    ensures SortedFrom(t, m) && SplitAt(t, m)
    ensures MaxAt(t, i + 1)
  {
    if s[i].dist > s[i + 1].dist {
      assert forall p :: 0 <= p < |s| ==> t[p] == (if p == i then s[i + 1] else if p == i + 1 then s[i] else s[p]);
      forall p | 0 <= p <= i + 1
        ensures t[p].dist <= t[i + 1].dist
      {
        if p < i { assert t[p] == s[p]; }
      }
      forall p, q | 0 <= p < m <= q < |s|
        ensures t[p].dist <= t[q].dist
      {
        assert t[q] == s[q];
        if p == i { assert t[p] == s[i + 1]; } else if p == i + 1 { assert t[p] == s[i]; } else { assert t[p] == s[p]; }
      }
    }
  }

  /** The body of the inner loop: the neighbours at `i` and `i + 1` are exchanged when the
      left one is strictly farther. */
  method OrderPair<T>(sources: array<Ranked<T>>, i: int)
    requires 0 <= i && i + 1 < sources.Length
    modifies sources
    ensures sources[..] == if old(sources[i].dist > sources[i + 1].dist)
      then old(sources[..])[i := old(sources[i + 1])][i + 1 := old(sources[i])] else old(sources[..])
    ensures multiset(sources[..]) == multiset(old(sources[..]))
    ensures TiesInListedOrder(old(sources[..])) ==> TiesInListedOrder(sources[..])
  {
    ghost var before := sources[..];
    if sources[i].dist > sources[i + 1].dist {
      Swap(sources, i, i + 1);
      if TiesInListedOrder(before) {
        SwapKeepsTies(before, i);
      }
    }
  }

  /** With the farthest of the first `m` objects at `m - 1`, the sorted tail grows by one. */
  lemma PassDone<T>(s: seq<Ranked<T>>, m: int)
    requires 1 <= m <= |s|
    requires SortedFrom(s, m) && SplitAt(s, m) && MaxAt(s, m - 1)
    ensures SortedFrom(s, m - 1) && SplitAt(s, m - 1)
  {
  }

  /** One pass of the inner loop over the first `m` objects: it moves the farthest of them to
      position `m - 1` and keeps the order of the tail and the split at `m`. */
  method BubblePass<T>(sources: array<Ranked<T>>, m: int)
    requires 1 <= m <= sources.Length
    requires SortedFrom(sources[..], m) && SplitAt(sources[..], m)
    modifies sources
    ensures multiset(sources[..]) == multiset(old(sources[..]))
    ensures SortedFrom(sources[..], m - 1) && SplitAt(sources[..], m - 1)
    ensures TiesInListedOrder(old(sources[..])) ==> TiesInListedOrder(sources[..])
  {
    var i := 0;
    while i < m - 1
      invariant 0 <= i <= m - 1
      invariant multiset(sources[..]) == multiset(old(sources[..]))
      invariant SortedFrom(sources[..], m) && SplitAt(sources[..], m)
      invariant MaxAt(sources[..], i)
      invariant TiesInListedOrder(old(sources[..])) ==> TiesInListedOrder(sources[..])
    {
      ghost var before := sources[..];
      OrderPair(sources, i);
      BubbleStep(before, sources[..], i, m);
      i := i + 1;
    }
    PassDone(sources[..], m);
  }

  /** `sortOnDist`: the bubble sort, which swaps neighbours only while the left one is
      strictly farther. It leaves a rearrangement of the objects in non-decreasing distance
      order, and objects at the same distance keep their relative order. */
  method SortOnDist<T>(sources: array<Ranked<T>>)
    modifies sources
    ensures SortedByDist(sources[..])
    ensures multiset(sources[..]) == multiset(old(sources[..]))
    ensures TiesInListedOrder(old(sources[..])) ==> TiesInListedOrder(sources[..])
  {
    var len := sources.Length;
    var n := 0;
    while n < len
      invariant n <= len
      invariant multiset(sources[..]) == multiset(old(sources[..]))
      invariant SortedFrom(sources[..], len - n) && SplitAt(sources[..], len - n)
      invariant TiesInListedOrder(old(sources[..])) ==> TiesInListedOrder(sources[..])
    {
      BubblePass(sources, len - n);
      n := n + 1;
    }
  }

  /** The position of the earliest object of least distance. */
  predicate NearestAt(from: Pos, ps: seq<Pos>, k: int) {
    0 <= k < |ps| &&
    (forall j :: 0 <= j < |ps| ==> DistSq(from, ps[k]) <= DistSq(from, ps[j])) &&
    (forall j :: 0 <= j < k ==> DistSq(from, ps[j]) > DistSq(from, ps[k]))
  }

  /** Only one position is the earliest nearest. */
  lemma NearestAtUnique(from: Pos, ps: seq<Pos>, a: int, b: int)
    requires NearestAt(from, ps, a) && NearestAt(from, ps, b)
    ensures a == b
  {
    assert DistSq(from, ps[a]) <= DistSq(from, ps[b]) && DistSq(from, ps[b]) <= DistSq(from, ps[a]);
  }

  /** `getNearest` over the positions of the objects: it keeps the first object and replaces
      it only by a strictly nearer one, so ties go to the earliest. With no object the source
      returns `undefined`, here None. */
  method GetNearest(from: Pos, ps: seq<Pos>) returns (nearest: Option<nat>)
    ensures nearest.None? <==> |ps| == 0
    ensures nearest.Some? ==> NearestAt(from, ps, nearest.value)
  {
    if |ps| == 0 {
      return None;
    }
    var best := 0;
    var i := 1;
    while i < |ps|
      invariant 1 <= i <= |ps|
      invariant NearestAt(from, ps[..i], best)
    {
      if DistSq(from, ps[i]) < DistSq(from, ps[best]) {
        best := i;
      }
      i := i + 1;
    }
    assert ps[..i] == ps;
    return Some(best);
  }

  // ----- Free tiles around a source -----

  /** 1 for a wall tile, 0 otherwise. */
  function WallAt(x: int, y: int, walls: set<Pos>): (n: nat)
    ensures n <= 1
  {
    if Pos(x, y) in walls then 1 else 0
  }

  /** How many of the `n` tiles from (x, y0) upwards in y are walls. */
  function ColumnWalls(x: int, y0: int, n: nat, walls: set<Pos>): (c: nat)
    ensures c <= n
  {
    if n == 0 then 0 else ColumnWalls(x, y0, n - 1, walls) + WallAt(x, y0 + n - 1, walls)
  }

  /** How many tiles of the `m` columns of height 3 from (x0, y0) are walls. */
  function BlockWalls(x0: int, y0: int, m: nat, walls: set<Pos>): (c: nat)
    ensures c <= 3 * m
  {
    if m == 0 then 0 else BlockWalls(x0, y0, m - 1, walls) + ColumnWalls(x0 + m - 1, y0, 3, walls)
  }

  /** 9 less one for each wall tile of the 3x3 block around a position. */
  function EmptySpace(p: Pos, walls: set<Pos>): (n: int)
    ensures 0 <= n <= 9
  {
    9 - BlockWalls(p.x - 1, p.y - 1, 3, walls)
  }

  /** `getEmptySpace`: 9 less one for each wall tile of the 3x3 block around the source (the
      source's own tile included), so between 0 and 9. The terrain is the set of wall tiles. */
  method GetEmptySpace(source: Pos, walls: set<Pos>) returns (nEmpty: int)
    ensures nEmpty == EmptySpace(source, walls)
  {
    nEmpty := 9;
    var x := source.x - 1;
    while x <= source.x + 1
      invariant source.x - 1 <= x <= source.x + 2
      invariant nEmpty == 9 - BlockWalls(source.x - 1, source.y - 1, x - source.x + 1, walls)
    {
      ghost var done := BlockWalls(source.x - 1, source.y - 1, x - source.x + 1, walls);
      var y := source.y - 1;
      while y <= source.y + 1
        invariant source.y - 1 <= y <= source.y + 2
        invariant nEmpty == 9 - done - ColumnWalls(x, source.y - 1, y - source.y + 1, walls)
      {
        if Pos(x, y) in walls {
          nEmpty := nEmpty - 1;
        }
        y := y + 1;
      }
      x := x + 1;
    }
  }

  // ----- Counting and choosing target sources -----

  /** An active source of the creep's room as `room.find(FIND_SOURCES_ACTIVE)` lists it. */
  datatype SourceObj = SourceObj(id: string, pos: Pos)

  /** Source ids removed from every choice; the repository leaves the list empty. */
  const EXCLUDED_SOURCES: seq<string> := []

  /** The number of creeps whose `targetSource` names `id`. A creep with no target (undefined,
      "" or -1) names no source. */
  function TargetCount(targets: seq<LegacyTarget>, id: string): (n: nat)
    ensures n <= |targets|
  {
    if targets == [] then 0
    else
      var t := targets[|targets| - 1];
      TargetCount(targets[..|targets| - 1], id) + (if t.Id? && t.id != "" && t.id == id then 1 else 0)
  }

  predicate DistinctIds(sources: seq<SourceObj>) {
    forall i, j :: 0 <= i < j < |sources| ==> sources[i].id != sources[j].id
  }

  function Ids(sources: seq<SourceObj>): (ids: seq<string>)
    ensures |ids| == |sources| && forall k :: 0 <= k < |sources| ==> ids[k] == sources[k].id
  {
    seq(|sources|, k requires 0 <= k < |sources| => sources[k].id)
  }

  /** `getnTargetSources`: one entry per active source of the room, holding how many creeps
      (of all the creeps in `targets`, the `targetSource` of each) target it. A target that is
      not an active source of the room is not counted anywhere. */
  method GetnTargetSources(sources: seq<string>, targets: seq<LegacyTarget>)
    returns (nTargets: map<string, nat>)
    ensures nTargets.Keys == set s | s in sources
    ensures forall id :: id in nTargets ==> nTargets[id] == TargetCount(targets, id)
  {
    nTargets := map[];
    var i := 0;
    while i < |sources|
      invariant i <= |sources|
      invariant nTargets.Keys == set s | s in sources[..i]
      invariant forall id :: id in nTargets ==> nTargets[id] == 0
    {
      assert sources[..i + 1] == sources[..i] + [sources[i]];
      nTargets := nTargets[sources[i] := 0];
      i := i + 1;
    }
    assert sources[..i] == sources;
    var c := 0;
    while c < |targets|
      invariant c <= |targets|
      invariant nTargets.Keys == set s | s in sources
      invariant forall id :: id in nTargets ==> nTargets[id] == TargetCount(targets[..c], id)
    {
      assert targets[..c + 1][..c] == targets[..c];
      var tgtSource := targets[c];
      if tgtSource == Id("") || tgtSource == Unset || tgtSource == MinusOne {
      } else if tgtSource.id !in nTargets {
      } else {
        nTargets := nTargets[tgtSource.id := nTargets[tgtSource.id] + 1];
      }
      c := c + 1;
    }
    assert targets[..c] == targets;
  }

  /** A source a creep may take: not excluded, and fewer creeps target it than it has free
      tiles around it. */
  predicate Qualifies(s: SourceObj, targets: seq<LegacyTarget>, walls: set<Pos>) {
    s.id !in EXCLUDED_SOURCES && TargetCount(targets, s.id) < EmptySpace(s.pos, walls)
  }

  /** `k` is the first qualifying source in the listed order. */
  predicate FirstFit(sources: seq<SourceObj>, targets: seq<LegacyTarget>, walls: set<Pos>, k: int) {
    0 <= k < |sources| && Qualifies(sources[k], targets, walls) &&
    forall j :: 0 <= j < k ==> !Qualifies(sources[j], targets, walls)
  }

  /** `getAvailableTargetResources`: the first qualifying source of the room in the order
      the sources are listed, or "" when none qualifies. */
  method GetAvailableTargetResources(sources: seq<SourceObj>, targets: seq<LegacyTarget>,
                                     walls: set<Pos>) returns (id: string)
    requires DistinctIds(sources)
    ensures (forall k :: 0 <= k < |sources| ==> !Qualifies(sources[k], targets, walls)) ==> id == ""
    ensures forall k :: FirstFit(sources, targets, walls, k) ==> id == sources[k].id
  {
    var nTargets := GetnTargetSources(Ids(sources), targets);
    var s := 0;
    while s < |sources|
      invariant s <= |sources|
      invariant forall j :: 0 <= j < s ==> !Qualifies(sources[j], targets, walls)
    {
      var source := sources[s];
      if source.id !in EXCLUDED_SOURCES {
        assert Ids(sources)[s] == source.id;
        assert nTargets[source.id] == TargetCount(targets, source.id);
        var nSpaces := GetEmptySpace(source.pos, walls);
        if nTargets[source.id] < nSpaces {
          assert FirstFit(sources, targets, walls, s);
          return source.id;
        }
      }
      assert !Qualifies(sources[s], targets, walls);
      s := s + 1;
    }
    return "";
  }

  /** The sources that are not excluded, each with its squared distance to `from` and its
      place in `sources`, in the listed order: what `sortOnDist` is handed. */
  function RankSources(sources: seq<SourceObj>, from: Pos): (r: seq<Ranked<SourceObj>>)
    ensures |r| <= |sources|
    ensures forall p :: 0 <= p < |r| ==> r[p].index < |sources|
    ensures forall p, q :: 0 <= p < q < |r| ==> r[p].index < r[q].index
  {
    if sources == [] then []
    else
      var n := |sources| - 1;
      var s := sources[n];
      RankSources(sources[..n], from) +
        (if s.id in EXCLUDED_SOURCES then [] else [Ranked(s, DistSq(s.pos, from), n)])
  }

  lemma {:induction false} RankSourcesMembers(sources: seq<SourceObj>, from: Pos)
    ensures forall e :: e in RankSources(sources, from) <==>
      e.index < |sources| && e.item == sources[e.index] && e.item.id !in EXCLUDED_SOURCES &&
      e.dist == DistSq(e.item.pos, from)
  {
    if sources != [] {
      var n := |sources| - 1;
      var init := sources[..n];
      RankSourcesMembers(init, from);
      forall e: Ranked<SourceObj>
        ensures e in RankSources(sources, from) <==>
          e.index < |sources| && e.item == sources[e.index] && e.item.id !in EXCLUDED_SOURCES &&
          e.dist == DistSq(e.item.pos, from)
      {
        if e.index < n {
          assert init[e.index] == sources[e.index];
        }
      }
    }
  }

  /** The choice of `getTargetResource`: "" when no source qualifies, otherwise the id of the
      earliest listed of the nearest qualifying sources. */
  predicate IsTargetChoice(from: Pos, sources: seq<SourceObj>, targets: seq<LegacyTarget>,
                           walls: set<Pos>, id: string) {
    if forall k :: 0 <= k < |sources| ==> !Qualifies(sources[k], targets, walls) then id == ""
    else exists k :: 0 <= k < |sources| && NearestQualifying(from, sources, targets, walls, k) && id == sources[k].id
  }

  /** Source `k` qualifies, no qualifying source is nearer, and every qualifying source listed
      before it is strictly farther. */
  predicate NearestQualifying(from: Pos, sources: seq<SourceObj>, targets: seq<LegacyTarget>,
                              walls: set<Pos>, k: int)
    requires 0 <= k < |sources|
  {
    Qualifies(sources[k], targets, walls) &&
    (forall j :: 0 <= j < |sources| && Qualifies(sources[j], targets, walls) ==>
      DistSq(sources[k].pos, from) <= DistSq(sources[j].pos, from)) &&
    (forall j :: 0 <= j < k && Qualifies(sources[j], targets, walls) ==>
      DistSq(sources[k].pos, from) < DistSq(sources[j].pos, from))
  }

  /** Only one source is the earliest nearest qualifying one. */
  lemma NearestQualifyingUnique(from: Pos, sources: seq<SourceObj>, targets: seq<LegacyTarget>,
                                walls: set<Pos>, a: int, b: int)
    requires 0 <= a < |sources| && 0 <= b < |sources|
    requires NearestQualifying(from, sources, targets, walls, a)
    requires NearestQualifying(from, sources, targets, walls, b)
    ensures a == b
  {
    assert DistSq(sources[a].pos, from) <= DistSq(sources[b].pos, from);
    assert DistSq(sources[b].pos, from) <= DistSq(sources[a].pos, from);
  }

  /** The choice of `getTargetResource` is determined by the creep's position, the sources,
      the targets and the walls. */
  lemma TargetChoiceUnique(from: Pos, sources: seq<SourceObj>, targets: seq<LegacyTarget>,
                           walls: set<Pos>, id1: string, id2: string)
    requires IsTargetChoice(from, sources, targets, walls, id1)
    requires IsTargetChoice(from, sources, targets, walls, id2)
    ensures id1 == id2
  {
    if !forall k :: 0 <= k < |sources| ==> !Qualifies(sources[k], targets, walls) {
      var a :| 0 <= a < |sources| && NearestQualifying(from, sources, targets, walls, a) && id1 == sources[a].id;
      var b :| 0 <= b < |sources| && NearestQualifying(from, sources, targets, walls, b) && id2 == sources[b].id;
      NearestQualifyingUnique(from, sources, targets, walls, a, b);
    }
  }

  /** `getTargetResource`: the sources of the room sorted by distance to the creep, then the
      first of them that qualifies. */
  method GetTargetResource(from: Pos, sources: seq<SourceObj>, targets: seq<LegacyTarget>,
                           walls: set<Pos>) returns (id: string)
    requires DistinctIds(sources)
    ensures IsTargetChoice(from, sources, targets, walls, id)
  {
    var nTargets := GetnTargetSources(Ids(sources), targets);
    var list := RankAll(sources, from);
    var sorted := SortRanking(list);
    var s := 0;
    while s < |sorted|
      invariant s <= |sorted|
      invariant forall q :: 0 <= q < s ==> !Qualifies(sorted[q].item, targets, walls)
    {
      var source := sorted[s].item;
      RankedFromSources(sources, from, list, sorted, s);
      var nSpaces := GetEmptySpace(source.pos, walls);
      if nTargets[source.id] < nSpaces {
        ChoiceFromSorted(from, sources, targets, walls, list, sorted, s);
        return source.id;
      }
      s := s + 1;
    }
    NoChoiceFromSorted(from, sources, targets, walls, list, sorted);
    return "";
  }

  /** The first loop of `getTargetResource`: every source not excluded, with its distance. */
  method RankAll(sources: seq<SourceObj>, from: Pos) returns (list: seq<Ranked<SourceObj>>)
    ensures list == RankSources(sources, from)
  {
    list := [];
    var i := 0;
    while i < |sources|
      invariant i <= |sources|
      invariant list == RankSources(sources[..i], from)
    {
      assert sources[..i + 1][..i] == sources[..i];
      if !(sources[i].id in EXCLUDED_SOURCES) {
        list := list + [Ranked(sources[i], DistSq(sources[i].pos, from), i)];
      }
      i := i + 1;
    }
    assert sources[..i] == sources;
  }

  /** The ranking copied into an array and sorted there by `sortOnDist`. */
  method SortRanking<T>(list: seq<Ranked<T>>) returns (sorted: seq<Ranked<T>>)
    ensures SortedByDist(sorted) && multiset(sorted) == multiset(list)
    ensures TiesInListedOrder(list) ==> TiesInListedOrder(sorted)
  {
    var ranked := new Ranked<T>[|list|](k requires 0 <= k < |list| => list[k]);
    assert ranked[..] == list;
    SortOnDist(ranked);
    sorted := ranked[..];
  }

  /** Every entry of the sorted ranking is one of the sources. */
  lemma RankedFromSources(sources: seq<SourceObj>, from: Pos, list: seq<Ranked<SourceObj>>,
                          sorted: seq<Ranked<SourceObj>>, s: int)
    requires list == RankSources(sources, from)
    requires multiset(sorted) == multiset(list)
    requires 0 <= s < |sorted|
    ensures sorted[s].item.id in Ids(sources)
  {
    RankSourcesMembers(sources, from);
    assert sorted[s] in multiset(list);
    var k := sorted[s].index;
    assert Ids(sources)[k] == sorted[s].item.id;
  }

  /** The first qualifying entry of the sorted ranking is the earliest listed of the nearest
      qualifying sources. */
  lemma ChoiceFromSorted(from: Pos, sources: seq<SourceObj>, targets: seq<LegacyTarget>,
                         walls: set<Pos>, list: seq<Ranked<SourceObj>>, sorted: seq<Ranked<SourceObj>>, s: int)
    requires list == RankSources(sources, from)
    requires multiset(sorted) == multiset(list) && SortedByDist(sorted)
    requires TiesInListedOrder(list) ==> TiesInListedOrder(sorted)
    requires 0 <= s < |sorted| && Qualifies(sorted[s].item, targets, walls)
    requires forall q :: 0 <= q < s ==> !Qualifies(sorted[q].item, targets, walls)
    ensures IsTargetChoice(from, sources, targets, walls, sorted[s].item.id)
  {
    RankSourcesMembers(sources, from);
    assert sorted[s] in multiset(list);
    var k := sorted[s].index;
    assert sorted[s] in list;
    assert sorted[s].item == sources[k] && sorted[s].dist == DistSq(sources[k].pos, from);
    assert TiesInListedOrder(sorted);
    forall j | 0 <= j < |sources| && Qualifies(sources[j], targets, walls)
      ensures DistSq(sources[k].pos, from) <= DistSq(sources[j].pos, from)
      ensures j < k ==> DistSq(sources[k].pos, from) < DistSq(sources[j].pos, from)
    {
      var e := Ranked(sources[j], DistSq(sources[j].pos, from), j);
      assert e in multiset(sorted);
      FirstQualifyingBeats(sorted, s, e, targets, walls);
    }
    assert NearestQualifying(from, sources, targets, walls, k);
  }

  /** The first qualifying entry of a sorted ranking whose ties keep their listed order comes
      before any other qualifying entry `e`: nearer, or as near and listed earlier. */
  lemma FirstQualifyingBeats(sorted: seq<Ranked<SourceObj>>, s: int, e: Ranked<SourceObj>,
                             targets: seq<LegacyTarget>, walls: set<Pos>)
    requires SortedByDist(sorted) && TiesInListedOrder(sorted)
    requires 0 <= s < |sorted| && forall q :: 0 <= q < s ==> !Qualifies(sorted[q].item, targets, walls)
    requires e in sorted && Qualifies(e.item, targets, walls)
    ensures sorted[s].dist <= e.dist
    ensures sorted[s].dist == e.dist ==> sorted[s].index <= e.index
  {
    var q :| 0 <= q < |sorted| && sorted[q] == e;
    assert s <= q;
    if q > s {
      TieBreak(sorted, s, q);
    }
  }

  /** When no entry of the ranking qualifies, no source does. */
  lemma NoChoiceFromSorted(from: Pos, sources: seq<SourceObj>, targets: seq<LegacyTarget>,
                           walls: set<Pos>, list: seq<Ranked<SourceObj>>, sorted: seq<Ranked<SourceObj>>)
    requires list == RankSources(sources, from)
    requires multiset(sorted) == multiset(list)
    requires forall q :: 0 <= q < |sorted| ==> !Qualifies(sorted[q].item, targets, walls)
    ensures IsTargetChoice(from, sources, targets, walls, "")
  {
    RankSourcesMembers(sources, from);
    forall k | 0 <= k < |sources|
      ensures !Qualifies(sources[k], targets, walls)
    {
      if sources[k].id !in EXCLUDED_SOURCES {
        var e := Ranked(sources[k], DistSq(sources[k].pos, from), k);
        assert e in multiset(sorted);
      }
    }
  }

  // ----- Re-selecting a harvest target -----

  /** `clearTarget`: forgets the creep's target source. */
  method ClearTarget(creep: Creep)
    modifies creep
    ensures creep.targetSource == Id("") && !TargetTruthy(creep.targetSource)
    ensures creep.room == old(creep.room) && creep.harvesting == old(creep.harvesting)
  {
    creep.targetSource := Id("");
  }

  /** The target re-selection of `harvestSource`. With no target, or when harvesting the
      target reports that it is out of energy (`harvestResult`, the value `creep.harvest`
      returns; not used without a target), the creep takes the choice of `getTargetResource`
      and harvests again when that is a source. Otherwise its target is kept. */
  method ReselectTarget(creep: Creep, sources: seq<SourceObj>, targets: seq<LegacyTarget>,
                        walls: set<Pos>, harvestResult: ErrorCode) returns (retargeted: bool, harvestAgain: bool)
    requires DistinctIds(sources)
    modifies creep
    ensures retargeted == (!TargetTruthy(old(creep.targetSource)) || harvestResult == ERR_NOT_ENOUGH_RESOURCES)
    ensures !retargeted ==> creep.targetSource == old(creep.targetSource)
    ensures retargeted ==> creep.targetSource.Id?
    ensures retargeted ==> IsTargetChoice(creep.pos, sources, targets, walls, creep.targetSource.id)
    ensures harvestAgain == (retargeted && TargetTruthy(creep.targetSource))
    ensures creep.room == old(creep.room) && creep.harvesting == old(creep.harvesting)
  {
    retargeted := !TargetTruthy(creep.targetSource) || harvestResult == ERR_NOT_ENOUGH_RESOURCES;
    harvestAgain := false;
    if retargeted {
      var id := GetTargetResource(creep.pos, sources, targets, walls);
      creep.targetSource := Id(id);
      harvestAgain := id != "";
    }
  }

  // ----- Depositing -----

  function Positions(ss: seq<Structure>): (ps: seq<Pos>)
    ensures |ps| == |ss| && forall k :: 0 <= k < |ss| ==> ps[k] == ss[k].pos
  {
    seq(|ss|, k requires 0 <= k < |ss| => ss[k].pos)
  }

  /** The structures of type `t` that have free capacity for `r`, in the listed order. */
  function Receivers(structures: seq<Structure>, t: StructureType, r: Resource): (c: seq<Structure>)
    ensures forall s :: s in c <==> s in structures && s.stype == t && HasFreeSpace(s, r)
  {
    if structures == [] then []
    else
      var init := Receivers(structures[..|structures| - 1], t, r);
      var last := structures[|structures| - 1];
      assert structures == structures[..|structures| - 1] + [last];
      init + (if last.stype == t && HasFreeSpace(last, r) then [last] else [])
  }

  /** `ti` is the first deposit type of the list with a structure that has room. */
  predicate FirstDepositType(types: seq<StructureType>, structures: seq<Structure>, r: Resource, ti: int) {
    0 <= ti < |types| && |Receivers(structures, types[ti], r)| > 0 &&
    forall j :: 0 <= j < ti ==> |Receivers(structures, types[j], r)| == 0
  }

  /** `s` is the earliest nearest structure of the first deposit type `ti` that has room. */
  ghost predicate DepositChoice(from: Pos, types: seq<StructureType>, structures: seq<Structure>, r: Resource,
                          ti: int, s: Structure) {
    FirstDepositType(types, structures, r, ti) &&
    exists k :: NearestAt(from, Positions(Receivers(structures, types[ti], r)), k) &&
      s == Receivers(structures, types[ti], r)[k]
  }

  /** `depositResources`: takes the deposit types of the creep's configuration in order and
      transfers to the nearest structure of the first type that has a structure with free
      capacity for the resource (the earliest one on a tie), moving to it when it is out of
      range (`transferResult`, the value `creep.transfer` returns). With no such structure
      it answers ERR_INVALID_TARGET. */
  method DepositResources(from: Pos, types: seq<StructureType>, structures: seq<Structure>,
                          res: Resource, transferResult: ErrorCode)
    returns (err: ErrorCode, target: Option<Structure>, moved: bool)
    ensures err == OK || err == ERR_INVALID_TARGET
    ensures err == ERR_INVALID_TARGET <==>
      forall ti, s :: 0 <= ti < |types| && s in structures ==> !(s.stype == types[ti] && HasFreeSpace(s, res))
    ensures target.Some? <==> err == OK
    ensures target.Some? ==> exists ti :: DepositChoice(from, types, structures, res, ti, target.value)
    ensures moved == (target.Some? && transferResult == ERR_NOT_IN_RANGE)
  {
    var sType := 0;
    while sType < |types|
      invariant sType <= |types|
      invariant forall j :: 0 <= j < sType ==> |Receivers(structures, types[j], res)| == 0
    {
      var candidates := Receivers(structures, types[sType], res);
      if |candidates| > 0 {
        var nearest := GetNearest(from, Positions(candidates));
        assert DepositChoice(from, types, structures, res, sType, candidates[nearest.value]);
        target := Some(candidates[nearest.value]);
        moved := transferResult == ERR_NOT_IN_RANGE;
        err := OK;
        assert candidates[nearest.value] in candidates;
        return;
      }
      sType := sType + 1;
    }
    forall ti, s | 0 <= ti < |types| && s in structures
      ensures !(s.stype == types[ti] && HasFreeSpace(s, res))
    {
      assert s in Receivers(structures, types[ti], res) <==> s.stype == types[ti] && HasFreeSpace(s, res);
    }
    return ERR_INVALID_TARGET, None, false;
  }

  // ----- Withdrawing and picking up -----

  /** `store[resource]`: a resource the store does not list reads as undefined. */
  function Stored(s: Store, r: Resource): Option<nat> {
    if r in s.amounts then Some(s.amounts[r]) else None
  }

  /** The amount both withdraw helpers ask for: the creep's free capacity, lowered to the
      stored amount when less is stored. An undefined stored amount compares false and leaves
      the free capacity. */
  function WithdrawAmount(free: int, stored: Option<nat>): (amount: int)
    ensures amount <= free
    ensures stored.Some? ==> amount <= stored.value
    ensures amount == free || (stored.Some? && amount == stored.value)
  {
    if stored.Some? && stored.value < free then stored.value else free
  }

  /** The structures `pullFromStorage` draws from: containers and storages holding energy. */
  predicate EnergyStore(s: Structure) {
    (s.stype == Container || s.stype == Storage) && StoredIn(s, RESOURCE_ENERGY) > 0
  }

  function EnergyStores(structures: seq<Structure>): (c: seq<Structure>)
    ensures forall s :: s in c <==> s in structures && EnergyStore(s)
  {
    if structures == [] then []
    else
      var last := structures[|structures| - 1];
      assert structures == structures[..|structures| - 1] + [last];
      EnergyStores(structures[..|structures| - 1]) + (if EnergyStore(last) then [last] else [])
  }

  /** `pullFromStorage`: withdraws `resource` from the earliest listed of the nearest
      containers and storages holding energy, asking for `WithdrawAmount` of the creep's free
      capacity `free` and what that structure stores, and moves to it when it is out of range
      (`withdrawResult`, the value `creep.withdraw` returns). It answers ERR_INVALID_TARGET
      with no such structure, ERR_BUSY when the withdraw does, and OK otherwise. */
  method PullFromStorage(from: Pos, structures: seq<Structure>, resource: Resource, free: int,
                         withdrawResult: ErrorCode)
    returns (err: ErrorCode, target: Option<Structure>, amount: int, moved: bool)
    ensures target.None? <==> forall s :: s in structures ==> !EnergyStore(s)
    ensures target.None? ==> err == ERR_INVALID_TARGET && !moved
    ensures target.Some? ==> target.value in structures && EnergyStore(target.value)
    ensures target.Some? ==> forall s :: s in structures && EnergyStore(s) ==>
      DistSq(target.value.pos, from) <= DistSq(s.pos, from)
    ensures target.Some? ==>
      exists k :: 0 <= k < |EnergyStores(structures)| && EnergyStores(structures)[k] == target.value &&
        (forall j :: 0 <= j < k ==> DistSq(target.value.pos, from) < DistSq(EnergyStores(structures)[j].pos, from))
    ensures target.Some? ==> amount == WithdrawAmount(free, Stored(target.value.store.value, resource))
    ensures target.Some? ==> err == (if withdrawResult == ERR_BUSY then ERR_BUSY else OK)
    ensures moved == (target.Some? && withdrawResult == ERR_NOT_IN_RANGE)
  {
    var candidates := EnergyStores(structures);
    if |candidates| == 0 {
      return ERR_INVALID_TARGET, None, 0, false;
    }
    var ranked := new Ranked<Structure>[|candidates|](k requires 0 <= k < |candidates| =>
      Ranked(candidates[k], DistSq(candidates[k].pos, from), k));
    ghost var list := ranked[..];
    SortOnDist(ranked);
    var first := ranked[0];
    NearestOfSorted(from, candidates, list, ranked[..]);
    assert first.item in candidates;
    target := Some(first.item);
    amount := WithdrawAmount(free, Stored(first.item.store.value, resource));
    moved := withdrawResult == ERR_NOT_IN_RANGE;
    err := if withdrawResult == ERR_BUSY then ERR_BUSY else OK;
  }

  /** The head of the sorted ranking of a list of structures is the earliest listed of the
      nearest ones. */
  lemma NearestOfSorted(from: Pos, candidates: seq<Structure>, list: seq<Ranked<Structure>>,
                        sorted: seq<Ranked<Structure>>)
    requires |list| == |candidates| > 0
    requires forall k :: 0 <= k < |list| ==> list[k] == Ranked(candidates[k], DistSq(candidates[k].pos, from), k)
    requires multiset(sorted) == multiset(list) && SortedByDist(sorted)
    requires TiesInListedOrder(list) ==> TiesInListedOrder(sorted)
    ensures sorted[0].index < |candidates| && sorted[0].item == candidates[sorted[0].index]
    ensures forall s :: s in candidates ==> DistSq(sorted[0].item.pos, from) <= DistSq(s.pos, from)
    ensures forall j :: 0 <= j < sorted[0].index ==> DistSq(sorted[0].item.pos, from) < DistSq(candidates[j].pos, from)
  {
    assert sorted[0] in multiset(list);
    assert TiesInListedOrder(sorted);
    forall j | 0 <= j < |candidates|
      ensures DistSq(sorted[0].item.pos, from) <= DistSq(candidates[j].pos, from)
      ensures j < sorted[0].index ==> DistSq(sorted[0].item.pos, from) < DistSq(candidates[j].pos, from)
    {
      assert list[j] in multiset(sorted);
      var q :| 0 <= q < |sorted| && sorted[q] == list[j];
      if q > 0 {
        assert sorted[0].dist <= sorted[q].dist;
      }
    }
  }

  /** A pile of dropped resources. */
  datatype Dropped = Dropped(id: string, pos: Pos, resourceType: Resource)

  /** Energy lying off the edge tiles of the room. */
  predicate Pickable(d: Dropped) {
    0 < d.pos.y < 49 && 0 < d.pos.x < 49 && d.resourceType == RESOURCE_ENERGY
  }

  function PickableDrops(dropped: seq<Dropped>): (c: seq<Dropped>)
    ensures forall d :: d in c <==> d in dropped && Pickable(d)
  {
    if dropped == [] then []
    else if Pickable(dropped[0]) then [dropped[0]] + PickableDrops(dropped[1..])
    else PickableDrops(dropped[1..])
  }

  /** `k` is the first pickable pile. */
  predicate FirstPickableAt(dropped: seq<Dropped>, k: int) {
    0 <= k < |dropped| && Pickable(dropped[k]) && forall j :: 0 <= j < k ==> !Pickable(dropped[j])
  }

  datatype PickupOutcome = PickupOutcome(err: ErrorCode, target: Option<Dropped>, moved: bool)

  /** `pickupResource`: picks up the first pickable pile, moving to it when it is out of
      range (`pickupResult`, the value `creep.pickup` returns); ERR_INVALID_TARGET with none. */
  function PickupResource(dropped: seq<Dropped>, pickupResult: ErrorCode): (o: PickupOutcome)
    ensures o.err == ERR_INVALID_TARGET <==> forall d :: d in dropped ==> !Pickable(d)
    ensures o.err == OK <==> o.target.Some?
    ensures o.target.Some? ==> exists k :: FirstPickableAt(dropped, k) && dropped[k] == o.target.value
    ensures o.moved <==> o.target.Some? && pickupResult == ERR_NOT_IN_RANGE
  {
    var resources := PickableDrops(dropped);
    if |resources| == 0 then PickupOutcome(ERR_INVALID_TARGET, None, false)
    else
      FirstPickable(dropped);
      PickupOutcome(OK, Some(resources[0]), pickupResult == ERR_NOT_IN_RANGE)
  }

  /** The first element of the filtered list is the first pickable pile. */
  lemma {:induction false} FirstPickable(dropped: seq<Dropped>)
    requires |PickableDrops(dropped)| > 0
    ensures exists k :: FirstPickableAt(dropped, k) && dropped[k] == PickableDrops(dropped)[0]
  {
    if !Pickable(dropped[0]) {
      FirstPickable(dropped[1..]);
      var k :| FirstPickableAt(dropped[1..], k) && dropped[1..][k] == PickableDrops(dropped[1..])[0];
      assert FirstPickableAt(dropped, k + 1);
    } else {
      assert FirstPickableAt(dropped, 0);
    }
  }

  /** A tombstone with the energy it holds. */
  datatype Tombstone = Tombstone(id: string, pos: Pos, energy: nat)

  /** The tombstone the loop of `pickupTombstone` stops at: the first one holding energy, or
      the last one when none does. */
  predicate ChosenTombstone(ts: seq<Tombstone>, k: int) {
    0 <= k < |ts| && (forall j :: 0 <= j < k ==> ts[j].energy == 0) &&
    (ts[k].energy > 0 || k == |ts| - 1)
  }

  /** The loop of `pickupTombstone`. */
  method ChooseTombstone(ts: seq<Tombstone>) returns (k: nat)
    requires |ts| > 0
    ensures ChosenTombstone(ts, k)
  {
    k := 0;
    while k < |ts| - 1 && ts[k].energy == 0
      invariant k < |ts|
      invariant forall j :: 0 <= j < k ==> ts[j].energy == 0
    {
      k := k + 1;
    }
  }

  datatype TombstoneOutcome = TombstoneOutcome(err: ErrorCode, chosen: Option<nat>, amount: int, moveTo: Option<nat>)

  /** `pickupTombstone` as written: it withdraws `WithdrawAmount` of the creep's free
      capacity and the chosen tombstone's energy from the chosen tombstone, but when that is
      out of range (`withdrawResult`) it moves to the first tombstone of the room. */
  method PickupTombstoneAsWritten(ts: seq<Tombstone>, free: int, withdrawResult: ErrorCode)
    returns (o: TombstoneOutcome)
    ensures o.err == ERR_INVALID_TARGET <==> |ts| == 0
    ensures o.err == OK <==> o.chosen.Some?
    ensures o.chosen.Some? ==> ChosenTombstone(ts, o.chosen.value)
    ensures o.chosen.Some? ==> o.amount == WithdrawAmount(free, Some(ts[o.chosen.value].energy))
    ensures o.moveTo == (if o.chosen.Some? && withdrawResult == ERR_NOT_IN_RANGE then Some(0) else None)
  {
    if |ts| == 0 {
      return TombstoneOutcome(ERR_INVALID_TARGET, None, 0, None);
    }
    var k := ChooseTombstone(ts);
    var amount := WithdrawAmount(free, Some(ts[k].energy));
    var moveTo: Option<nat> := if withdrawResult == ERR_NOT_IN_RANGE then Some(0) else None;
    return TombstoneOutcome(OK, Some(k), amount, moveTo);
  }

  /** With an empty tombstone first and a full one second, the creep withdraws from the
      second and, out of range, walks to the first. */
  lemma TombstoneDetour(a: Pos, b: Pos)
    ensures ChosenTombstone([Tombstone("t0", a, 0), Tombstone("t1", b, 50)], 1)
    ensures forall k :: ChosenTombstone([Tombstone("t0", a, 0), Tombstone("t1", b, 50)], k) ==> k != 0
  {
  }

  /** `pickupTombstone` with the move going to the tombstone it withdraws from. */
  method PickupTombstone(ts: seq<Tombstone>, free: int, withdrawResult: ErrorCode)
    returns (o: TombstoneOutcome)
    ensures o.err == ERR_INVALID_TARGET <==> |ts| == 0
    ensures o.err == OK <==> o.chosen.Some?
    ensures o.chosen.Some? ==> ChosenTombstone(ts, o.chosen.value)
    ensures o.chosen.Some? ==> o.amount == WithdrawAmount(free, Some(ts[o.chosen.value].energy))
    ensures o.moveTo == (if o.chosen.Some? && withdrawResult == ERR_NOT_IN_RANGE then o.chosen else None)
  {
    if |ts| == 0 {
      return TombstoneOutcome(ERR_INVALID_TARGET, None, 0, None);
    }
    var k := ChooseTombstone(ts);
    var amount := WithdrawAmount(free, Some(ts[k].energy));
    var moveTo: Option<nat> := if withdrawResult == ERR_NOT_IN_RANGE then Some(k) else None;
    return TombstoneOutcome(OK, Some(k), amount, moveTo);
  }

  /** The corrected helper only ever walks to the tombstone it withdraws from, and it takes
      a tombstone holding energy whenever there is one. */
  lemma TombstoneTargetHolds(ts: seq<Tombstone>, k: nat, j: nat)
    requires ChosenTombstone(ts, k) && j < |ts| && ts[j].energy > 0
    ensures ts[k].energy > 0 && k <= j
  {
  }
}
