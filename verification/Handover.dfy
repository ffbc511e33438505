/** Handing the watchers of the old configuration over to the new one.

    `Fixed` is the evident intent: reuse an old watcher of the same path.  `Written` is the
    code, which compares the new path with the old one of the same number instead, whichever
    watcher it is looking at. */
module Handover {
  import opened Wrappers

  type Path = string

  datatype Rule = Written | Fixed

  /** `source[i]` is the old slot whose watcher fills slot i, if it is not a new one; `left[j]`
      tells whether old watcher j is still in its slot. */
  datatype Plan = Plan(source: seq<Option<nat>>, left: seq<bool>)

  predicate Wants(rule: Rule, old_: seq<Path>, new_: seq<Path>, i: nat, j: nat)
    requires i < |new_| && j < |old_| && (rule.Written? ==> i < |old_|)
  {
    new_[i] == old_[if rule.Written? then i else j]
  }

  /** The first old slot at or after `j` whose watcher may fill slot `i`. */
  function Pick(rule: Rule, old_: seq<Path>, new_: seq<Path>, i: nat, left: seq<bool>, j: nat): (r: Option<nat>)
    requires i < |new_| && |left| == |old_| && (rule.Written? && old_ != [] ==> i < |old_|)
    ensures r.Some? ==> j <= r.value < |old_| && left[r.value] && Wants(rule, old_, new_, i, r.value)
    ensures forall k :: j <= k < |old_| && (r.Some? ==> k < r.value) ==> !(left[k] && Wants(rule, old_, new_, i, k))
    decreases |old_| - j
  {
    if j >= |old_| then None
    else if Wants(rule, old_, new_, i, j) && left[j] then Some(j)
    else Pick(rule, old_, new_, i, left, j + 1)
  }

  /** The code reads old paths by the number of new ones, so to fill `n` slots there must be
      as many. */
  predicate InBounds(rule: Rule, old_: seq<Path>, n: nat) {
    rule.Fixed? || old_ == [] || n <= |old_|
  }

  /** The plan when the first `n` new slots have been filled. */
  function PlanTo(rule: Rule, old_: seq<Path>, new_: seq<Path>, n: nat): (p: Plan)
    requires n <= |new_| && InBounds(rule, old_, n)
    ensures |p.source| == n && |p.left| == |old_|
    ensures forall i :: 0 <= i < n && p.source[i].Some? ==> p.source[i].value < |old_|
  {
    if n == 0 then Plan([], seq(|old_|, _ => true))
    else
      var p := PlanTo(rule, old_, new_, n - 1);
      var r := Pick(rule, old_, new_, n - 1, p.left, 0);
      Plan(p.source + [r], if r.Some? then p.left[r.value := false] else p.left)
  }

  // ----- Conservation -----

  /** Every old watcher is still in its slot, to be deleted, or fills exactly one new slot. */
  predicate Conserved(p: Plan) {
    && (forall i, k :: 0 <= i < k < |p.source| && p.source[i].Some? ==> p.source[i] != p.source[k])
    && (forall j :: 0 <= j < |p.left| ==> (p.left[j] <==> Some(j as nat) !in p.source))
  }

  lemma ConservedStep(p: Plan, r: Option<nat>)
    requires Conserved(p) && (r.Some? ==> r.value < |p.left| && p.left[r.value])
    ensures Conserved(Plan(p.source + [r], if r.Some? then p.left[r.value := false] else p.left))
  {
    forall j: nat
      ensures Some(j) in p.source + [r] <==> Some(j) in p.source || r == Some(j)
    {
    }
    forall i | 0 <= i < |p.source| && p.source[i].Some?
      ensures p.source[i] != r
    {
      assert Some(p.source[i].value) in p.source;
    }
  }

  /** Whatever rule it follows, no watcher is lost, doubled, or both kept and deleted. */
  lemma {:induction false} PlanConserves(rule: Rule, old_: seq<Path>, new_: seq<Path>, n: nat)
    requires n <= |new_| && InBounds(rule, old_, n)
    ensures Conserved(PlanTo(rule, old_, new_, n))
  {
    if n != 0 {
      PlanConserves(rule, old_, new_, n - 1);
      var p := PlanTo(rule, old_, new_, n - 1);
      ConservedStep(p, Pick(rule, old_, new_, n - 1, p.left, 0));
    }
  }

  // ----- Right paths -----

  /** Each new slot has a watcher of its own path. */
  predicate RightPaths(old_: seq<Path>, new_: seq<Path>, p: Plan)
    requires |p.source| <= |new_|
  {
    forall i :: 0 <= i < |p.source| && p.source[i].Some? ==>
      p.source[i].value < |old_| && old_[p.source[i].value] == new_[i]
  }

  lemma {:induction false} FixedIsRight(old_: seq<Path>, new_: seq<Path>, n: nat)
    requires n <= |new_|
    ensures RightPaths(old_, new_, PlanTo(Fixed, old_, new_, n))
  {
    if n != 0 {
      FixedIsRight(old_, new_, n - 1);
    }
  }

  function Count(xs: seq<Path>, p: Path): nat {
    multiset(xs)[p]
  }

  /** How many of the first `|p.source|` new slots for `path` are filled by old watchers. */
  function Reused(new_: seq<Path>, source: seq<Option<nat>>, path: Path): nat
    requires |source| <= |new_|
  {
    if source == [] then 0
    else
      var n := |source| - 1;
      Reused(new_, source[..n], path) + if new_[n] == path && source[n].Some? then 1 else 0
  }

  /** How many watchers of `path` are left. */
  function Left(old_: seq<Path>, left: seq<bool>, path: Path): nat
    requires |left| == |old_|
  {
    if old_ == [] then 0
    else
      var n := |old_| - 1;
      Left(old_[..n], left[..n], path) + if old_[n] == path && left[n] then 1 else 0
  }

  lemma {:induction false} LeftAll(old_: seq<Path>, left: seq<bool>, path: Path)
    requires |left| == |old_| && forall j :: 0 <= j < |left| ==> left[j]
    ensures Left(old_, left, path) == Count(old_, path)
  {
    if old_ != [] {
      var n := |old_| - 1;
      LeftAll(old_[..n], left[..n], path);
      assert old_ == old_[..n] + [old_[n]];
    }
  }

  lemma {:induction false} LeftTake(old_: seq<Path>, left: seq<bool>, path: Path, j: nat)
    requires |left| == |old_| && j < |left| && left[j]
    ensures Left(old_, left[j := false], path) == Left(old_, left, path) - if old_[j] == path then 1 else 0
  {
    var n := |old_| - 1;
    if j == n {
      assert left[j := false][..n] == left[..n];
    } else {
      LeftTake(old_[..n], left[..n], path, j);
      assert left[j := false][..n] == left[..n][j := false];
    }
  }

  lemma {:induction false} LeftNone(old_: seq<Path>, left: seq<bool>, path: Path)
    requires |left| == |old_| && forall j :: 0 <= j < |left| ==> !(left[j] && old_[j] == path)
    ensures Left(old_, left, path) == 0
  {
    if old_ != [] {
      LeftNone(old_[..|old_| - 1], left[..|old_| - 1], path);
    }
  }

  lemma ReusedSnoc(new_: seq<Path>, source: seq<Option<nat>>, r: Option<nat>, path: Path)
    requires |source| < |new_|
    ensures Reused(new_, source + [r], path) ==
      Reused(new_, source, path) + if new_[|source|] == path && r.Some? then 1 else 0
  {
    assert (source + [r])[..|source|] == source;
  }

  lemma CountSnoc(xs: seq<Path>, n: nat, path: Path)
    requires 0 < n <= |xs|
    ensures Count(xs[..n], path) == Count(xs[..n - 1], path) + if xs[n - 1] == path then 1 else 0
  {
    assert xs[..n] == xs[..n - 1] + [xs[n - 1]];
  }

  /** Under the intended rule, watchers of `path` are neither made nor lost, and a new one is
      made only when no old one is left. */
  predicate Balanced(old_: seq<Path>, new_: seq<Path>, p: Plan, path: Path)
    requires |p.left| == |old_| && |p.source| <= |new_|
  {
    var reused, left, wanted := Reused(new_, p.source, path), Left(old_, p.left, path), Count(new_[..|p.source|], path);
    && reused + left == Count(old_, path)
    && reused <= wanted
    && (reused == wanted || left == 0)
  }

  lemma NothingLeft(old_: seq<Path>, new_: seq<Path>, i: nat, left: seq<bool>)
    requires i < |new_| && |left| == |old_| && Pick(Fixed, old_, new_, i, left, 0) == None
    ensures Left(old_, left, new_[i]) == 0
  {
    assert forall j :: 0 <= j < |old_| ==> !(left[j] && Wants(Fixed, old_, new_, i, j));
    LeftNone(old_, left, new_[i]);
  }

  lemma BalancedStep(old_: seq<Path>, new_: seq<Path>, p: Plan, r: Option<nat>, path: Path)
    requires |p.left| == |old_| && |p.source| < |new_| && Balanced(old_, new_, p, path)
    requires r.Some? ==> r.value < |old_| && p.left[r.value] && old_[r.value] == new_[|p.source|]
    requires r.None? ==> Left(old_, p.left, new_[|p.source|]) == 0
    ensures Balanced(old_, new_, Plan(p.source + [r], if r.Some? then p.left[r.value := false] else p.left), path)
  {
    ReusedSnoc(new_, p.source, r, path);
    CountSnoc(new_, |p.source| + 1, path);
    if r.Some? {
      LeftTake(old_, p.left, path, r.value);
    }
  }

  lemma {:induction false} FixedCounts(old_: seq<Path>, new_: seq<Path>, n: nat, path: Path)
    requires n <= |new_|
    ensures Balanced(old_, new_, PlanTo(Fixed, old_, new_, n), path)
  {
    if n == 0 {
      LeftAll(old_, PlanTo(Fixed, old_, new_, 0).left, path);
    } else {
      FixedCounts(old_, new_, n - 1, path);
      var p := PlanTo(Fixed, old_, new_, n - 1);
      var r := Pick(Fixed, old_, new_, n - 1, p.left, 0);
      if r.None? {
        NothingLeft(old_, new_, n - 1, p.left);
      }
      BalancedStep(old_, new_, p, r, path);
    }
  }

  function Min(x: nat, y: nat): nat { if x < y then x else y }

  /** The intent, in full: each slot gets its own path, and as many watchers of each path are
      kept as both configurations have use for. */
  lemma IntendedHandover(old_: seq<Path>, new_: seq<Path>, path: Path)
    ensures var p := PlanTo(Fixed, old_, new_, |new_|);
      && RightPaths(old_, new_, p) && Conserved(p)
      && Reused(new_, p.source, path) == Min(Count(old_, path), Count(new_, path))
  {
    PlanConserves(Fixed, old_, new_, |new_|);
    FixedIsRight(old_, new_, |new_|);
    FixedCounts(old_, new_, |new_|, path);
    assert new_[..|new_|] == new_;
  }

  // ----- The rule as written -----

  /** How many of the first `n` numbers have the same path in both configurations. */
  function SameBefore(old_: seq<Path>, new_: seq<Path>, n: nat): (m: nat)
    requires n <= |new_| && n <= |old_|
    ensures m <= n
  {
    if n == 0 then 0 else SameBefore(old_, new_, n - 1) + if new_[n - 1] == old_[n - 1] then 1 else 0
  }

  lemma {:induction false} PickFirstLeft(old_: seq<Path>, new_: seq<Path>, i: nat, left: seq<bool>, j: nat, m: nat)
    requires i < |new_| && i < |old_| && |left| == |old_| && j <= m < |old_|
    requires forall k :: 0 <= k < |left| ==> (left[k] <==> m <= k)
    ensures Pick(Written, old_, new_, i, left, j) == if new_[i] == old_[i] then Some(m) else None
    decreases m - j
  {
    var r := Pick(Written, old_, new_, i, left, j);
    if new_[i] == old_[i] {
      assert left[m] && Wants(Written, old_, new_, i, m);
    }
  }

  /** Old watchers dealt out in order, one for each number whose path did not change. */
  predicate DealtOut(old_: seq<Path>, new_: seq<Path>, p: Plan)
    requires |p.source| <= |new_| <= |old_| && |p.left| == |old_|
  {
    && (forall i :: 0 <= i < |p.source| ==>
          p.source[i] == if new_[i] == old_[i] then Some(SameBefore(old_, new_, i)) else None)
    && (forall j :: 0 <= j < |old_| ==> (p.left[j] <==> SameBefore(old_, new_, |p.source|) <= j))
  }

  /** The lowest watcher that is left, or none, is dealt out. */
  lemma DealOne(left: seq<bool>, m: nat, r: Option<nat>)
    requires forall j :: 0 <= j < |left| ==> (left[j] <==> m <= j)
    requires r.Some? ==> r.value == m < |left|
    ensures var after := if r.Some? then left[r.value := false] else left;
      forall j :: 0 <= j < |after| ==> (after[j] <==> m + (if r.Some? then 1 else 0) <= j)
  {
  }

  lemma SourceMore(old_: seq<Path>, new_: seq<Path>, source: seq<Option<nat>>, r: Option<nat>)
    requires |source| < |new_| <= |old_|
    requires forall i :: 0 <= i < |source| ==>
      source[i] == if new_[i] == old_[i] then Some(SameBefore(old_, new_, i)) else None
    requires r == if new_[|source|] == old_[|source|] then Some(SameBefore(old_, new_, |source|)) else None
    ensures forall i :: 0 <= i < |source| + 1 ==>
      (source + [r])[i] == if new_[i] == old_[i] then Some(SameBefore(old_, new_, i)) else None
  {
  }

  lemma DealtOutMore(old_: seq<Path>, new_: seq<Path>, p: Plan, r: Option<nat>)
    requires |p.source| < |new_| <= |old_| && |p.left| == |old_| && DealtOut(old_, new_, p)
    requires r == if new_[|p.source|] == old_[|p.source|] then Some(SameBefore(old_, new_, |p.source|)) else None
    ensures DealtOut(old_, new_, Plan(p.source + [r], if r.Some? then p.left[r.value := false] else p.left))
  {
    var n := |p.source|;
    SourceMore(old_, new_, p.source, r);
    assert SameBefore(old_, new_, n + 1) == SameBefore(old_, new_, n) + if r.Some? then 1 else 0;
    DealOne(p.left, SameBefore(old_, new_, n), r);
  }

  lemma DealtOutStep(old_: seq<Path>, new_: seq<Path>, p: Plan, r: Option<nat>)
    requires |p.source| < |new_| <= |old_| && |p.left| == |old_| && DealtOut(old_, new_, p)
    requires r == Pick(Written, old_, new_, |p.source|, p.left, 0)
    ensures DealtOut(old_, new_, Plan(p.source + [r], if r.Some? then p.left[r.value := false] else p.left))
  {
    PickFirstLeft(old_, new_, |p.source|, p.left, 0, SameBefore(old_, new_, |p.source|));
    DealtOutMore(old_, new_, p, r);
  }

  /** This is what the code does. */
  lemma {:induction false} WrittenPlan(old_: seq<Path>, new_: seq<Path>, n: nat)
    requires n <= |new_| <= |old_|
    ensures DealtOut(old_, new_, PlanTo(Written, old_, new_, n))
  {
    if n != 0 {
      WrittenPlan(old_, new_, n - 1);
      var p := PlanTo(Written, old_, new_, n - 1);
      DealtOutStep(old_, new_, p, Pick(Written, old_, new_, n - 1, p.left, 0));
    }
  }

  /** Each path that keeps its number is the same as the old path numbered by how many did so
      before it. */
  predicate KeepsOrder(old_: seq<Path>, new_: seq<Path>)
    requires |new_| <= |old_|
  {
    forall i :: 0 <= i < |new_| && new_[i] == old_[i] ==> old_[SameBefore(old_, new_, i)] == new_[i]
  }

  lemma RightIffKeepsOrder(old_: seq<Path>, new_: seq<Path>)
    requires |new_| <= |old_|
    ensures RightPaths(old_, new_, PlanTo(Written, old_, new_, |new_|)) <==> KeepsOrder(old_, new_)
  {
    WrittenPlan(old_, new_, |new_|);
    var p := PlanTo(Written, old_, new_, |new_|);
    if RightPaths(old_, new_, p) {
      forall i | 0 <= i < |new_| && new_[i] == old_[i]
        ensures old_[SameBefore(old_, new_, i)] == new_[i]
      {
        assert p.source[i].Some?;
      }
    }
  }

  lemma {:induction false} NothingToReuse(new_: seq<Path>, n: nat)
    requires n <= |new_|
    ensures forall i :: 0 <= i < n ==> PlanTo(Written, [], new_, n).source[i] == None
  {
    if n != 0 {
      NothingToReuse(new_, n - 1);
    }
  }

  /** The code does not read out of bounds, and gives each slot a watcher of its own path. */
  predicate WrittenWorks(old_: seq<Path>, new_: seq<Path>) {
    InBounds(Written, old_, |new_|) && RightPaths(old_, new_, PlanTo(Written, old_, new_, |new_|))
  }

  /** When it does: at the start, or with no more paths than before, whose order is kept. */
  lemma WrittenWorksIff(old_: seq<Path>, new_: seq<Path>)
    ensures WrittenWorks(old_, new_) <==> old_ == [] || (|new_| <= |old_| && KeepsOrder(old_, new_))
  {
    if old_ == [] {
      NothingToReuse(new_, |new_|);
    } else if |new_| <= |old_| {
      RightIffKeepsOrder(old_, new_);
    }
  }

  /** Number `i` of `xs` has a path that `ys` does not have under that number. */
  predicate Differs(xs: seq<Path>, ys: seq<Path>, i: nat)
    requires i < |xs|
  {
    i >= |ys| || xs[i] != ys[i]
  }

  /** No path has moved from one number to another. */
  predicate NoneMoved(old_: seq<Path>, new_: seq<Path>) {
    forall i, j :: 0 <= i < |new_| && 0 <= j < |old_| && Differs(new_, old_, i) && Differs(old_, new_, j)
      ==> new_[i] != old_[j]
  }

  function Same(old_: seq<Path>, new_: seq<Path>, n: nat, path: Path): nat
    requires n <= |new_| <= |old_|
  {
    if n == 0 then 0
    else Same(old_, new_, n - 1, path) + if new_[n - 1] == path && old_[n - 1] == path then 1 else 0
  }

  /** How many of the first `n` of `xs` are `path` but differ from `ys`. */
  function Different(xs: seq<Path>, ys: seq<Path>, n: nat, path: Path): (d: nat)
    requires n <= |xs|
    ensures d == 0 <==> forall i :: 0 <= i < n && xs[i] == path ==> !Differs(xs, ys, i)
  {
    if n == 0 then 0
    else Different(xs, ys, n - 1, path) + if xs[n - 1] == path && Differs(xs, ys, n - 1) then 1 else 0
  }

  lemma {:induction false} CountNew(old_: seq<Path>, new_: seq<Path>, n: nat, path: Path)
    requires n <= |new_| <= |old_|
    ensures Count(new_[..n], path) == Same(old_, new_, n, path) + Different(new_, old_, n, path)
  {
    if n != 0 {
      CountNew(old_, new_, n - 1, path);
      CountSnoc(new_, n, path);
    }
  }

  lemma {:induction false} CountOld(old_: seq<Path>, new_: seq<Path>, n: nat, path: Path)
    requires |new_| <= |old_| && n <= |old_|
    ensures Count(old_[..n], path) ==
      Same(old_, new_, if n < |new_| then n else |new_|, path) + Different(old_, new_, n, path)
  {
    if n != 0 {
      CountOld(old_, new_, n - 1, path);
      CountSnoc(old_, n, path);
    }
  }

  lemma {:induction false} ReusedIsSame(old_: seq<Path>, new_: seq<Path>, p: Plan, n: nat, path: Path)
    requires n <= |p.source| <= |new_| <= |old_| && |p.left| == |old_| && DealtOut(old_, new_, p)
    ensures Reused(new_, p.source[..n], path) == Same(old_, new_, n, path)
  {
    if n != 0 {
      ReusedIsSame(old_, new_, p, n - 1, path);
      var source := p.source[..n];
      assert source[..n - 1] == p.source[..n - 1];
      assert source[n - 1].Some? <==> new_[n - 1] == old_[n - 1];
    }
  }

  /** The code keeps as many watchers of every path as it should exactly if no path has moved. */
  lemma WrittenReusesAllIff(old_: seq<Path>, new_: seq<Path>)
    requires |new_| <= |old_|
    ensures var source := PlanTo(Written, old_, new_, |new_|).source;
      (forall path :: Reused(new_, source, path) == Min(Count(old_, path), Count(new_, path))) <==> NoneMoved(old_, new_)
  {
    var p := PlanTo(Written, old_, new_, |new_|);
    WrittenPlan(old_, new_, |new_|);
    assert p.source[..|new_|] == p.source && new_[..|new_|] == new_ && old_[..|old_|] == old_;
    forall path
      ensures Reused(new_, p.source, path) == Min(Count(old_, path), Count(new_, path))
        <==> Different(new_, old_, |new_|, path) == 0 || Different(old_, new_, |old_|, path) == 0
    {
      ReusedIsSame(old_, new_, p, |new_|, path);
      CountNew(old_, new_, |new_|, path);
      CountOld(old_, new_, |old_|, path);
    }
    if !NoneMoved(old_, new_) {
      var i, j :| 0 <= i < |new_| && 0 <= j < |old_|
        && Differs(new_, old_, i) && Differs(old_, new_, j) && new_[i] == old_[j];
      assert Different(new_, old_, |new_|, new_[i]) != 0 && Different(old_, new_, |old_|, new_[i]) != 0;
    }
  }

  lemma {:induction false} SameBeforeAll(old_: seq<Path>, new_: seq<Path>, n: nat)
    requires n <= |new_| <= |old_| && new_[..n] == old_[..n]
    ensures SameBefore(old_, new_, n) == n
  {
    if n != 0 {
      assert new_[..n - 1] == new_[..n][..n - 1] && old_[..n - 1] == old_[..n][..n - 1];
      assert new_[n - 1] == new_[..n][n - 1] && old_[n - 1] == old_[..n][n - 1];
      SameBeforeAll(old_, new_, n - 1);
    }
  }

  /** Removing paths from the end only, or none, is handled properly. */
  lemma PrefixIsRight(old_: seq<Path>, new_: seq<Path>)
    requires new_ <= old_
    ensures KeepsOrder(old_, new_)
    ensures forall i :: 0 <= i < |new_| ==> PlanTo(Written, old_, new_, |new_|).source[i] == Some(i)
  {
    WrittenPlan(old_, new_, |new_|);
    forall i | 0 <= i < |new_|
      ensures SameBefore(old_, new_, i) == i && new_[i] == old_[i]
    {
      assert new_[..i] == old_[..i];
      SameBeforeAll(old_, new_, i);
    }
  }

  /** Changing the first of two paths gives the second the watcher of the first. */
  lemma WrongWatcherExample(a: Path, b: Path, c: Path)
    requires a != b && a != c
    ensures PlanTo(Written, [a, b], [c, b], 2).source == [None, Some(0)]
    ensures !RightPaths([a, b], [c, b], PlanTo(Written, [a, b], [c, b], 2))
  {
    WrittenPlan([a, b], [c, b], 2);
    assert SameBefore([a, b], [c, b], 1) == 0;
    var p := PlanTo(Written, [a, b], [c, b], 2);
    assert p.source[1] == Some(0) && p.source[0] == None;
  }

  // ----- The handover in place -----

  class Watcher {
    const path: Path

    constructor (path: Path)
      ensures this.path == path
    {
      this.path := path;
    }
  }

  /** `Undefined` is a read past the end of the old paths. */
  datatype Outcome = Updated(watchers: seq<Watcher>, deleted: seq<Watcher>) | Undefined

  function Kept(slots: seq<Watcher?>): seq<Watcher> {
    if slots == [] then []
    else
      var n := |slots| - 1;
      if slots[n] == null then Kept(slots[..n]) else Kept(slots[..n]) + [slots[n]]
  }

  /** The slots after `plan`: null where the watcher was taken. */
  ghost predicate SlotsAre(slots: seq<Watcher?>, before: seq<Watcher?>, left: seq<bool>) {
    |slots| == |before| == |left| &&
    forall j :: 0 <= j < |slots| ==> slots[j] == if left[j] then before[j] else null
  }

  /** Slot i of the new watchers: taken over, or made for its path. */
  ghost predicate Filled(ws: seq<Watcher>, paths: seq<Path>, before: seq<Watcher?>, source: seq<Option<nat>>) {
    |ws| == |source| <= |paths| &&
    forall i :: 0 <= i < |ws| ==>
      match source[i]
      case Some(j) => j < |before| && ws[i] == before[j]
      case None => ws[i].path == paths[i]
  }

  /** The inner loop: the old slot to take the watcher for slot `i` from, or `|old_|`. */
  method FindOld(old_: seq<Path>, newFiles: seq<Path>, i: nat, oldWatchers: array<Watcher?>,
                 ghost before: seq<Watcher?>, ghost left: seq<bool>)
    returns (j: nat)
    requires i < |newFiles| && i < |old_| && oldWatchers.Length == |old_|
    requires SlotsAre(oldWatchers[..], before, left) && null !in before
    ensures Pick(Written, old_, newFiles, i, left, 0) == if j < |old_| then Some(j) else None
  {
    j := 0;
    while j < |old_|
      invariant 0 <= j <= |old_|
      invariant Pick(Written, old_, newFiles, i, left, 0) == Pick(Written, old_, newFiles, i, left, j)
    {
      assert oldWatchers[j] == oldWatchers[..][j];
      if newFiles[i] == old_[i] && oldWatchers[j] != null {
        return;
      }
      j := j + 1;
    }
  }

  /** The old watchers that are still in their slots, in order. */
  function StillLeft(before: seq<Watcher?>, left: seq<bool>): (ws: seq<Watcher>)
    requires |left| == |before| && null !in before
  {
    if before == [] then []
    else
      var n := |before| - 1;
      assert before[n] in before;
      if left[n] then StillLeft(before[..n], left[..n]) + [before[n]] else StillLeft(before[..n], left[..n])
  }

  /** What is deleted are the watchers that were not taken. */
  lemma {:induction false} KeptIsLeft(slots: seq<Watcher?>, before: seq<Watcher?>, left: seq<bool>)
    requires SlotsAre(slots, before, left) && null !in before
    ensures Kept(slots) == StillLeft(before, left)
  {
    if slots != [] {
      var n := |slots| - 1;
      assert before[n] in before;
      KeptIsLeft(slots[..n], before[..n], left[..n]);
    }
  }

  /** The first `i` slots have been filled according to plan. */
  ghost predicate Progress(ws: seq<Watcher>, slots: seq<Watcher?>, before: seq<Watcher?>,
                           old_: seq<Path>, newFiles: seq<Path>, i: nat)
  {
    && i <= |newFiles| && InBounds(Written, old_, i)
    && Filled(ws, newFiles, before, PlanTo(Written, old_, newFiles, i).source)
    && SlotsAre(slots, before, PlanTo(Written, old_, newFiles, i).left)
  }

  lemma FillOne(ws: seq<Watcher>, w: Watcher, paths: seq<Path>, before: seq<Watcher?>,
                source: seq<Option<nat>>, r: Option<nat>)
    requires Filled(ws, paths, before, source) && |ws| < |paths|
    requires match r case Some(j) => j < |before| && w == before[j] case None => w.path == paths[|ws|]
    ensures Filled(ws + [w], paths, before, source + [r])
  {
  }

  lemma TakeOne(slots: seq<Watcher?>, before: seq<Watcher?>, left: seq<bool>, j: nat)
    requires SlotsAre(slots, before, left) && j < |slots|
    ensures SlotsAre(slots[j := null], before, left[j := false])
  {
  }

  /** One more slot, from old slot `j` or, beyond those, with a new watcher. */
  lemma ProgressOne(ws: seq<Watcher>, slots: seq<Watcher?>, before: seq<Watcher?>,
                    old_: seq<Path>, newFiles: seq<Path>, i: nat, j: nat, w: Watcher)
    requires Progress(ws, slots, before, old_, newFiles, i)
    requires i < |newFiles| && InBounds(Written, old_, i + 1) && |slots| == |old_|
    requires Pick(Written, old_, newFiles, i, PlanTo(Written, old_, newFiles, i).left, 0)
      == if j < |old_| then Some(j) else None
    requires if j < |old_| then w == before[j] else w.path == newFiles[i]
    ensures Progress(ws + [w], if j < |old_| then slots[j := null] else slots, before, old_, newFiles, i + 1)
  {
    var plan := PlanTo(Written, old_, newFiles, i);
    FillOne(ws, w, newFiles, before, plan.source, if j < |old_| then Some(j) else None);
    if j < |old_| {
      TakeOne(slots, before, plan.left, j);
    }
  }

  /** What is left in the old slots, to be deleted. */
  method Leftover(oldWatchers: array<Watcher?>) returns (deleted: seq<Watcher>)
    ensures deleted == Kept(oldWatchers[..])
  {
    deleted := [];
    for j := 0 to oldWatchers.Length
      invariant deleted == Kept(oldWatchers[..j])
    {
      assert oldWatchers[..j + 1][..j] == oldWatchers[..j];
      if oldWatchers[j] != null {
        deleted := deleted + [oldWatchers[j]];
      }
    }
    assert oldWatchers[..oldWatchers.Length] == oldWatchers[..];
  }

  /** Fills slot `i`. */
  method FillSlot(old_: seq<Path>, newFiles: seq<Path>, i: nat, oldWatchers: array<Watcher?>,
                  ws: seq<Watcher>, ghost before: seq<Watcher?>)
    returns (more: seq<Watcher>)
    requires i < |newFiles| && InBounds(Written, old_, i + 1)
    requires oldWatchers.Length == |old_| && null !in before
    requires Progress(ws, oldWatchers[..], before, old_, newFiles, i)
    modifies oldWatchers
    ensures Progress(more, oldWatchers[..], before, old_, newFiles, i + 1)
  {
    ghost var plan, slots := PlanTo(Written, old_, newFiles, i), oldWatchers[..];
    var j := |old_|;
    if |old_| > 0 {
      j := FindOld(old_, newFiles, i, oldWatchers, before, plan.left);
    }
    if j < |old_| {
      var w := oldWatchers[j];
      assert w == slots[j] == before[j];
      more := ws + [w];
      ProgressOne(ws, slots, before, old_, newFiles, i, j, w);
      oldWatchers[j] := null;
      assert oldWatchers[..] == slots[j := null];
    } else {
      var w := new Watcher(newFiles[i]);
      more := ws + [w];
      ProgressOne(ws, slots, before, old_, newFiles, i, j, w);
    }
  }

  method UpdateWatchers(oldFiles: Option<seq<Path>>, newFiles: seq<Path>, oldWatchers: array<Watcher?>)
    returns (r: Outcome)
    requires oldWatchers.Length == if oldFiles.Some? then |oldFiles.value| else 0
    requires null !in oldWatchers[..]
    modifies oldWatchers
    ensures var old_ := if oldFiles.Some? then oldFiles.value else [];
      if !InBounds(Written, old_, |newFiles|) then r == Undefined
      else
        var plan := PlanTo(Written, old_, newFiles, |newFiles|);
        && r.Updated?
        && Filled(r.watchers, newFiles, old(oldWatchers[..]), plan.source)
        && SlotsAre(oldWatchers[..], old(oldWatchers[..]), plan.left)
        && r.deleted == Kept(oldWatchers[..])
  {
    var old_ := if oldFiles.Some? then oldFiles.value else [];
    ghost var before := oldWatchers[..];
    var newWatchers: seq<Watcher> := [];
    var i := 0;
    while i < |newFiles|
      invariant Progress(newWatchers, oldWatchers[..], before, old_, newFiles, i)
    {
      if |old_| > 0 && i >= |old_| {
        return Undefined;
      }
      newWatchers := FillSlot(old_, newFiles, i, oldWatchers, newWatchers, before);
      i := i + 1;
    }
    var deleted := Leftover(oldWatchers);
    return Updated(newWatchers, deleted);
  }
}
