/** Whole allocations and releases: invariant, live blocks, exact undo, conservation. */
module BuddyOps {
  import opened BuddyPartition
  import opened BuddyState
  import opened Sequences
  import opened Status
  import opened Tree

  // ----- effect on the live blocks

  /** Splitting hands the place of a live block to its left half. */
  lemma SplitLive(g: Geometry, v: View, n: Node)
    requires Inv(g, v) && IsLive(v.tree, n) && n.level + 1 < g.levels
    ensures Left(n) !in LiveSet(v.tree)
    ensures LiveSet(SplitStep(v, n).tree) == LiveSet(v.tree) - {n} + {Left(n)}
  {
    NoChildren(g, v.tree, n);
  }

  lemma LeftHalf(g: Geometry, v: View, n: Node)
    requires Inv(g, v) && IsLive(v.tree, n) && n.level + 1 < g.levels
    ensures g.Has(n) && g.Offset(Left(n)) == g.Offset(n) && Above(n, Left(n))
  {
    assert NodeOk(g, v.tree, n);
    ChildOffsets(g, n);
    assert Parent(Left(n)) == n;
  }

  lemma {:induction false} DescendOk(g: Geometry, v: View, n: Node, target: nat)
    requires Inv(g, v) && IsLive(v.tree, n) && n.level <= target < g.levels
    ensures var (w, m) := Descend(v, n, target);
            && Inv(g, w)
            && Above(n, m) && g.Offset(m) == g.Offset(n)
            && m !in LiveSet(v.tree) - {n}
            && LiveSet(w.tree) == LiveSet(v.tree) - {n} + {m}
    decreases target - n.level
  {
    if n.level < target {
      SplitStepOk(g, v, n);
      SplitLive(g, v, n);
      LeftHalf(g, v, n);
      DescendOk(g, SplitStep(v, n), Left(n), target);
      AboveTrans(n, Left(n), Descend(SplitStep(v, n), Left(n), target).1);
    }
  }

  /** The head of the nearest non-empty list is free, and taking it makes it live. */
  lemma HeadTaken(g: Geometry, v: View, target: nat)
    requires Inv(g, v) && target < g.levels && SourceLevel(v.lists, target).Some?
    ensures var src := SourceLevel(v.lists, target).value;
            var n := Node(src, v.lists[src][0]);
            && IsFree(v.tree, n) && n !in LiveSet(v.tree)
            && Inv(g, Take(v, n)) && IsLive(Take(v, n).tree, n)
            && LiveSet(Take(v, n).tree) == LiveSet(v.tree) + {n}
            && LiveSet(Take(v, n).tree) - {n} == LiveSet(v.tree)
  {
    var src := SourceLevel(v.lists, target).value;
    var n := Node(src, v.lists[src][0]);
    assert Listed(v.lists, n);
    TakeOk(g, v, n);
  }

  /**
   * A successful allocation makes exactly one new block live, at the wanted level: the first
   * part of the head of the nearest non-empty list.
   */
  lemma AllocateOk(g: Geometry, v: View, target: nat)
    requires Inv(g, v) && target < g.levels
    ensures var r := Allocate(v, target);
            r.Some? ==>
              && Inv(g, r.value.0)
              && r.value.1.level == target
              && var src := SourceLevel(v.lists, target).value;
              var head := Node(src, v.lists[src][0]);
              && IsFree(v.tree, head) && Above(head, r.value.1) && g.Offset(r.value.1) == g.Offset(head)
              && r.value.1 !in LiveSet(v.tree)
              && LiveSet(r.value.0.tree) == LiveSet(v.tree) + {r.value.1}
  {
    var src := SourceLevel(v.lists, target);
    if src.Some? {
      var n := Node(src.value, v.lists[src.value][0]);
      HeadTaken(g, v, target);
      var t := Take(v, n);
      DescendOk(g, t, n, target);
      var (w, m) := Descend(t, n, target);
      assert Allocate(v, target) == Some((w, m));
    }
  }

  /** Releasing a block removes exactly it from the live blocks. */
  lemma {:induction false} ReleaseOk(g: Geometry, v: View, n: Node)
    requires Inv(g, v) && IsLive(v.tree, n)
    ensures n.level < |v.lists| && Inv(g, Release(v, n))
    ensures LiveSet(Release(v, n).tree) == LiveSet(v.tree) - {n}
    decreases n.level
  {
    assert NodeOk(g, v.tree, n);
    if n.level > 0 && Listed(v.lists, Sibling(n)) {
      MergeStepOk(g, v, n);
      assert LiveSet(MergeStep(v, n).tree) == LiveSet(v.tree) - {n} + {Parent(n)};
      ReleaseOk(g, MergeStep(v, n), Parent(n));
    } else {
      GiveOk(g, v, n);
    }
  }

  // ----- effect on the free lists, order included

  /** The ancestor of `n` at a level, `n` itself at its own. */
  ghost function AncestorAt(n: Node, level: nat): (a: Node)
    requires level <= n.level
    ensures a.level == level && Above(a, n)
    decreases n.level
  {
    if level == n.level then n else AncestorAt(Parent(n), level)
  }

  lemma {:induction false} AncestorAbove(n: Node, level: nat)
    requires level < n.level
    ensures AncestorAt(n, level) == Parent(AncestorAt(n, level + 1))
    decreases n.level
  {
    if level + 1 < n.level { AncestorAbove(Parent(n), level); }
  }

  /** `b` is `a` with one element `x` cut out in place. */
  ghost predicate CutOut(a: seq<nat>, b: seq<nat>, x: nat) {
    exists k: nat :: k < |a| && a[k] == x && b == a[..k] + a[k + 1..]
  }

  /**
   * The free lists after a release of `n` that merged it into its ancestor `q`. The list of
   * `q` has it as its new head. On every level below, down to that of `n`, the list lost the
   * buddy met there and kept its order. All other lists are as before.
   */
  ghost predicate ReleasedLists(before: seq<seq<nat>>, after: seq<seq<nat>>, n: Node, q: Node) {
    && q.level <= n.level < |before| == |after|
    && q == AncestorAt(n, q.level)
    && (q.level > 0 ==> Sibling(q).index !in before[q.level])
    && after[q.level] == [q.index] + before[q.level]
    && (forall l :: q.level < l <= n.level ==>
          CutOut(before[l], after[l], Sibling(AncestorAt(n, l)).index))
    && (forall l :: 0 <= l < |before| && (l < q.level || n.level < l) ==> after[l] == before[l])
  }

  lemma CutOutWithout(a: seq<nat>, x: nat)
    requires x in a
    ensures CutOut(a, Without(a, x), x)
  {
    var k := Find(a, x);
    assert k < |a| && a[k] == x && Without(a, x) == a[..k] + a[k + 1..];
  }

  /** What a release does to the lists, and that the block it ends with is free. */
  lemma {:induction false} ReleaseLists(g: Geometry, v: View, n: Node) returns (q: Node)
    requires Inv(g, v) && IsLive(v.tree, n)
    ensures n.level < |v.lists| && ReleasedLists(v.lists, Release(v, n).lists, n, q)
    ensures IsFree(Release(v, n).tree, q)
    decreases n.level
  {
    assert NodeOk(g, v.tree, n);
    if n.level > 0 && Listed(v.lists, Sibling(n)) {
      MergeStepOk(g, v, n);
      var p, v1 := Parent(n), MergeStep(v, n);
      q := ReleaseLists(g, v1, p);
      MergedLists(v.lists, v1.lists, Release(v1, p).lists, n, q);
    } else {
      q := n;
      assert Release(v, n) == Give(v, n);
    }
  }

  /** One merge below a release of the parent makes a release of the block. */
  lemma MergedLists(before: seq<seq<nat>>, between: seq<seq<nat>>, after: seq<seq<nat>>, n: Node, q: Node)
    requires 0 < n.level < |before| && Sibling(n).index in before[n.level]
    requires between == before[n.level := Without(before[n.level], Sibling(n).index)]
    requires ReleasedLists(between, after, Parent(n), q)
    ensures ReleasedLists(before, after, n, q)
  {
    CutOutWithout(before[n.level], Sibling(n).index);
    forall l | q.level < l <= n.level
      ensures CutOut(before[l], after[l], Sibling(AncestorAt(n, l)).index)
    {
      if l < n.level { assert AncestorAt(n, l) == AncestorAt(Parent(n), l); }
    }
  }

  /**
   * The free lists after an allocation of `m` from the level `src`: the nearest level with a
   * block. Its list lost the head, of which `m` is the first part; every level below, down to
   * that of `m`, was empty and has the right half split off there. All other lists are as before.
   */
  ghost predicate AllocatedLists(before: seq<seq<nat>>, after: seq<seq<nat>>, m: Node, src: nat) {
    && src <= m.level < |before| == |after|
    && before[src] != [] && after[src] == before[src][1..]
    && AncestorAt(m, src) == Node(src, before[src][0])
    && (forall l :: src < l <= m.level ==>
          && before[l] == [] && AncestorAt(m, l).index % 2 == 0
          && after[l] == [AncestorAt(m, l).index + 1])
    && (forall l :: 0 <= l < |before| && (l < src || m.level < l) ==> after[l] == before[l])
  }

  /** The lists after splitting down: each level gained the right half at its head. */
  lemma {:induction false} DescendLists(v: View, n: Node, target: nat)
    requires n.level <= target < |v.lists|
    ensures var (w, m) := Descend(v, n, target);
            && AncestorAt(m, n.level) == n
            && (forall l :: n.level < l <= target ==>
                  && AncestorAt(m, l).index % 2 == 0
                  && w.lists[l] == [AncestorAt(m, l).index + 1] + v.lists[l])
            && (forall l :: 0 <= l < |v.lists| && (l <= n.level || target < l) ==> w.lists[l] == v.lists[l])
    decreases target - n.level
  {
    if n.level < target {
      var v1, c := SplitStep(v, n), Left(n);
      DescendLists(v1, c, target);
      var (w, m) := Descend(v1, c, target);
      AncestorAbove(m, n.level);
      assert AncestorAt(m, c.level) == c && Parent(c) == n;
    }
  }

  /** What an allocation does to the lists. */
  lemma AllocateLists(g: Geometry, v: View, target: nat)
    requires Inv(g, v) && target < g.levels
    ensures var r := Allocate(v, target);
            r.Some? ==> exists src :: AllocatedLists(v.lists, r.value.0.lists, r.value.1, src)
  {
    var src := SourceLevel(v.lists, target);
    if src.Some? {
      var n := Node(src.value, v.lists[src.value][0]);
      var t := Take(v, n);
      assert v.lists[src.value] == [n.index] + v.lists[src.value][1..];
      WithoutHead(v.lists[src.value][1..], n.index);
      DescendLists(t, n, target);
      var (w, m) := Descend(t, n, target);
      assert AllocatedLists(v.lists, w.lists, m, src.value);
    }
  }

  // ----- exact undo

  /** Merging right after splitting restores the lists, order included, and the tree. */
  lemma MergeUndoesSplit(g: Geometry, v: View, n: Node)
    requires Inv(g, v) && IsLive(v.tree, n) && n.level + 1 < g.levels
    ensures var v1 := SplitStep(v, n);
            Listed(v1.lists, Sibling(Left(n))) && MergeStep(v1, Left(n)) == v
  {
    NoChildren(g, v.tree, n);
    var v1 := SplitStep(v, n);
    var l, r := Left(n), Right(n);
    assert Sibling(l) == r && Parent(l) == n;
    WithoutHead(v.lists[r.level], r.index);
    var w := MergeStep(v1, l);
    assert w.lists == v.lists;
    assert w.tree == v.tree;
  }

  lemma {:induction false} ReleaseUndoesDescend(g: Geometry, v: View, n: Node, target: nat)
    requires Inv(g, v) && IsLive(v.tree, n) && n.level <= target < g.levels
    ensures var (w, m) := Descend(v, n, target); Release(w, m) == Release(v, n)
    decreases target - n.level
  {
    if n.level < target {
      SplitStepOk(g, v, n);
      ReleaseUndoesDescend(g, SplitStep(v, n), Left(n), target);
      MergeUndoesSplit(g, v, n);
    }
  }

  /** Exact undo: freeing the block just allocated restores every free list with its order. */
  lemma ReleaseUndoesAllocate(g: Geometry, v: View, target: nat)
    requires Inv(g, v) && target < g.levels
    ensures var r := Allocate(v, target);
            r.Some? ==> Release(r.value.0, r.value.1) == v
  {
    var src := SourceLevel(v.lists, target);
    if src.Some? {
      var l := src.value;
      var n := Node(l, v.lists[l][0]);
      assert Listed(v.lists, n);
      assert NodeOk(g, v.tree, n);
      TakeOk(g, v, n);
      var t := Take(v, n);
      ReleaseUndoesDescend(g, t, n, target);
      assert v.lists[l] == [n.index] + v.lists[l][1..];
      WithoutHead(v.lists[l][1..], n.index);
      assert n.level > 0 ==> !Listed(t.lists, Sibling(n));
      assert Give(t, n).lists == v.lists;
      assert Give(t, n).tree == v.tree;
    }
  }

  // ----- weighted sums over the active blocks

  /** The sum over the first `k` levels of list length times the level's weight. */
  ghost function SumLists(weight: nat -> nat, lists: seq<seq<nat>>, k: nat): nat
    requires k <= |lists|
  {
    if k == 0 then 0 else SumLists(weight, lists, k - 1) + |lists[k - 1]| * weight(k - 1)
  }

  ghost function SumNodes(weight: nat -> nat, s: set<Node>): nat {
    if s == {} then 0
    else
      var n :| n in s;
      weight(n.level) + SumNodes(weight, s - {n})
  }

  lemma {:induction false} SumListsUpdate(weight: nat -> nat, lists: seq<seq<nat>>, k: nat, l: nat, s: seq<nat>)
    requires k <= |lists| && l < |lists|
    ensures SumLists(weight, lists[l := s], k)
         == SumLists(weight, lists, k) + if l < k then (|s| - |lists[l]|) * weight(l) else 0
  {
    if k > 0 {
      SumListsUpdate(weight, lists, k - 1, l, s);
      if l == k - 1 {
        assert |s| * weight(l) == (|s| - |lists[l]|) * weight(l) + |lists[l]| * weight(l);
      }
    }
  }

  lemma {:induction false} SumNodesAdd(weight: nat -> nat, s: set<Node>, n: Node)
    requires n !in s
    ensures SumNodes(weight, s + {n}) == SumNodes(weight, s) + weight(n.level)
  {
    var u := s + {n};
    var m :| m in u && SumNodes(weight, u) == weight(m.level) + SumNodes(weight, u - {m});
    if m == n {
      assert u - {m} == s;
    } else {
      assert u - {m} == (s - {m}) + {n};
      SumNodesAdd(weight, s - {m}, n);
      assert (s - {m}) + {m} == s;
      SumNodesAdd(weight, s - {m}, m);
    }
  }

  /** Free blocks counted from the lists plus live blocks, each with its level's weight. */
  ghost function Weigh(weight: nat -> nat, v: View): nat {
    SumLists(weight, v.lists, |v.lists|) + SumNodes(weight, LiveSet(v.tree))
  }

  /** One element more or less in a list changes the sum by that level's weight. */
  lemma SumListsStep(weight: nat -> nat, lists: seq<seq<nat>>, l: nat, s: seq<nat>)
    requires l < |lists|
    ensures |s| == |lists[l]| + 1 ==>
              SumLists(weight, lists[l := s], |lists|) == SumLists(weight, lists, |lists|) + weight(l)
    ensures |s| == |lists[l]| - 1 ==>
              SumLists(weight, lists[l := s], |lists|) == SumLists(weight, lists, |lists|) - weight(l)
  {
    SumListsUpdate(weight, lists, |lists|, l, s);
  }

  lemma WeighListed(weight: nat -> nat, lists: seq<seq<nat>>, n: Node)
    requires n.level < |lists|
    ensures SumLists(weight, lists[n.level := [n.index] + lists[n.level]], |lists|)
            == SumLists(weight, lists, |lists|) + weight(n.level)
    ensures n.index in lists[n.level] ==>
              SumLists(weight, lists[n.level := Without(lists[n.level], n.index)], |lists|)
              == SumLists(weight, lists, |lists|) - weight(n.level)
  {
    SumListsStep(weight, lists, n.level, [n.index] + lists[n.level]);
    SumListsStep(weight, lists, n.level, Without(lists[n.level], n.index));
  }

  lemma WeighTake(weight: nat -> nat, g: Geometry, v: View, n: Node)
    requires Inv(g, v) && IsFree(v.tree, n)
    ensures n.level < |v.lists| && Weigh(weight, Take(v, n)) == Weigh(weight, v)
  {
    assert Listed(v.lists, n);
    WeighListed(weight, v.lists, n);
    SumNodesAdd(weight, LiveSet(v.tree), n);
    assert LiveSet(Take(v, n).tree) == LiveSet(v.tree) + {n};
  }

  lemma WeighGive(weight: nat -> nat, g: Geometry, v: View, n: Node)
    requires Inv(g, v) && IsLive(v.tree, n)
    ensures n.level < |v.lists| && Weigh(weight, Give(v, n)) == Weigh(weight, v)
  {
    assert NodeOk(g, v.tree, n);
    WeighListed(weight, v.lists, n);
    var s := LiveSet(v.tree) - {n};
    SumNodesAdd(weight, s, n);
    assert LiveSet(v.tree) == s + {n};
    assert LiveSet(Give(v, n).tree) == s;
  }

  lemma WeighSplitStep(weight: nat -> nat, g: Geometry, v: View, n: Node)
    requires Inv(g, v) && IsLive(v.tree, n) && n.level + 1 < g.levels
    ensures Weigh(weight, SplitStep(v, n)) == Weigh(weight, v) + 2 * weight(n.level + 1) - weight(n.level)
  {
    NoChildren(g, v.tree, n);
    WeighListed(weight, v.lists, Right(n));
    var s := LiveSet(v.tree) - {n};
    SumNodesAdd(weight, s, n);
    SumNodesAdd(weight, s, Left(n));
    assert LiveSet(v.tree) == s + {n};
    assert LiveSet(SplitStep(v, n).tree) == s + {Left(n)};
  }

  lemma WeighMergeStep(weight: nat -> nat, g: Geometry, v: View, n: Node)
    requires Inv(g, v) && IsLive(v.tree, n) && n.level > 0 && Listed(v.lists, Sibling(n))
    ensures Weigh(weight, MergeStep(v, n)) == Weigh(weight, v) + weight(n.level - 1) - 2 * weight(n.level)
  {
    MergeStepOk(g, v, n);
    WeighListed(weight, v.lists, Sibling(n));
    var s := LiveSet(v.tree) - {n};
    SumNodesAdd(weight, s, n);
    SumNodesAdd(weight, s, Parent(n));
    assert LiveSet(v.tree) == s + {n};
    assert LiveSet(MergeStep(v, n).tree) == s + {Parent(n)};
  }

  // ----- conservation of bytes

  ghost function Bytes(g: Geometry): nat -> nat {
    (l: nat) => if l < g.levels then g.Size(l) else 0
  }

  /** The sum over levels of free count times block size. */
  ghost function FreeBytes(g: Geometry, v: View): nat {
    SumLists(Bytes(g), v.lists, |v.lists|)
  }

  ghost function LiveBytes(g: Geometry, v: View): nat {
    SumNodes(Bytes(g), LiveSet(v.tree))
  }

  lemma MergeKeepsBytes(g: Geometry, v: View, n: Node)
    requires Inv(g, v) && IsLive(v.tree, n) && n.level > 0 && Listed(v.lists, Sibling(n))
    ensures Weigh(Bytes(g), MergeStep(v, n)) == Weigh(Bytes(g), v)
  {
    WeighMergeStep(Bytes(g), g, v, n);
    SizeHalves(g, n.level - 1);
  }

  lemma {:induction false} ReleaseKeepsBytes(g: Geometry, v: View, n: Node)
    requires Inv(g, v) && IsLive(v.tree, n)
    ensures n.level < |v.lists| && Weigh(Bytes(g), Release(v, n)) == Weigh(Bytes(g), v)
    decreases n.level
  {
    assert NodeOk(g, v.tree, n);
    if n.level > 0 && Listed(v.lists, Sibling(n)) {
      MergeStepOk(g, v, n);
      MergeKeepsBytes(g, v, n);
      ReleaseKeepsBytes(g, MergeStep(v, n), Parent(n));
    } else {
      WeighGive(Bytes(g), g, v, n);
    }
  }

  lemma {:induction false} SumOneList(weight: nat -> nat, g: Geometry, k: nat)
    requires 0 < k <= g.levels
    ensures SumLists(weight, Init(g).lists, k) == weight(0)
  {
    if k > 1 {
      SumOneList(weight, g, k - 1);
    } else {
      assert SumLists(weight, Init(g).lists, 0) == 0;
    }
  }

  /** Conservation: in every state the free bytes and the live bytes add up to the pool. */
  lemma {:induction false} Conservation(g: Geometry, v: View)
    requires Inv(g, v)
    ensures FreeBytes(g, v) + LiveBytes(g, v) == g.Pool()
    decreases LiveSet(v.tree)
  {
    if LiveSet(v.tree) == {} {
      DrainedIsInitial(g, v);
      SumOneList(Bytes(g), g, g.levels);
    } else {
      var n :| n in LiveSet(v.tree);
      assert NodeOk(g, v.tree, n);
      ReleaseOk(g, v, n);
      ReleaseKeepsBytes(g, v, n);
      assert LiveSet(Release(v, n).tree) < LiveSet(v.tree);
      Conservation(g, Release(v, n));
    }
  }

  /** An allocation lowers the free bytes by exactly its block, a release raises them by it. */
  lemma FreeBytesChange(g: Geometry, v: View, target: nat, n: Node)
    requires Inv(g, v) && target < g.levels
    ensures var r := Allocate(v, target);
            r.Some? ==> FreeBytes(g, r.value.0) == FreeBytes(g, v) - g.Size(target)
    ensures IsLive(v.tree, n) ==>
            n.level < g.levels && FreeBytes(g, Release(v, n)) == FreeBytes(g, v) + g.Size(n.level)
  {
    Conservation(g, v);
    AllocateOk(g, v, target);
    var r := Allocate(v, target);
    if r.Some? {
      Conservation(g, r.value.0);
      SumNodesAdd(Bytes(g), LiveSet(v.tree), r.value.1);
    }
    if IsLive(v.tree, n) {
      assert NodeOk(g, v.tree, n);
      ReleaseOk(g, v, n);
      Conservation(g, Release(v, n));
      SumNodesAdd(Bytes(g), LiveSet(v.tree) - {n}, n);
      assert LiveSet(v.tree) - {n} + {n} == LiveSet(v.tree);
    }
  }

  // ----- work accounting

  ghost function Ones(): nat -> nat { (l: nat) => 1 }

  /** The number of active blocks: list lengths plus live blocks. */
  ghost function ActiveCount(v: View): nat {
    Weigh(Ones(), v)
  }

  lemma {:induction false} DescendCount(g: Geometry, v: View, n: Node, target: nat)
    requires Inv(g, v) && IsLive(v.tree, n) && n.level <= target < g.levels
    ensures ActiveCount(Descend(v, n, target).0) == ActiveCount(v) + (target - n.level)
    decreases target - n.level
  {
    if n.level < target {
      SplitStepOk(g, v, n);
      WeighSplitStep(Ones(), g, v, n);
      DescendCount(g, SplitStep(v, n), Left(n), target);
    }
  }

  /** Splits made by an allocation: one per level between the source and the target. */
  ghost function Splits(v: View, target: nat): (k: nat)
    requires target < |v.lists|
    ensures k <= target
  {
    match SourceLevel(v.lists, target)
    case None => 0
    case Some(src) => target - src
  }

  /** Merges made by a release: the levels the block climbs. */
  ghost function Merges(v: View, n: Node): (k: nat)
    requires n.level < |v.lists|
    ensures k <= n.level
  {
    n.level - MergedInto(v, n).level
  }

  lemma AllocateCount(g: Geometry, v: View, target: nat)
    requires Inv(g, v) && target < g.levels
    ensures var r := Allocate(v, target);
            r.Some? ==> ActiveCount(r.value.0) == ActiveCount(v) + Splits(v, target)
  {
    var src := SourceLevel(v.lists, target);
    if src.Some? {
      var n := Node(src.value, v.lists[src.value][0]);
      assert Listed(v.lists, n);
      TakeOk(g, v, n);
      WeighTake(Ones(), g, v, n);
      DescendCount(g, Take(v, n), n, target);
    }
  }

  lemma {:induction false} ReleaseCount(g: Geometry, v: View, n: Node)
    requires Inv(g, v) && IsLive(v.tree, n)
    ensures n.level < |v.lists| && ActiveCount(Release(v, n)) == ActiveCount(v) - Merges(v, n)
    decreases n.level
  {
    assert NodeOk(g, v.tree, n);
    if n.level > 0 && Listed(v.lists, Sibling(n)) {
      MergeStepOk(g, v, n);
      WeighMergeStep(Ones(), g, v, n);
      ReleaseCount(g, MergeStep(v, n), Parent(n));
    } else {
      WeighGive(Ones(), g, v, n);
    }
  }
}
