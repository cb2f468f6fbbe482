/** Runs: any sequence of requests and of releases of live blocks, from a fresh allocator. */
module BuddyRuns {
  import opened BuddyOps
  import opened BuddyPartition
  import opened BuddyState
  import opened Sizes
  import opened Status
  import opened Tree

  datatype Op = Request(size: nat) | GiveBack(node: Node)

  /** The level a request belongs to, searched from the smallest blocks up. */
  ghost function LevelFor(g: Geometry, size: nat): (r: Option<nat>)
    ensures r.Some? ==> Fits(g, size, r.value)
    ensures r.None? ==> forall l :: !Fits(g, size, l)
  {
    if exists l: nat :: Fits(g, size, l) then
      var l: nat :| Fits(g, size, l);
      Some(l)
    else None
  }

  /** The block a request is given, if any. */
  ghost function Granted(g: Geometry, v: View, size: nat): (r: Option<Node>)
    requires Inv(g, v)
  {
    var l := LevelFor(g, size);
    if l.None? then None
    else match Allocate(v, l.value)
         case None => None
         case Some((w, m)) => Some(m)
  }

  ghost predicate Legal(v: View, op: Op) {
    op.GiveBack? ==> IsLive(v.tree, op.node)
  }

  ghost function Step(g: Geometry, v: View, op: Op): (w: View)
    requires Inv(g, v) && Legal(v, op)
    ensures Inv(g, w)
  {
    match op
    case Request(size) =>
      var l := LevelFor(g, size);
      if l.None? then v
      else
        AllocateOk(g, v, l.value);
        var r := Allocate(v, l.value);
        if r.None? then v else r.value.0
    case GiveBack(n) =>
      ReleaseOk(g, v, n);
      Release(v, n)
  }

  /** Every release in the run is of a block that is live at that moment. */
  ghost predicate LegalRun(g: Geometry, v: View, ops: seq<Op>)
    requires Inv(g, v)
    decreases |ops|
  {
    ops == [] || (Legal(v, ops[0]) && LegalRun(g, Step(g, v, ops[0]), ops[1..]))
  }

  ghost function Run(g: Geometry, v: View, ops: seq<Op>): (w: View)
    requires Inv(g, v) && LegalRun(g, v, ops)
    ensures Inv(g, w)
    decreases |ops|
  {
    if ops == [] then v else Run(g, Step(g, v, ops[0]), ops[1..])
  }

  /** The state of a fresh allocator, where runs start. */
  ghost function Fresh(g: Geometry): (v: View)
    requires g.Valid()
    ensures Inv(g, v) && LiveSet(v.tree) == {}
  {
    InitOk(g);
    Init(g)
  }

  /** What one step does to the live blocks. */
  lemma StepLive(g: Geometry, v: View, op: Op)
    requires Inv(g, v) && Legal(v, op)
    ensures op.GiveBack? ==> LiveSet(Step(g, v, op).tree) == LiveSet(v.tree) - {op.node}
    ensures op.Request? && Granted(g, v, op.size).None? ==> Step(g, v, op) == v
    ensures op.Request? && Granted(g, v, op.size).Some? ==>
              var m := Granted(g, v, op.size).value;
              && m !in LiveSet(v.tree)
              && Fits(g, op.size, m.level)
              && LiveSet(Step(g, v, op).tree) == LiveSet(v.tree) + {m}
  {
    match op
    case Request(size) =>
      var l := LevelFor(g, size);
      if l.Some? { AllocateOk(g, v, l.value); }
    case GiveBack(n) =>
      ReleaseOk(g, v, n);
  }

  /** A step leaves every live block live, other than the one it gives back. */
  lemma StaysLive(g: Geometry, v: View, op: Op)
    requires Inv(g, v) && Legal(v, op)
    ensures forall n: Node :: IsLive(v.tree, n) && op != GiveBack(n) ==> IsLive(Step(g, v, op).tree, n)
  {
    StepLive(g, v, op);
    forall n: Node | IsLive(v.tree, n) && op != GiveBack(n) ensures IsLive(Step(g, v, op).tree, n) {
      assert n in LiveSet(v.tree);
      assert n in LiveSet(Step(g, v, op).tree);
    }
  }

  /** A request of a level that fits is an allocation at that level; one without a level is refused. */
  lemma RequestAt(g: Geometry, v: View, size: nat, level: nat)
    requires Inv(g, v)
    ensures Fits(g, size, level) ==>
              && Step(g, v, Request(size))
                 == (match Allocate(v, level) case None => v case Some((w, m)) => w)
              && Granted(g, v, size)
                 == (match Allocate(v, level) case None => None case Some((w, m)) => Some(m))
    ensures (forall l :: !Fits(g, size, l)) ==>
              Step(g, v, Request(size)) == v && Granted(g, v, size) == None
  {
    if Fits(g, size, level) { FitsUnique(g, size, level, LevelFor(g, size).value); }
  }

  /** A request is refused exactly when its size has no level or no region of that level is clear. */
  lemma RefusalIsComplete(g: Geometry, v: View, size: nat)
    requires Inv(g, v)
    ensures Granted(g, v, size).None? <==>
            forall n: Node | g.Has(n) && Fits(g, size, n.level) :: Meets(g, LiveSet(v.tree), n)
  {
    var l := LevelFor(g, size);
    if l.Some? {
      FailureIsComplete(g, v, l.value);
      LeftmostBelow(g, ROOT, l.value);
      var d := Leftmost(ROOT, l.value);
      forall n: Node | g.Has(n) && Fits(g, size, n.level) ensures n.level == l.value {
        FitsUnique(g, size, n.level, l.value);
      }
      if Granted(g, v, size).None? {
        assert SourceLevel(v.lists, l.value).None?;
      }
    }
  }

  /**
   * A live block stays live, at its place, through every run that does not release it, and
   * no block granted meanwhile shares a byte with it.
   */
  lemma {:induction false} LiveIsStable(g: Geometry, v: View, ops: seq<Op>, n: Node, size: nat)
    requires Inv(g, v) && LegalRun(g, v, ops)
    requires IsLive(v.tree, n) && GiveBack(n) !in ops
    ensures var w := Run(g, v, ops);
            && IsLive(w.tree, n)
            && (Granted(g, w, size).Some? ==>
                  var m := Granted(g, w, size).value;
                  g.Has(m) && g.Has(n) && !g.Overlap(m, n))
    decreases |ops|
  {
    if ops == [] {
      StepLive(g, v, Request(size));
      if Granted(g, v, size).Some? {
        var m := Granted(g, v, size).value;
        var w := Step(g, v, Request(size));
        assert m in LiveSet(w.tree) && n in LiveSet(v.tree);
        assert n in LiveSet(w.tree);
        ActiveDisjoint(g, w.tree, m, n);
      }
    } else {
      StepLive(g, v, ops[0]);
      assert n in LiveSet(v.tree);
      assert n in LiveSet(Step(g, v, ops[0]).tree);
      LiveIsStable(g, Step(g, v, ops[0]), ops[1..], n, size);
    }
  }

  /**
   * Confluence: two runs that end with the same live blocks end with the same subdivision
   * and the same free lists up to order. In particular the order of releases is irrelevant.
   */
  lemma SameLiveSameState(g: Geometry, ops: seq<Op>, ops': seq<Op>, level: nat)
    requires g.Valid() && level < g.levels
    requires LegalRun(g, Fresh(g), ops) && LegalRun(g, Fresh(g), ops')
    requires LiveSet(Run(g, Fresh(g), ops).tree) == LiveSet(Run(g, Fresh(g), ops').tree)
    ensures var v, w := Run(g, Fresh(g), ops), Run(g, Fresh(g), ops');
            && v.tree == w.tree
            && multiset(v.lists[level]) == multiset(w.lists[level])
            && (LiveSet(v.tree) == {} ==> v == Fresh(g) == w)
  {
    var v, w := Run(g, Fresh(g), ops), Run(g, Fresh(g), ops');
    LiveDeterminesTree(g, v.tree, w.tree);
    LiveDeterminesLists(g, v, w, level);
    if LiveSet(v.tree) == {} {
      DrainedIsInitial(g, v);
      DrainedIsInitial(g, w);
    }
  }

  /** Releasing a set of live blocks in the order of `nodes`. */
  function Releases(nodes: seq<Node>): seq<Op> {
    if nodes == [] then [] else [GiveBack(nodes[0])] + Releases(nodes[1..])
  }

  /** Any order of releasing distinct live blocks is legal and takes exactly these away. */
  lemma {:induction false} ReleasesRun(g: Geometry, v: View, nodes: seq<Node>)
    requires Inv(g, v)
    requires forall i :: 0 <= i < |nodes| ==> IsLive(v.tree, nodes[i])
    requires forall i, j :: 0 <= i < j < |nodes| ==> nodes[i] != nodes[j]
    ensures LegalRun(g, v, Releases(nodes))
    ensures LiveSet(Run(g, v, Releases(nodes)).tree) == LiveSet(v.tree) - (set x | x in nodes)
    decreases |nodes|
  {
    if nodes != [] {
      var rest := nodes[1..];
      var w := Step(g, v, GiveBack(nodes[0]));
      StepLive(g, v, GiveBack(nodes[0]));
      forall i | 0 <= i < |rest| ensures IsLive(w.tree, rest[i]) {
        assert rest[i] == nodes[i + 1];
        assert rest[i] in LiveSet(v.tree) - {nodes[0]};
      }
      ReleasesRun(g, w, rest);
      assert Releases(nodes)[1..] == Releases(rest);
      HeadAndRest(nodes);
    }
  }

  lemma HeadAndRest(nodes: seq<Node>)
    requires nodes != []
    ensures (set x | x in nodes) == {nodes[0]} + (set x | x in nodes[1..])
  {
    assert nodes == [nodes[0]] + nodes[1..];
  }

  // ----- work over a run

  ghost function RunSplits(g: Geometry, v: View, ops: seq<Op>): nat
    requires Inv(g, v) && LegalRun(g, v, ops)
    decreases |ops|
  {
    if ops == [] then 0
    else
      (match ops[0]
       case Request(size) =>
         var l := LevelFor(g, size);
         if l.None? then 0 else Splits(v, l.value)
       case GiveBack(n) => 0)
      + RunSplits(g, Step(g, v, ops[0]), ops[1..])
  }

  ghost function RunMerges(g: Geometry, v: View, ops: seq<Op>): nat
    requires Inv(g, v) && LegalRun(g, v, ops)
    decreases |ops|
  {
    if ops == [] then 0
    else
      (match ops[0]
       case Request(size) => 0
       case GiveBack(n) => assert NodeOk(g, v.tree, n); Merges(v, n))
      + RunMerges(g, Step(g, v, ops[0]), ops[1..])
  }

  lemma {:induction false} RunCount(g: Geometry, v: View, ops: seq<Op>)
    requires Inv(g, v) && LegalRun(g, v, ops)
    ensures ActiveCount(Run(g, v, ops)) == ActiveCount(v) + RunSplits(g, v, ops) - RunMerges(g, v, ops)
    decreases |ops|
  {
    if ops != [] {
      match ops[0] {
        case Request(size) =>
          var l := LevelFor(g, size);
          if l.Some? { AllocateCount(g, v, l.value); }
        case GiveBack(n) =>
          ReleaseCount(g, v, n);
      }
      RunCount(g, Step(g, v, ops[0]), ops[1..]);
    }
  }

  lemma InitCount(g: Geometry)
    requires g.Valid()
    ensures ActiveCount(Fresh(g)) == 1
  {
    SumOneList(Ones(), g, g.levels);
  }

  /**
   * Work accounting: over every run the active blocks number one plus splits minus merges,
   * merges never exceed splits, and as many splits as merges leave a single block.
   */
  lemma WorkAccounting(g: Geometry, ops: seq<Op>)
    requires g.Valid() && LegalRun(g, Fresh(g), ops)
    ensures var v, s, m := Run(g, Fresh(g), ops), RunSplits(g, Fresh(g), ops), RunMerges(g, Fresh(g), ops);
            ActiveCount(v) == 1 + s - m && m <= s
  {
    var v := Run(g, Fresh(g), ops);
    InitCount(g);
    RunCount(g, Fresh(g), ops);
    SizeHalves(g, 0);
    var a := Holder(g, v.tree, 0);
    ActiveIsCounted(g, v, a);
  }

  lemma ActiveIsCounted(g: Geometry, v: View, a: Node)
    requires Inv(g, v) && Active(v.tree, a)
    ensures ActiveCount(v) >= 1
  {
    assert v.tree[a] != Live ==> Listed(v.lists, a);
    var w := if v.tree[a] == Live then v else Take(v, a);
    if v.tree[a] != Live { WeighTake(Ones(), g, v, a); }
    SumNodesAdd(Ones(), LiveSet(w.tree) - {a}, a);
    assert LiveSet(w.tree) - {a} + {a} == LiveSet(w.tree);
  }
}
