/** gc.c:346-366 at a heap of five objects: scanspace stops with a copy it never came to. */
module Witness {
  import opened CStrings
  import opened Heaps
  import opened Copying
  import opened Collector
  import opened Gc

  function Small(fields: seq<Pointer>): Object {
    Object(Other(0), 8, [], fields)
  }

  /** With its tag it fills what 16 bytes leave of a segment of 10000. */
  function Big(): Object {
    Object(Other(1), 9976, [], [])
  }

  /** The first object points to the fourth and the fourth to the fifth; the second is big. */
  function FiveMemory(): Memory {
    map[Addr(0, 0) := Cell(None, Small([To(Addr(1, 1))])),
        Addr(0, 1) := Cell(None, Big()),
        Addr(1, 0) := Cell(None, Small([])),
        Addr(1, 1) := Cell(None, Small([To(Addr(1, 2))])),
        Addr(1, 2) := Cell(None, Small([]))]
  }

  /** They were allocated in this order from two segments of the smallest size. */
  function FiveObjects(): Store {
    Store(FiveMemory(), 0, [Segment(10000, 10000, 2), Segment(10000, 48, 3)], 0, MIN_MINSPACE)
  }

  const THREE_ROOTS := [To(Addr(0, 0)), To(Addr(0, 1)), To(Addr(1, 0))]

  // ----- it is a heap that a collection can start from -----

  lemma FiveUsed()
    ensures TotalUsed([Segment(10000, 10000, 2), Segment(10000, 48, 3)]) == 10048
  {
    UsedAt([], Segment(10000, 10000, 2));
    UsedAt([Segment(10000, 10000, 2)], Segment(10000, 48, 3));
    assert [] + [Segment(10000, 10000, 2)] == [Segment(10000, 10000, 2)];
    assert [Segment(10000, 10000, 2)] + [Segment(10000, 48, 3)] == [Segment(10000, 10000, 2), Segment(10000, 48, 3)];
  }

  lemma FiveCosts()
    ensures SumCost(Costs(FiveMemory())) == 10048
  {
    hide SumCost;
    var c := Costs(FiveMemory());
    assert c == map[Addr(0, 0) := 16, Addr(0, 1) := 9984, Addr(1, 0) := 16, Addr(1, 1) := 16, Addr(1, 2) := 16];
    var c1 := c - {Addr(0, 0)};
    var c2 := c1 - {Addr(0, 1)};
    var c3 := c2 - {Addr(1, 0)};
    var c4 := c3 - {Addr(1, 1)};
    SumRemove(c, Addr(0, 0));
    SumRemove(c1, Addr(0, 1));
    SumRemove(c2, Addr(1, 0));
    SumRemove(c3, Addr(1, 1));
    SumRemove(c4, Addr(1, 2));
    assert c4 - {Addr(1, 2)} == map[];
    SumNothing();
  }

  lemma SumNothing()
    ensures SumCost(map[]) == 0
  {}

  lemma FiveAddresses()
    ensures forall a :: a in FiveMemory() <==> InNew(FiveObjects(), a)
    ensures forall a :: a in FiveMemory() ==> FiveMemory()[a].forward.None?
  {
    var s := FiveObjects();
    forall a ensures a in FiveMemory() <==> InNew(s, a) {
      if InNew(s, a) {
        assert a.seg == 0 || a.seg == 1;
      }
    }
  }

  lemma FivePointers()
    ensures forall a, p :: a in FiveMemory() && p in FiveMemory()[a].obj.fields ==> PointerOk(FiveMemory(), 0, 2, p)
    ensures forall p :: p in THREE_ROOTS ==> PointerOk(FiveMemory(), 0, 2, p)
  {
    forall a, p | a in FiveMemory() && p in FiveMemory()[a].obj.fields ensures p == To(Addr(1, 1)) || p == To(Addr(1, 2)) {
    }
  }

  lemma FiveHeap()
    ensures HeapOk(FiveObjects()) && RootsOk(FiveObjects(), THREE_ROOTS)
  {
    hide SumCost, TotalUsed, FiveMemory, InNew, PointerOk;
    FiveUsed();
    FiveCosts();
    FiveAddresses();
    FivePointers();
  }

  /** No request of the collection makes gcalloc retry forever. */
  lemma FiveCalm()
    ensures Calm(GraphOf(FiveObjects(), THREE_ROOTS, false))
  {
    hide TotalUsed, Need;
    var g := GraphOf(FiveObjects(), THREE_ROOTS, false);
    forall a | Live(g, a) ensures Tame(g, g.mem[a].obj.nbytes) {
      assert a in FiveMemory();
    }
  }

  // ----- the collection, step by step -----

  /** The memory after the object at a was copied to n. */
  function CopiedTo(m: Memory, a: Addr, n: Addr, o: Object): Memory {
    m[n := Cell(None, o)][a := Cell(Some(n), o)]
  }

  function OneForwarded(): Store {
    Store(CopiedTo(FiveMemory(), Addr(0, 0), Addr(2, 0), Small([To(Addr(1, 1))])), 2, [Segment(10000, 16, 1)], 0, 10000)
  }

  /** The first two roots fill the first segment of new space. */
  function TwoForwarded(): Store {
    Store(CopiedTo(OneForwarded().mem, Addr(0, 1), Addr(2, 1), Big()), 2, [Segment(10000, 10000, 2)], 0, 10000)
  }

  /** The third root needed a second one. */
  function RootsCopied(): Store {
    Store(CopiedTo(TwoForwarded().mem, Addr(1, 0), Addr(3, 0), Small([])), 2,
          [Segment(10000, 10000, 2), Segment(10000, 16, 1)], 0, 10000)
  }

  /** New space when scanspace stops: the copy of the fourth object was appended to the
      segment that had been scanned first, and still points to old space. */
  function OneMissed(): Store {
    Store(CopiedTo(RootsCopied().mem, Addr(1, 1), Addr(3, 1), Small([To(Addr(1, 2))]))
            [Addr(2, 0) := Cell(None, Small([To(Addr(3, 1))]))],
          2, [Segment(10000, 10000, 2), Segment(10000, 32, 2)], 0, 10000)
  }

  lemma FirstForwarded()
    ensures Forward(Flipped(FiveObjects()), THREE_ROOTS[0]) == Some((OneForwarded(), To(Addr(2, 0))))
  {
    var (s1, q1) := Forward(Flipped(FiveObjects()), THREE_ROOTS[0]).value;
    assert q1 == To(Addr(2, 0)) && s1.chain == [Segment(10000, 16, 1)];
  }

  lemma SecondForwarded()
    ensures Forward(OneForwarded(), THREE_ROOTS[1]) == Some((TwoForwarded(), To(Addr(2, 1))))
  {
    var s1 := OneForwarded();
    assert s1.mem[Addr(0, 1)] == Cell(None, Big());
    var (s2, q2) := Forward(s1, THREE_ROOTS[1]).value;
    assert q2 == To(Addr(2, 1)) && s2.chain == [Segment(10000, 10000, 2)];
  }

  lemma ThirdForwarded()
    ensures Forward(TwoForwarded(), THREE_ROOTS[2]) == Some((RootsCopied(), To(Addr(3, 0))))
  {
    var s2 := TwoForwarded();
    assert s2.mem[Addr(1, 0)] == Cell(None, Small([]));
    var (s3, q3) := Forward(s2, THREE_ROOTS[2]).value;
    assert q3 == To(Addr(3, 0)) && s3.chain == [Segment(10000, 10000, 2), Segment(10000, 16, 1)];
  }

  /** Forwarding the roots of the five objects does lead there. */
  lemma RootsForwarded()
    ensures ForwardAll(Flipped(FiveObjects()), THREE_ROOTS)
        == Some((RootsCopied(), [To(Addr(2, 0)), To(Addr(2, 1)), To(Addr(3, 0))]))
  {
    hide Forward, FiveObjects, OneForwarded, TwoForwarded, RootsCopied;
    var s, r := Flipped(FiveObjects()), THREE_ROOTS;
    var q0, q1, q2 := To(Addr(2, 0)), To(Addr(2, 1)), To(Addr(3, 0));
    FirstForwarded();
    SecondForwarded();
    ThirdForwarded();
    ForwardLast(s, [], r[0], s, []);
    assert [] + [r[0]] == [r[0]] && [] + [q0] == [q0];
    ForwardLast(s, [r[0]], r[1], OneForwarded(), [q0]);
    assert [r[0]] + [r[1]] == [r[0], r[1]] && [q0] + [q1] == [q0, q1];
    ForwardLast(s, [r[0], r[1]], r[2], TwoForwarded(), [q0, q1]);
    assert [r[0], r[1]] + [r[2]] == r && [q0, q1] + [q2] == [q0, q1, q2];
  }

  /** The third root has no fields. */
  lemma ThirdScanned()
    ensures ScanObject(RootsCopied(), Addr(3, 0), false) == Some(RootsCopied())
  {
    var w := RootsCopied();
    assert w.mem[Addr(3, 0)] == Cell(None, Small([]));
    assert w.mem[Addr(3, 0) := Cell(None, Small([]))] == w.mem;
  }

  lemma FourthForwarded()
    ensures var r := Forward(RootsCopied(), To(Addr(1, 1)));
      r.Some? && r.value.1 == To(Addr(3, 1)) && r.value.0 ==
        OneMissed().(mem := CopiedTo(RootsCopied().mem, Addr(1, 1), Addr(3, 1), Small([To(Addr(1, 2))])))
  {
    var w := RootsCopied();
    assert w.mem[Addr(1, 1)] == Cell(None, Small([To(Addr(1, 2))]));
    var (w1, q) := Forward(w, To(Addr(1, 1))).value;
    assert q == To(Addr(3, 1)) && w1.chain == OneMissed().chain;
  }

  /** Scanning the first root copies the fourth object. */
  lemma FirstScanned()
    ensures ScanObject(RootsCopied(), Addr(2, 0), false) == Some(OneMissed())
  {
    hide Forward;
    var w := RootsCopied();
    FourthForwarded();
    var w1 := Forward(w, To(Addr(1, 1))).value.0;
    ForwardLast(w, [], To(Addr(1, 1)), w, []);
    assert w.mem[Addr(2, 0)] == Cell(None, Small([To(Addr(1, 1))]));
    assert [] + [To(Addr(1, 1))] == Kept(w.mem[Addr(2, 0)].obj, false) && [] + [To(Addr(3, 1))] == [To(Addr(3, 1))];
    assert w1.mem[Addr(2, 0)] == Cell(None, Small([To(Addr(1, 1))]));
  }

  lemma SecondScanned()
    ensures ScanObject(OneMissed(), Addr(2, 1), false) == Some(OneMissed())
  {
    var m := OneMissed();
    assert m.mem[Addr(2, 1)] == Cell(None, Big());
    assert m.mem[Addr(2, 1) := Cell(None, Big())] == m.mem;
  }

  lemma FourthIsLate()
    ensures Appended(RootsCopied(), OneMissed(), 1) == {Addr(3, 1)} && Appended(OneMissed(), OneMissed(), 1) == {}
  {
    forall n ensures n in Appended(RootsCopied(), OneMissed(), 1) <==> n == Addr(3, 1) {
      AppendedExactly(RootsCopied(), OneMissed(), 1, n);
    }
    forall n ensures n !in Appended(OneMissed(), OneMissed(), 1) {
      AppendedExactly(OneMissed(), OneMissed(), 1, n);
    }
  }

  /** The end of the scan: the copy of the fourth object came too late. */
  function Missed(): Scan {
    Scan(OneMissed(), 0, 1, 0, 2, {Addr(3, 1)}, true)
  }

  /** The scan of the five objects takes five steps. */
  lemma PassOverTwoSegmentsMisses()
    ensures ScanEnds(FiveObjects(), THREE_ROOTS, false, Missed())
  {
    hide ScanObject, ForwardAll, Appended, FiveObjects;
    var w, m, late := RootsCopied(), OneMissed(), {Addr(3, 1)};
    RootsForwarded();
    ThirdScanned();
    FirstScanned();
    SecondScanned();
    FourthIsLate();
    assert {} + late == late && late + {} == late;
    assert ScanSteps(StartScan(w), 1, false) == Some(Scan(w, 0, 1, 1, 1, {}, false));
    assert ScanSteps(StartScan(w), 2, false) == Some(Scan(w, 0, 1, 0, 0, {}, false));
    assert ScanSteps(StartScan(w), 3, false) == Some(Scan(m, 0, 1, 0, 1, late, false));
    assert ScanSteps(StartScan(w), 4, false) == Some(Scan(m, 0, 1, 0, 2, late, false));
    assert ScanSteps(StartScan(w), 5, false) == Some(Missed());
  }

  lemma MissedPointsBack()
    ensures !KeptClear(GraphOf(FiveObjects(), THREE_ROOTS, false), Freed(OneMissed()), {Addr(3, 1)})
  {
    hide TotalUsed;
    var m := Freed(OneMissed());
    assert m[Addr(3, 1)] == Cell(None, Small([To(Addr(1, 2))]));
    var g := GraphOf(FiveObjects(), THREE_ROOTS, false);
    assert g.oldBase == 0 && g.base == 2 && !g.rebound;
    assert Addr(3, 1) in m && To(Addr(1, 2)) in Kept(m[Addr(3, 1)].obj, g.rebound) && PointsBack(g, To(Addr(1, 2)));
  }

  /** So gc on these five objects does not carry the graph over. */
  method CollectFive() returns (h: Heap)
    ensures h.Valid() && |h.chain| == 1
    ensures forall f :: !Isomorphic(GraphOf(FiveObjects(), THREE_ROOTS, false), h.mem, h.Roots(), f)
  {
    hide HeapOk, RootsOk, Calm, Isomorphic, KeptClear, ScanEnds, TotalUsed, Need, FiveMemory, OneMissed, Freed;
    ghost var s := FiveObjects();
    FiveHeap();
    FiveCalm();
    assert [0, 1, 2] + [] == [0, 1, 2];
    assert Values(THREE_ROOTS, [0, 1, 2]) == THREE_ROOTS;
    h := new Heap.At(FiveObjects(), THREE_ROOTS, [0, 1, 2], [], false);
    ghost var rounds, fwd, x;
    rounds, fwd, x := h.Collecting();
    PassOverTwoSegmentsMisses();
    EndsOnce(s, THREE_ROOTS, false, x, Missed());
    MissedPointsBack();
  }

  /** A blocked request of 9996 bytes is retried forever at the smallest minspace. */
  lemma SmallestRetry(s: Store, tries: nat)
    requires s.chain != [] && s.minspace == MIN_MINSPACE && !Room(s, 9996)
    ensures var t := Retried(s, 9996, tries); t.chain != [] && !Room(t, 9996)
  {
    RetriesForever(s, 9996, tries);
  }
}
