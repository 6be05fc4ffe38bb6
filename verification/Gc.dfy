/** gc.c: the collector as the C code runs it, over fields that it updates in place. */
module Gc {
  import opened CStrings
  import opened Heaps
  import opened Copying
  import opened Collector

  /** minspace starts here and never gets smaller. */
  const MIN_MINSPACE: nat := 10000

  /** How minspace follows the amount of live data. */
  function Adapted(minspace: nat, livedata: nat): nat {
    if minspace < livedata * 2 then livedata * 4
    else if minspace > livedata * 12 && minspace > MIN_MINSPACE * 2 then minspace / 2
    else minspace
  }

  /** Afterwards the live data fits twice, the lower bound is kept, and a minspace that was
      raised is left alone by the next collection of as much live data. */
  lemma AdaptedFits(minspace: nat, livedata: nat)
    ensures Adapted(minspace, livedata) >= 2 * livedata
    ensures minspace >= MIN_MINSPACE ==> Adapted(minspace, livedata) >= MIN_MINSPACE
    ensures Adapted(minspace, livedata) > minspace <==> minspace < 2 * livedata
    ensures Adapted(minspace, livedata) < minspace <==> minspace > 12 * livedata && minspace > 2 * MIN_MINSPACE
    ensures Adapted(minspace, livedata) < minspace ==>
      Adapted(minspace, livedata) >= 6 * livedata && minspace - 1 <= 2 * Adapted(minspace, livedata) <= minspace
    ensures Adapted(minspace, livedata) > minspace ==> Adapted(Adapted(minspace, livedata), livedata) == Adapted(minspace, livedata)
  {}

  lemma {:induction false} ForwardPrefix(s: Store, ps: seq<Pointer>, n: nat)
    requires s.chain != [] && n <= |ps| && ForwardAll(s, ps).Some?
    ensures ForwardAll(s, ps[..n]).Some?
    decreases |ps|
  {
    if n < |ps| {
      ForwardPrefix(s, ps[..|ps| - 1], n);
      assert ps[..|ps| - 1][..n] == ps[..n];
    } else {
      assert ps[..n] == ps;
    }
  }

  class Heap {
    var mem: Memory
    var base: nat
    var chain: seq<Segment>
    var oldBase: nat
    var minspace: nat
    var gcblocked: nat
    var rebound: bool
    /** The variables of the program, and the two lists of those that are roots. */
    var vars: seq<Pointer>
    var rootlist: seq<nat>
    var globalrootlist: seq<nat>

    /** initgc */
    constructor ()
      ensures Valid() && chain == [Segment(Align(MIN_MINSPACE), 0, 0)] && mem == map[] && gcblocked == 0
    {
      mem, base, oldBase, minspace := map[], 0, 0, MIN_MINSPACE;
      chain := [Segment(Align(MIN_MINSPACE), 0, 0)];
      gcblocked, rebound := 0, true;
      vars, rootlist, globalrootlist := [], [], [];
      new;
      EmptyHeap(State());
    }

    /** A heap in any state that allocation can have led to. */
    constructor At(s: Store, vars: seq<Pointer>, rootlist: seq<nat>, globalrootlist: seq<nat>, rebound: bool)
      requires HeapOk(s) && s.minspace >= MIN_MINSPACE
      requires forall r :: r in rootlist + globalrootlist ==> r < |vars|
      requires RootsOk(s, Values(vars, rootlist + globalrootlist))
      ensures Valid() && State() == s && Roots() == Values(vars, rootlist + globalrootlist)
      ensures gcblocked == 0 && this.rebound == rebound
    {
      mem, base, chain, oldBase, minspace := s.mem, s.base, s.chain, s.oldBase, s.minspace;
      gcblocked, this.rebound := 0, rebound;
      this.vars, this.rootlist, this.globalrootlist := vars, rootlist, globalrootlist;
    }

    function State(): Store
      reads this
    {
      Store(mem, base, chain, oldBase, minspace)
    }

    /** gcalloc while collection is blocked, filled in by its caller */
    method Alloc(o: Object) returns (a: Addr)
      requires chain != [] && Allocatable(State(), o.nbytes)
      modifies `mem, `chain, `minspace
      ensures (State(), a) == Allocated(old(State()), o)
    {
      while true
        invariant State() == old(State()) || State() == Opened(old(State()), o.nbytes)
        invariant State() != old(State()) ==> !Room(old(State()), o.nbytes)
        invariant chain != []
        decreases if Room(State(), o.nbytes) then 0 else 1
      {
        var k := |chain| - 1;
        var seg := chain[k];
        if seg.used + Cost(o.nbytes) <= seg.size {
          a := Addr(base + k, seg.count);
          chain := chain[k := Segment(seg.size, seg.used + Cost(o.nbytes), seg.count + 1)];
          mem := mem[a := Cell(None, o)];
          return;
        }
        if minspace < o.nbytes {
          minspace := o.nbytes + WORD_SIZE;
        }
        chain := chain + [Segment(Align(minspace), 0, 0)];
      }
    }

    /** forward */
    method ForwardPointer(p: Pointer) returns (q: Pointer)
      requires chain != [] && Forward(State(), p).Some?
      modifies `mem, `chain, `minspace
      ensures Some((State(), q)) == Forward(old(State()), p)
    {
      if !InOld(State(), p) {
        return p;
      }
      var cell := mem[p.addr];
      if cell.forward.Some? {
        return To(cell.forward.value);
      }
      var np := Alloc(cell.obj);
      mem := mem[p.addr := cell.(forward := Some(np))];
      q := To(np);
    }

    /** The scan routine of an object's tag. */
    method ScanFields(a: Addr)
      requires chain != [] && ScanObject(State(), a, rebound).Some?
      modifies `mem, `chain, `minspace
      ensures Some(State()) == ScanObject(old(State()), a, rebound)
    {
      var ps := Kept(mem[a].obj, rebound);
      var qs: seq<Pointer> := [];
      var i := 0;
      while i < |ps|
        invariant i <= |ps| && chain != []
        invariant ForwardAll(old(State()), ps[..i]) == Some((State(), qs))
      {
        ForwardPrefix(old(State()), ps, i + 1);
        assert ps[..i + 1][..i] == ps[..i];
        var q := ForwardPointer(ps[i]);
        qs := qs + [q];
        i := i + 1;
      }
      assert ps[..i] == ps;
      mem := mem[a := mem[a].(obj := mem[a].obj.(fields := qs))];
    }

    /** The inner loop of scanspace: scan a segment up to its frontier, which moves while
        the segment is the one being allocated from. */
    method ScanSegment(sp: nat, ghost g: Start, ghost t0: Trace, ghost x0: Scan)
      returns (ghost t: Trace, ghost n: nat, ghost x: Scan)
      requires Ready(g, t0, x0) && !x0.finished && x0.at == sp && x0.finger == 0
      modifies `mem, `chain, `minspace
      ensures Ready(g, t, x) && ScanSteps(x0, n, rebound) == Some(x)
      ensures x == x0.(store := State(), finger := x.finger, late := x.late) && x.finger >= chain[sp].count
      ensures Further(t0, t) && (t.fwd == t0.fwd ==> chain == old(chain))
    {
      hide Inv, Calm, WellFormed, ScanObject, Behind, Accounted, LateBehind, Appended, ScanStep;
      t, n, x := t0, 0, x0;
      var finger := 0;
      while finger < chain[sp].count
        invariant Ready(g, t, x) && x == x0.(store := State(), finger := finger, late := x.late)
        invariant ScanSteps(x0, n, rebound) == Some(x)
        invariant Further(t0, t) && (t.fwd == t0.fwd ==> chain == old(chain))
        decreases g.mem.Keys - t.fwd.Keys, chain[sp].count - finger
      {
        ghost var t1 := t;
        t := StepKeeps(g, x, t);
        ObjectStep(x, rebound);
        ScanFields(Addr(base + sp, finger));
        x, n := ScanStep(x, rebound).value, n + 1;
        finger := finger + 1;
        LessLeft(g, x.store, t1, t);
      }
    }

    /** One pass of scanspace, from the newest segment down to those scanned before. */
    method ScanPass(front: nat, scanned: nat, ghost g: Start, ghost t0: Trace, ghost x0: Scan)
      returns (ghost t: Trace, ghost n: nat, ghost x: Scan)
      requires Ready(g, t0, x0) && x0 == Scan(State(), scanned, front, front, 0, x0.late, false)
      modifies `mem, `chain, `minspace
      ensures Ready(g, t, x) && ScanSteps(x0, n, rebound) == Some(x)
      ensures x == Scan(State(), scanned, front, scanned, x.finger, x.late, false)
      ensures x.finger >= chain[scanned].count
      ensures Further(t0, t) && (t.fwd == t0.fwd ==> chain == old(chain))
    {
      hide Inv, Calm, WellFormed, ScanObject, Behind, Accounted, LateBehind, Appended, ScanStep;
      t, n, x := t0, 0, x0;
      var sp := front;
      while true
        invariant Ready(g, t, x) && scanned <= sp <= front
        invariant x == Scan(State(), scanned, front, sp, 0, x.late, false)
        invariant ScanSteps(x0, n, rebound) == Some(x)
        invariant Further(t0, t) && (t.fwd == t0.fwd ==> chain == old(chain))
        decreases sp
      {
        ghost var m, y;
        t, m, y := ScanSegment(sp, g, t, x);
        StepsTogether(x0, n, x, m, rebound);
        x, n := y, n + m;
        if sp == scanned {
          return;
        }
        t := StepKeeps(g, x, t);
        DownStep(x, rebound);
        x, n := ScanStep(x, rebound).value, n + 1;
        sp := sp - 1;
      }
    }

    /** scanspace */
    method ScanSpace(ghost g: Start, ghost t0: Trace) returns (ghost t: Trace, ghost n: nat, ghost x: Scan)
      requires Inv(g, State(), t0) && Calm(g) && WellFormed(g) && t0.scanned == {} && rebound == g.rebound
      requires chain != []
      modifies `mem, `chain, `minspace
      ensures Some(x) == ScanSteps(StartScan(old(State())), n, rebound) && x.finished && x.store == State()
      ensures Inv(g, State(), t) && Further(t0, t)
      ensures x.late == t.origin.Keys - t.scanned && (|chain| == 1 ==> x.late == {})
    {
      hide Inv, Calm, WellFormed, ScanObject, Behind, Accounted, LateBehind, Appended, ScanStep;
      ghost var x0 := StartScan(State());
      t, n, x := t0, 0, x0;
      StartsClean(g, State(), t0);
      var scanned: nat := 0;
      while true
        invariant Ready(g, t, x) && x == Scan(State(), scanned, |chain| - 1, |chain| - 1, 0, x.late, false)
        invariant ScanSteps(x0, n, rebound) == Some(x)
        invariant Further(t0, t)
        decreases g.mem.Keys - t.fwd.Keys
      {
        var front := |chain| - 1;
        ghost var t1, m, y := t, 0, x;
        t, m, y := ScanPass(front, scanned, g, t, x);
        StepsTogether(x0, n, x, m, rebound);
        x, n := y, n + m;
        LessLeft(g, x.store, t1, t);
        t := StepKeeps(g, x, t);
        EndStep(x, rebound);
        x, n := ScanStep(x, rebound).value, n + 1;
        LessLeft(g, x.store, t1, t);
        if |chain| - 1 == front {
          LateExactly(g, x, t);
          return;
        }
        scanned := front + 1;
      }
    }

    /** scanroots.  A variable that is on the lists twice is forwarded once. */
    method ScanRoots(list: seq<nat>, ghost g: Start, ghost t0: Trace, ghost vars0: seq<Pointer>, ghost done: seq<nat>, ghost s0: Store)
      returns (ghost t: Trace)
      requires Inv(g, State(), t0) && Calm(g) && WellFormed(g) && chain != []
      requires RootsMoved(g, t0, vars, vars0, done)
      requires forall r :: r in list ==> r < |vars0| && vars0[r] in g.roots
      requires (forall r :: r in done ==> r < |vars0|) && s0.chain != [] && Reached(s0, Values(vars0, done), State())
      modifies `mem, `chain, `minspace, `vars
      ensures Inv(g, State(), t) && t.scanned == t0.scanned && chain != []
      ensures RootsMoved(g, t, vars, vars0, done + list)
      ensures (forall r :: r in done + list ==> r < |vars0|) && Reached(s0, Values(vars0, done + list), State())
    {
      hide Inv, Calm, WellFormed, RootsMoved, Reached;
      t := t0;
      var i := 0;
      assert done + list[..i] == done;
      while i < |list|
        invariant i <= |list| && chain != []
        invariant Inv(g, State(), t) && t.scanned == t0.scanned
        invariant RootsMoved(g, t, vars, vars0, done + list[..i])
        invariant (forall r :: r in done + list[..i] ==> r < |vars0|) && Reached(s0, Values(vars0, done + list[..i]), State())
      {
        assert list[i] in list;
        MovedLength(g, t, vars, vars0, done + list[..i]);
        ghost var t1 := RootStep(g, State(), t, vars, vars0, done + list[..i], list[i]);
        ReachedStep(s0, vars0, done + list[..i], list[i], State());
        var np := ForwardPointer(vars[list[i]]);
        vars := vars[list[i] := np];
        t := t1;
        assert done + list[..i + 1] == done + list[..i] + [list[i]];
        i := i + 1;
      }
      assert list[..i] == list;
    }

    ghost predicate Valid()
      reads this
    {
      && HeapOk(State())
      && (forall r :: r in rootlist + globalrootlist ==> r < |vars|)
      && RootsOk(State(), Roots())
      && minspace >= MIN_MINSPACE
    }

    ghost function Roots(): seq<Pointer>
      requires forall r :: r in rootlist + globalrootlist ==> r < |vars|
      reads this
    {
      Values(vars, rootlist + globalrootlist)
    }

    ghost function Graph(): Start
      requires Valid()
      reads this
    {
      GraphOf(State(), Roots(), rebound)
    }

    /** The loop at the end of gc that adds up what is in use. */
    method LiveData() returns (livedata: nat)
      ensures livedata == TotalUsed(chain)
    {
      livedata := 0;
      for k := 0 to |chain|
        invariant livedata == TotalUsed(chain[..k])
      {
        assert chain[..k + 1] == chain[..k] + [chain[k]];
        UsedAt(chain[..k], chain[k]);
        livedata := livedata + chain[k].used;
      }
      assert chain[..|chain|] == chain;
    }

    /** Both root lists, one after the other. */
    method CopyRoots(ghost g: Start, ghost vars0: seq<Pointer>) returns (ghost t: Trace)
      requires Inv(g, State(), NOTHING) && Calm(g) && WellFormed(g) && chain != [] && vars == vars0
      requires forall r :: r in rootlist + globalrootlist ==> r < |vars0| && vars0[r] in g.roots
      modifies `mem, `chain, `minspace, `vars
      ensures Inv(g, State(), t) && t.scanned == {} && chain != []
      ensures RootsMoved(g, t, vars, vars0, rootlist + globalrootlist)
      ensures Reached(old(State()), Values(vars0, rootlist + globalrootlist), State())
    {
      hide Inv, Calm, WellFormed, Reached, RootsMoved;
      ghost var s0 := State();
      RootsBegin(g, vars0);
      ReachedNothing(s0, vars0);
      assert [] + rootlist == rootlist;
      assert forall r :: r in rootlist || r in globalrootlist ==> r in rootlist + globalrootlist;
      t := ScanRoots(rootlist, g, NOTHING, vars0, [], s0);
      t := ScanRoots(globalrootlist, g, t, vars0, rootlist, s0);
    }

    /** The first half of a round of gc: flip the spaces and copy what the roots reach. */
    method Evacuate() returns (ghost t: Trace, ghost s1: Store, ghost n: nat, ghost x: Scan)
      requires Valid() && Calm(Graph())
      modifies `mem, `base, `chain, `oldBase, `minspace, `vars
      ensures WellFormed(old(Graph())) && Inv(old(Graph()), State(), t)
      ensures RootsMoved(old(Graph()), t, vars, old(vars), rootlist + globalrootlist)
      ensures RootsDone(old(Graph()), t) && |vars| == old(|vars|)
      ensures Values(vars, rootlist + globalrootlist) == MovedAll(t.fwd, old(Graph()).roots)
      ensures Reached(Flipped(old(State())), old(Roots()), s1)
      ensures s1.chain != [] && ScanSteps(StartScan(s1), n, rebound) == Some(x) && x.finished && x.store == State()
      ensures x.late == t.origin.Keys - t.scanned && (|chain| == 1 ==> x.late == {})
    {
      hide Inv, Calm, WellFormed, HeapOk, RootsOk, PointerOk, ScanSteps, RootsDone, Sound, Reached, RootsMoved, StartScan, MovedAll;
      ghost var g, vars0 := Graph(), vars;
      ShapeOf(State(), Roots());
      FlippedInv(State(), Roots(), rebound);
      ValuesIn(vars0, rootlist + globalrootlist);
      oldBase, base := base, base + |chain|;
      chain := [Segment(Align(minspace), 0, 0)];
      ghost var t1 := CopyRoots(g, vars0);
      s1 := State();
      t, n, x := ScanSpace(g, t1);
      MovedLength(g, t1, vars, vars0, rootlist + globalrootlist);
      RootsEnd(g, State(), t1, t, vars, vars0, rootlist + globalrootlist);
    }

    /** The step at the end of a round: minspace follows the live data. */
    method AdaptMinspace(livedata: nat)
      modifies `minspace
      ensures minspace >= 2 * livedata && (old(minspace) >= MIN_MINSPACE ==> minspace >= MIN_MINSPACE)
      ensures minspace < old(minspace) ==> old(minspace) > 12 * livedata && minspace >= 6 * livedata
      ensures minspace > old(minspace) ==> minspace == 4 * livedata
      ensures minspace == Adapted(old(minspace), livedata)
    {
      if minspace < livedata * 2 {
        minspace := livedata * 4;
      } else if minspace > livedata * 12 && minspace > MIN_MINSPACE * 2 {
        minspace := minspace / 2;
      }
    }

    /** One round of gc: copy, free old space and adapt minspace, which was `during` while
        copying.  x is the end of the scan.  The round replaces the graph by an isomorphic one
        exactly when the copies that came too late for the scan need no scanning. */
    method Collect() returns (ghost t: Trace, ghost x: Scan, ghost during: nat)
      requires Valid() && Calm(Graph())
      modifies `mem, `base, `chain, `oldBase, `minspace, `vars
      ensures Valid() && base == old(base) + old(|chain|)
      ensures ScanEnds(old(State()), old(Roots()), rebound, x) && Round(old(Graph()), t, x, mem, Roots())
      ensures Isomorphic(old(Graph()), mem, Roots(), t.fwd) <==> Harmless(old(Graph()), mem, x.late)
      ensures forall f :: Isomorphic(old(Graph()), mem, Roots(), f) ==> Harmless(old(Graph()), mem, x.late)
      ensures |chain| == 1 ==> x.late == {}
      ensures Need(old(Graph())) <= Align(old(minspace)) ==> |chain| == 1
      ensures TotalUsed(chain) <= Need(old(Graph())) <= old(TotalUsed(chain))
      ensures Level(old(Graph()), during) && minspace == Adapted(during, TotalUsed(chain))
      ensures |chain| > 1 ==> minspace == 4 * TotalUsed(chain)
      ensures |vars| == old(|vars|)
      ensures forall k :: 0 <= k < |vars| && k !in rootlist + globalrootlist ==> vars[k] == old(vars)[k]
    {
      hide Inv, Calm, WellFormed, HeapOk, RootsOk, Isomorphic, Level, PointerOk, ScanSteps, RootsDone, RootsMoved, TotalUsed, Reached, ScanEnds, Harmless, Need;
      ghost var g, s0, vars0 := Graph(), State(), vars;
      ghost var s1, n;
      t, s1, n, x := Evacuate();
      EndOfScan(s0, g.roots, s1, n, x, rebound);
      during := minspace;
      ghost var s2 := State();
      mem := Freed(State());
      AfterRound(s0, g, s2, t, x.late, vars, vars0, rootlist + globalrootlist);
      var livedata := LiveData();
      AdaptMinspace(livedata);
      SameHeap(s2.(mem := Freed(s2)), State(), Roots());
    }

    /** gc.  A second round happens only when the first one opened a second segment; it then
        finds minspace at four times the live data and is the last.  The graph is carried over
        exactly when no copy that came too late for the first scan, which ends in x, has a kept
        field to old space: the second round drops the other fields, and mends nothing else.
        Nothing comes too late when all live data fits one segment. */
    method Collecting() returns (ghost rounds: nat, ghost fwd: map<Addr, Addr>, ghost x: Scan)
      requires Valid() && (gcblocked == 0 ==> Calm(Graph()))
      modifies `mem, `base, `chain, `oldBase, `minspace, `vars, `gcblocked
      ensures Valid() && gcblocked == old(gcblocked)
      ensures gcblocked > 0 ==> rounds == 0 && State() == old(State()) && vars == old(vars)
      ensures gcblocked == 0 ==> 1 <= rounds <= 2 && |chain| == 1 && TotalUsed(chain) <= Need(old(Graph()))
      ensures gcblocked == 0 ==> ScanEnds(old(State()), old(Roots()), rebound, x)
      ensures gcblocked == 0 ==>
        (Isomorphic(old(Graph()), mem, Roots(), fwd) <==> KeptClear(old(Graph()), Freed(x.store), x.late))
      ensures gcblocked == 0 ==>
        forall f :: Isomorphic(old(Graph()), mem, Roots(), f) ==> KeptClear(old(Graph()), Freed(x.store), x.late)
      ensures gcblocked == 0 && Isomorphic(old(Graph()), mem, Roots(), fwd) ==>
        Transplanted(old(Graph()), mem, Roots(), fwd)
      ensures gcblocked == 0 && Isomorphic(old(Graph()), mem, Roots(), fwd) ==>
        RootsLed(old(Graph()), old(vars), vars, rootlist + globalrootlist, fwd)
      ensures gcblocked == 0 && Need(old(Graph())) <= Align(old(minspace)) ==> rounds == 1
      ensures rounds == 1 ==> x.late == {} && Isomorphic(old(Graph()), mem, Roots(), fwd)
      ensures rounds == 2 ==> 2 * TotalUsed(chain) <= minspace
      ensures |vars| == old(|vars|)
      ensures forall k :: 0 <= k < |vars| && k !in rootlist + globalrootlist ==> vars[k] == old(vars)[k]
    {
      hide HeapOk, RootsOk, Isomorphic, Transplanted, RootsLed, Level, TotalUsed, Calm, Live, ScanEnds, Round, KeptClear, Harmless, Need;
      rounds, fwd, x := 0, map[], StartScan(Store(mem, base, [Segment(0, 0, 0)], oldBase, minspace));
      if gcblocked > 0 {
        return;
      }
      ghost var g := Graph();
      gcblocked := gcblocked + 1;
      ghost var t, during;
      t, x, during := Collect();
      ghost var m1, roots1 := mem, Roots();
      RoundFacts(g, t, x, m1, roots1);
      rounds, fwd := 1, t.fwd;
      gcblocked := gcblocked - 1;
      ShapeOf(State(), Roots());
      if |chain| == 1 {
        NothingLate(g, mem);
        CarriesRoots(g, mem, old(vars), vars, rootlist + globalrootlist, fwd);
        return;
      }
      FitsNow(State(), Roots(), rebound);
      FollowsNow(g, State(), roots1);
      ghost var g1 := Graph();
      gcblocked := gcblocked + 1;
      ghost var t2, x2, during2;
      t2, x2, during2 := Collect();
      NothingLate(g1, mem);
      rounds := 2;
      gcblocked := gcblocked - 1;
      AboveBase(State(), Roots());
      OldIssued(old(State()), old(Roots()), g);
      fwd := BothRounds(g, t, x, m1, roots1, g1, mem, Roots(), t2.fwd);
      CarriesRoots(g, mem, old(vars), vars, rootlist + globalrootlist, fwd);
    }

    method GcEnable() returns (ghost rounds: nat, ghost fwd: map<Addr, Addr>, ghost x: Scan)
      requires gcblocked > 0 && Valid() && (gcblocked == 1 && |chain| > 1 ==> Calm(Graph()))
      modifies `mem, `base, `chain, `oldBase, `minspace, `vars, `gcblocked
      ensures Valid() && gcblocked == old(gcblocked) - 1
      ensures gcblocked == 0 ==> |chain| == 1
      ensures rounds == 0 <==> gcblocked > 0 || old(|chain|) == 1
      ensures rounds == 0 ==> State() == old(State()) && vars == old(vars)
      ensures rounds > 0 ==> ScanEnds(old(State()), old(Roots()), rebound, x)
      ensures rounds > 0 ==>
        (Isomorphic(old(Graph()), mem, Roots(), fwd) <==> KeptClear(old(Graph()), Freed(x.store), x.late))
      ensures rounds > 0 && Isomorphic(old(Graph()), mem, Roots(), fwd) ==>
        Transplanted(old(Graph()), mem, Roots(), fwd)
    {
      hide HeapOk, RootsOk, Isomorphic, Transplanted, Calm, ScanEnds, KeptClear, Need;
      gcblocked := gcblocked - 1;
      rounds, fwd, x := 0, map[], StartScan(Store(mem, base, [Segment(0, 0, 0)], oldBase, minspace));
      ShapeOf(State(), Roots());
      if gcblocked == 0 && |chain| > 1 {
        rounds, fwd, x := Collecting();
      }
    }

    /** The scan is in state x, and the heap with it. */
    ghost predicate Ready(g: Start, t: Trace, x: Scan)
      reads this
    {
      ScanInv(g, x, t) && Calm(g) && WellFormed(g) && rebound == g.rebound && x.store == State()
    }
  }

  /** The roots dealt with so far are forwarded; every other variable is untouched. */
  ghost predicate RootsMoved(g: Start, t: Trace, vars: seq<Pointer>, vars0: seq<Pointer>, done: seq<nat>) {
    && |vars| == |vars0|
    && (forall k :: 0 <= k < |vars| ==> vars[k] == if k in done then Moved(t.fwd, vars0[k]) else vars0[k])
    && (forall k :: 0 <= k < |vars| && k in done ==> vars0[k] in g.roots)
    && (forall k :: 0 <= k < |vars| && k in done && vars0[k].To? && vars0[k].addr in g.mem ==> vars0[k].addr in t.fwd)
  }

  lemma MovedLength(g: Start, t: Trace, vars: seq<Pointer>, vars0: seq<Pointer>, done: seq<nat>)
    requires RootsMoved(g, t, vars, vars0, done)
    ensures |vars| == |vars0|
  {}

  lemma RootFacts(g: Start, p: Pointer)
    requires WellFormed(g) && p in g.roots
    ensures Sound(g, p) && (p.To? && p.addr in g.mem ==> Live(g, p.addr))
  {}

  /** Forwarding these pointers one after the other leads from s0 to s. */
  ghost predicate Reached(s0: Store, ps: seq<Pointer>, s: Store)
    requires s0.chain != []
  {
    ForwardAll(s0, ps).Some? && ForwardAll(s0, ps).value.0 == s
  }

  /** From this heap and these roots, the scan of a collection ends in x. */
  ghost predicate ScanEnds(s: Store, roots: seq<Pointer>, rebound: bool, x: Scan) {
    var r := ForwardAll(Flipped(s), roots);
    r.Some? && x.finished && exists n: nat :: ScanSteps(StartScan(r.value.0), n, rebound) == Some(x)
  }

  /** What a round leaves: t says where the copies came from and which were scanned. */
  ghost predicate Round(g: Start, t: Trace, x: Scan, m: Memory, roots: seq<Pointer>) {
    && Inv(g, x.store, t) && WellFormed(g) && RootsDone(g, t)
    && x.late == t.origin.Keys - t.scanned && m == Freed(x.store) && roots == MovedAll(t.fwd, g.roots)
  }

  lemma RoundFacts(g: Start, t: Trace, x: Scan, m: Memory, roots: seq<Pointer>)
    requires Round(g, t, x, m, roots)
    ensures m == Freed(x.store)
  {}

  lemma NothingLate(g: Start, m: Memory)
    ensures Harmless(g, m, {}) && KeptClear(g, m, {})
  {}

  /** Two rounds together, when the second one missed nothing. */
  lemma BothRounds(g: Start, t: Trace, x: Scan, m: Memory, roots: seq<Pointer>,
                   g': Start, m': Memory, roots': seq<Pointer>, fwd': map<Addr, Addr>) returns (fwd: map<Addr, Addr>)
    requires Round(g, t, x, m, roots) && Isomorphic(g', m', roots', fwd') && Follows(g, m, roots, g')
    requires Issued(g) && (forall p :: p in g.roots && p.To? ==> p.addr.seg < g.base)
    requires forall n :: n in m' ==> n.seg >= g'.base
    ensures Isomorphic(g, m', roots', fwd) <==> KeptClear(g, m, x.late)
    ensures forall f :: Isomorphic(g, m', roots', f) ==> KeptClear(g, m, x.late)
  {
    hide Inv, WellFormed, RootsDone, Isomorphic, Settled, KeptClear, Issued;
    fwd := map[];
    SettledExactly(g, x.store, t, x.late);
    if KeptClear(g, m, x.late) {
      Compose(g, m, roots, t.fwd, g', m', roots', fwd');
      fwd := Composed(t.fwd, fwd');
    } else {
      BrokenStays(g, x.store, t, x.late, g', m', roots', fwd');
    }
  }

  lemma {:induction false} FinishedStays(x: Scan, n: nat, rebound: bool)
    requires ScanShape(x) && x.finished
    ensures ScanSteps(x, n, rebound) == Some(x)
  {
    if n > 0 {
      FinishedStays(x, n - 1, rebound);
    }
  }

  lemma EndOfScan(s: Store, roots: seq<Pointer>, s1: Store, n: nat, x: Scan, rebound: bool)
    requires Reached(Flipped(s), roots, s1) && s1.chain != []
    requires ScanSteps(StartScan(s1), n, rebound) == Some(x) && x.finished
    ensures ScanEnds(s, roots, rebound, x)
  {
    hide ScanSteps, StartScan, ForwardAll;
  }

  /** However many steps are taken, a scan ends in one way only. */
  lemma EndsOnce(s: Store, roots: seq<Pointer>, rebound: bool, x: Scan, y: Scan)
    requires ScanEnds(s, roots, rebound, x) && ScanEnds(s, roots, rebound, y)
    ensures x == y
  {
    hide ScanSteps, StartScan, ForwardAll;
    var x0 := StartScan(ForwardAll(Flipped(s), roots).value.0);
    var n: nat :| ScanSteps(x0, n, rebound) == Some(x);
    var m: nat :| ScanSteps(x0, m, rebound) == Some(y);
    if n <= m {
      StepsTogether(x0, n, x, m - n, rebound);
      FinishedStays(x, m - n, rebound);
    } else {
      StepsTogether(x0, m, y, n - m, rebound);
      FinishedStays(y, n - m, rebound);
    }
  }

  lemma ReachedStep(s0: Store, vars0: seq<Pointer>, done: seq<nat>, r: nat, s: Store)
    requires s0.chain != [] && s.chain != [] && r < |vars0| && (forall k :: k in done ==> k < |vars0|)
    requires Reached(s0, Values(vars0, done), s) && Forward(s, vars0[r]).Some?
    ensures forall k :: k in done + [r] ==> k < |vars0|
    ensures Reached(s0, Values(vars0, done + [r]), Forward(s, vars0[r]).value.0)
  {
    hide Forward;
    var ps := Values(vars0, done);
    ForwardLast(s0, ps, vars0[r], s, ForwardAll(s0, ps).value.1);
    assert Values(vars0, done + [r]) == ps + [vars0[r]];
  }

  lemma ReachedNothing(s0: Store, vars0: seq<Pointer>)
    requires s0.chain != []
    ensures Reached(s0, Values(vars0, []), s0)
  {}

  /** A pointer that was forwarded leads to the same copy again. */
  lemma ForwardAgain(g: Start, s: Store, t: Trace, p: Pointer)
    requires Inv(g, s, t) && Sound(g, p) && s.chain != [] && (p.To? && p.addr in g.mem ==> p.addr in t.fwd)
    ensures Forward(s, p).Some? && Forward(s, p).value.0 == s
  {
    hide Budget, CopiesAddUp, ScannedDone, OnlyLive, NewFilled, Bijective;
  }

  lemma RootsStay(g: Start, s: Store, t: Trace, t': Trace, vars: seq<Pointer>, vars0: seq<Pointer>, done: seq<nat>, r: nat)
    requires RootsMoved(g, t, vars, vars0, done) && Extends(t, t') && r < |vars| && vars0[r] in g.roots
    requires forall a :: a in t'.fwd ==> a in g.mem
    requires vars0[r].To? && vars0[r].addr in g.mem ==> vars0[r].addr in t'.fwd
    ensures RootsMoved(g, t', vars[r := Moved(t'.fwd, vars0[r])], vars0, done + [r])
  {}

  lemma RootStep(g: Start, s: Store, t: Trace, vars: seq<Pointer>, vars0: seq<Pointer>, done: seq<nat>, r: nat)
    returns (t': Trace)
    requires Inv(g, s, t) && Calm(g) && WellFormed(g) && s.chain != []
    requires RootsMoved(g, t, vars, vars0, done) && r < |vars| && vars0[r] in g.roots
    ensures Forward(s, vars[r]).Some?
    ensures var (s', q) := Forward(s, vars[r]).value;
      Inv(g, s', t') && t'.scanned == t.scanned && RootsMoved(g, t', vars[r := q], vars0, done + [r])
    ensures Forward(s, vars0[r]).Some? && Forward(s, vars0[r]).value.0 == Forward(s, vars[r]).value.0
  {
    hide Inv, Calm, WellFormed, Live;
    StoreShape(g, s, t);
    RootFacts(g, vars0[r]);
    if r in done {
      ForwardAgain(g, s, t, vars0[r]);
      MovedForward(g, s, t, vars0[r]);
      t' := t;
      assert vars[r := vars[r]] == vars;
    } else {
      t' := ForwardKeeps(g, s, t, vars[r]);
      StoreShape(g, Forward(s, vars[r]).value.0, t');
    }
    RootsStay(g, s, t, t', vars, vars0, done, r);
  }

  function Values(vars: seq<Pointer>, list: seq<nat>): (ps: seq<Pointer>)
    requires forall r :: r in list ==> r < |vars|
    ensures |ps| == |list| && forall i :: 0 <= i < |list| ==> list[i] in list && ps[i] == vars[list[i]]
  {
    seq(|list|, i requires 0 <= i < |list| => assert list[i] in list; vars[list[i]])
  }

  /** Every variable on the list leads where its value was taken. */
  predicate RootsLed(g: Start, vars0: seq<Pointer>, vars: seq<Pointer>, list: seq<nat>, fwd: map<Addr, Addr>) {
    forall k :: k in list ==> k < |vars0| && k < |vars| && Led(g, fwd, vars0[k], vars[k])
  }

  lemma CarriesRoots(g: Start, m: Memory, vars0: seq<Pointer>, vars: seq<Pointer>, list: seq<nat>, fwd: map<Addr, Addr>)
    requires |vars| == |vars0| && (forall r :: r in list ==> r < |vars|) && g.roots == Values(vars0, list)
    ensures Isomorphic(g, m, Values(vars, list), fwd) ==>
      Transplanted(g, m, Values(vars, list), fwd) && RootsLed(g, vars0, vars, list, fwd)
  {
    hide Isomorphic, Live, SameBut, Led;
    var roots := Values(vars, list);
    if Isomorphic(g, m, roots, fwd) {
      IsomorphicCarries(g, m, roots, fwd);
      forall k | k in list ensures Led(g, fwd, vars0[k], vars[k]) {
        var i :| 0 <= i < |list| && list[i] == k;
        assert Led(g, fwd, g.roots[i], roots[i]);
      }
    }
  }

  lemma ValuesIn(vars: seq<Pointer>, list: seq<nat>)
    requires forall r :: r in list ==> r < |vars|
    ensures forall r :: r in list ==> vars[r] in Values(vars, list)
  {
    forall r | r in list ensures vars[r] in Values(vars, list) {
      var i :| 0 <= i < |list| && list[i] == r;
      assert Values(vars, list)[i] == vars[r];
    }
  }

  lemma EmptyHeap(s: Store)
    requires s.mem == map[] && |s.chain| == 1 && s.chain[0].used == 0 && s.chain[0].count == 0
    ensures HeapOk(s)
  {
    assert s.chain == [] + [s.chain[0]];
    UsedAt([], s.chain[0]);
    assert Costs(s.mem) == map[];
  }

  lemma ShapeOf(s: Store, roots: seq<Pointer>)
    requires HeapOk(s)
    ensures s.chain != []
  {}

  lemma RootsBegin(g: Start, vars0: seq<Pointer>)
    ensures RootsMoved(g, NOTHING, vars0, vars0, [])
  {}

  /** All roots were forwarded, and scanning moves nothing that was moved before. */
  lemma RootsEnd(g: Start, s: Store, t: Trace, t': Trace, vars: seq<Pointer>, vars0: seq<Pointer>, list: seq<nat>)
    requires RootsMoved(g, t, vars, vars0, list) && Further(t, t') && Inv(g, s, t') && WellFormed(g)
    requires (forall r :: r in list ==> r < |vars0|) && g.roots == Values(vars0, list)
    ensures RootsMoved(g, t', vars, vars0, list) && RootsDone(g, t')
    ensures Values(vars, list) == MovedAll(t'.fwd, g.roots)
  {
    hide Inv, WellFormed;
    StoreShape(g, s, t');
    forall p | p in g.roots && p.To? && p.addr in g.mem ensures p.addr in t'.fwd {
      var i :| 0 <= i < |list| && g.roots[i] == p;
      assert list[i] in list && vars0[list[i]] == p;
    }
    forall k | 0 <= k < |vars| && k in list ensures Moved(t.fwd, vars0[k]) == Moved(t'.fwd, vars0[k]) {
    }
    forall i | 0 <= i < |list| ensures list[i] in list && vars[list[i]] == Moved(t'.fwd, vars0[list[i]]) {
      assert list[i] in list;
    }
  }

  lemma SameHeap(s: Store, s': Store, roots: seq<Pointer>)
    requires s.mem == s'.mem && s.base == s'.base && s.chain == s'.chain
    ensures HeapOk(s) ==> HeapOk(s')
    ensures RootsOk(s, roots) ==> RootsOk(s', roots)
  {
    hide PointerOk;
    assert forall a :: InNew(s, a) <==> InNew(s', a);
  }

  lemma GraphIssued(s: Store, roots: seq<Pointer>, rebound: bool)
    requires HeapOk(s) && RootsOk(s, roots)
    ensures var g := GraphOf(s, roots, rebound);
      Issued(g) && (forall p :: p in g.roots ==> PointerOk(g.mem, g.oldBase, g.base - g.oldBase, p))
  {
    hide PointerOk;
  }

  lemma BudgetOf(g: Start, s: Store, t: Trace)
    requires Inv(g, s, t)
    ensures Level(g, s.minspace) && s.chain != []
    ensures Need(g) <= Align(g.minspace) ==> |s.chain| == 1
    ensures |s.chain| > 1 ==> s.minspace < TotalUsed(s.chain) * 2
  {
    hide OldKept, NewFilled, ScannedDone, OnlyLive, Bijective, CopiesAddUp, Level, Need;
  }

  lemma LevelAtLeast(g: Start, minspace: nat)
    requires Level(g, minspace)
    ensures minspace >= g.minspace
  {}

  lemma AfterRound(s0: Store, g: Start, s: Store, t: Trace, late: set<Addr>,
                   vars: seq<Pointer>, vars0: seq<Pointer>, list: seq<nat>)
    requires (forall r :: r in list ==> r < |vars0|) && HeapOk(s0) && RootsOk(s0, Values(vars0, list))
    requires g == GraphOf(s0, Values(vars0, list), g.rebound)
    requires WellFormed(g) && Inv(g, s, t) && RootsMoved(g, t, vars, vars0, list) && RootsDone(g, t)
    requires Values(vars, list) == MovedAll(t.fwd, g.roots) && late == t.origin.Keys - t.scanned
    ensures HeapOk(s.(mem := Freed(s))) && RootsOk(s.(mem := Freed(s)), Values(vars, list))
    ensures Isomorphic(g, Freed(s), Values(vars, list), t.fwd) <==> Harmless(g, Freed(s), late)
    ensures forall f :: Isomorphic(g, Freed(s), Values(vars, list), f) ==> Harmless(g, Freed(s), late)
    ensures TotalUsed(s.chain) <= Need(g) <= g.used && s.base == g.base
    ensures Level(g, s.minspace) && s.minspace >= g.minspace && s.chain != []
    ensures Need(g) <= Align(g.minspace) ==> |s.chain| == 1
    ensures |s.chain| > 1 ==> s.minspace < TotalUsed(s.chain) * 2
    ensures forall k :: 0 <= k < |vars| && k !in list ==> vars[k] == vars0[k]
  {
    hide Inv, WellFormed, HeapOk, RootsOk, Isomorphic, Level, PointerOk, RootsDone, Issued, Harmless, Need;
    GraphIssued(s0, Values(vars0, list), g.rebound);
    FreedHeap(g, s, t);
    IssuedBase(g);
    FreedRoots(g, s, t);
    FreedCosts(g, s, t);
    BudgetOf(g, s, t);
    LevelAtLeast(g, s.minspace);
    NewBase(g, s, t);
    IsomorphicExactly(g, s, t, late);
  }

  /** minspace at four times what is in use makes room for everything. */
  lemma FitsNow(s: Store, roots: seq<Pointer>, rebound: bool)
    requires HeapOk(s) && RootsOk(s, roots) && s.minspace == 4 * TotalUsed(s.chain)
    ensures Calm(GraphOf(s, roots, rebound)) && Need(GraphOf(s, roots, rebound)) <= Align(s.minspace)
  {
    hide Inv, HeapOk, RootsOk;
    var g := GraphOf(s, roots, rebound);
    FlippedInv(s, roots, rebound);
    NeedAtMostUsed(g);
    assert Align(s.minspace) >= s.minspace;
  }

  lemma FollowsNow(g: Start, s: Store, roots: seq<Pointer>)
    requires HeapOk(s) && s.base == g.base
    ensures Follows(g, s.mem, roots, GraphOf(s, roots, g.rebound))
  {}

  lemma AboveBase(s: Store, roots: seq<Pointer>)
    requires HeapOk(s)
    ensures forall n :: n in s.mem ==> n.seg >= s.base
  {}

  lemma OldIssued(s: Store, roots: seq<Pointer>, g: Start)
    requires HeapOk(s) && RootsOk(s, roots) && g == GraphOf(s, roots, g.rebound)
    ensures Issued(g) && (forall p :: p in g.roots && p.To? ==> p.addr.seg < g.base)
  {}

  lemma IssuedBase(g: Start)
    requires Issued(g)
    ensures g.oldBase <= g.base
  {}

  ghost predicate Further(t: Trace, t': Trace) {
    forall a :: a in t.fwd ==> a in t'.fwd && t'.fwd[a] == t.fwd[a]
  }

  lemma {:induction false} StepsTogether(x: Scan, n: nat, y: Scan, m: nat, rebound: bool)
    requires ScanShape(x) && ScanShape(y) && ScanSteps(x, n, rebound) == Some(y)
    ensures ScanSteps(x, n + m, rebound) == ScanSteps(y, m, rebound)
    decreases m
  {
    hide ScanStep;
    if m > 0 {
      StepsTogether(x, n, y, m - 1, rebound);
    }
  }

  lemma StartsClean(g: Start, s: Store, t: Trace)
    requires Inv(g, s, t) && t.scanned == {} && s.chain != []
    ensures ScanInv(g, StartScan(s), t)
  {
    hide Inv;
  }

  lemma ObjectStep(x: Scan, rebound: bool)
    requires ScanShape(x) && !x.finished && x.finger < x.store.chain[x.at].count
    requires ScanStep(x, rebound).Some?
    ensures ScanObject(x.store, Addr(x.store.base + x.at, x.finger), rebound).Some?
    ensures ScanStep(x, rebound).value ==
      NextObject(x, ScanObject(x.store, Addr(x.store.base + x.at, x.finger), rebound).value)
  {
    hide ScanObject, Appended;
  }

  lemma DownStep(x: Scan, rebound: bool)
    requires ScanShape(x) && !x.finished && x.finger >= x.store.chain[x.at].count && x.at > x.below
    ensures ScanStep(x, rebound) == Some(x.(at := x.at - 1, finger := 0))
  {}

  lemma EndStep(x: Scan, rebound: bool)
    requires ScanShape(x) && !x.finished && x.finger >= x.store.chain[x.at].count && x.at == x.below
    ensures ScanStep(x, rebound) ==
      if |x.store.chain| - 1 == x.front then Some(x.(finished := true))
      else Some(Scan(x.store, x.front + 1, |x.store.chain| - 1, |x.store.chain| - 1, 0, x.late, false))
  {}

  /** Copying one more object leaves fewer to copy. */
  lemma LessLeft(g: Start, s: Store, t: Trace, t': Trace)
    requires Inv(g, s, t')
    requires Further(t, t')
    ensures t'.fwd == t.fwd || g.mem.Keys - t'.fwd.Keys < g.mem.Keys - t.fwd.Keys
  {
    hide Inv;
    StoreShape(g, s, t');
    if t'.fwd != t.fwd {
      assert t'.fwd.Keys == t.fwd.Keys ==> t'.fwd == t.fwd;
      var a :| a in t'.fwd.Keys && a !in t.fwd.Keys;
      assert a in g.mem.Keys - t.fwd.Keys;
    }
  }

  lemma ForwardLast(s: Store, ps: seq<Pointer>, p: Pointer, t: Store, qs: seq<Pointer>)
    requires s.chain != [] && t.chain != [] && ForwardAll(s, ps) == Some((t, qs)) && Forward(t, p).Some?
    ensures ForwardAll(s, ps + [p]) == Some((Forward(t, p).value.0, qs + [Forward(t, p).value.1]))
  {
    assert (ps + [p])[..|ps|] == ps;
  }
}
