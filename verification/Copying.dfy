/** What every step of a collection keeps (gc.c:310-366). */
module Copying {
  import opened CStrings
  import opened Heaps

  // ----- the graph a collection starts from -----

  /** Old space as it was when collection started, and everything that does not change. */
  datatype Start = Start(mem: Memory, roots: seq<Pointer>, oldBase: nat, base: nat, minspace: nat, used: nat, rebound: bool)

  predicate Sound(g: Start, p: Pointer) {
    p.To? && g.oldBase <= p.addr.seg < g.base ==> p.addr in g.mem
  }

  /** Bytes all objects together take. */
  ghost function SumCost(costs: map<Addr, nat>): nat {
    if costs == map[] then 0
    else
      var a :| a in costs;
      costs[a] + SumCost(costs - {a})
  }

  ghost function Costs(m: Memory): map<Addr, nat> {
    map a | a in m :: Cost(m[a].obj.nbytes)
  }

  ghost predicate WellFormed(g: Start) {
    && (forall a :: a in g.mem ==> g.oldBase <= a.seg < g.base && g.mem[a].forward.None?)
    && (forall a, p :: a in g.mem && p in g.mem[a].obj.fields ==> Sound(g, p))
    && (forall p :: p in g.roots ==> Sound(g, p))
    && SumCost(Costs(g.mem)) == g.used
  }

  ghost predicate Closed(g: Start, live: set<Addr>) {
    forall a, p :: a in live && a in g.mem && p in Kept(g.mem[a].obj, g.rebound) && p.To? && p.addr in g.mem
      ==> p.addr in live
  }

  ghost predicate Covers(g: Start, live: set<Addr>) {
    forall p :: p in g.roots && p.To? && p.addr in g.mem ==> p.addr in live
  }

  /** Reachable from the roots: in every set that has the roots and is closed. */
  ghost predicate Live(g: Start, a: Addr) {
    a in g.mem && forall live :: Closed(g, live) && Covers(g, live) ==> a in live
  }

  /** What the reachable objects cost. */
  ghost function LiveCosts(g: Start): map<Addr, nat> {
    map a | a in g.mem && Live(g, a) :: Cost(g.mem[a].obj.nbytes)
  }

  /** Bytes the reachable objects together take. */
  ghost function Need(g: Start): nat {
    SumCost(LiveCosts(g))
  }

  /** No request of the collection makes gcalloc retry forever: everything live fits one
      segment, or every live object fits a fresh segment of any size minspace can take on
      the way. */
  ghost predicate Calm(g: Start) {
    || Need(g) <= Align(g.minspace)
    || (forall a :: Live(g, a) ==> Tame(g, g.mem[a].obj.nbytes))
  }

  ghost predicate Tame(g: Start, nbytes: nat) {
    && FitsFresh(g.minspace, nbytes)
    && (forall b :: Live(g, b) && g.mem[b].obj.nbytes > g.minspace ==> FitsFresh(g.mem[b].obj.nbytes + WORD_SIZE, nbytes))
  }

  // ----- progress of a collection -----

  /** Where each object went, where each copy came from, and which copies were scanned. */
  datatype Trace = Trace(fwd: map<Addr, Addr>, origin: map<Addr, Addr>, scanned: set<Addr>)

  function Moved(fwd: map<Addr, Addr>, p: Pointer): Pointer {
    if p.To? && p.addr in fwd then To(fwd[p.addr]) else p
  }

  function MovedAll(fwd: map<Addr, Addr>, ps: seq<Pointer>): (qs: seq<Pointer>)
    ensures |qs| == |ps|
    ensures forall i :: 0 <= i < |ps| ==> qs[i] == Moved(fwd, ps[i])
  {
    seq(|ps|, i requires 0 <= i < |ps| => Moved(fwd, ps[i]))
  }

  /** A copy after it was scanned. */
  function Image(fwd: map<Addr, Addr>, o: Object, rebound: bool): Object {
    o.(fields := MovedAll(fwd, Kept(o, rebound)))
  }

  ghost predicate Bijective(t: Trace) {
    && (forall a :: a in t.fwd ==> t.fwd[a] in t.origin && t.origin[t.fwd[a]] == a)
    && (forall n :: n in t.origin ==> t.origin[n] in t.fwd && t.fwd[t.origin[n]] == n)
  }

  /** Old space only has tags overwritten by forwarding addresses. */
  ghost predicate OldKept(g: Start, s: Store, t: Trace) {
    forall a :: a in g.mem ==>
      a in s.mem && s.mem[a] == Cell(if a in t.fwd then Some(t.fwd[a]) else None, g.mem[a].obj)
  }

  /** New space holds the copies, scanned or not, and nothing else. */
  ghost predicate NewFilled(g: Start, s: Store, t: Trace) {
    && (forall n :: n in t.origin <==> InNew(s, n))
    && (forall n :: n in t.origin ==> t.origin[n] in g.mem && n in s.mem && s.mem[n] == CopyOf(g, t, n))
    && (forall a :: a in s.mem ==> a in g.mem || a in t.origin)
  }

  function CopyOf(g: Start, t: Trace, n: Addr): Cell
    requires n in t.origin && t.origin[n] in g.mem
  {
    var o := g.mem[t.origin[n]].obj;
    Cell(None, if n in t.scanned then Image(t.fwd, o, g.rebound) else o)
  }

  ghost predicate FieldsDone(g: Start, t: Trace, o: Object) {
    forall p :: p in Kept(o, g.rebound) && p.To? && p.addr in g.mem ==> p.addr in t.fwd
  }

  /** What a scanned copy points to has been copied. */
  ghost predicate ScannedDone(g: Start, t: Trace) {
    && t.scanned <= t.origin.Keys
    && (forall n :: n in t.scanned && t.origin[n] in g.mem ==> FieldsDone(g, t, g.mem[t.origin[n]].obj))
  }

  ghost predicate OnlyLive(g: Start, t: Trace) {
    forall a :: a in t.fwd ==> Live(g, a)
  }

  ghost function Uncopied(g: Start, t: Trace): map<Addr, nat> {
    LiveCosts(g) - t.fwd.Keys
  }

  ghost function CopiedCosts(g: Start, t: Trace): map<Addr, nat>
    requires forall n :: n in t.origin ==> t.origin[n] in g.mem
  {
    map n | n in t.origin :: Cost(g.mem[t.origin[n]].obj.nbytes)
  }

  /** minspace is what it was, or was raised for some reachable object. */
  ghost predicate Level(g: Start, minspace: nat) {
    minspace == g.minspace ||
    exists b :: Live(g, b) && g.mem[b].obj.nbytes > g.minspace && minspace == g.mem[b].obj.nbytes + WORD_SIZE
  }

  ghost predicate Budget(g: Start, s: Store, t: Trace) {
    && s.chain != []
    && s.chain[|s.chain| - 1].size == Align(s.minspace)
    && Level(g, s.minspace)
    && SumCost(Uncopied(g, t)) + TotalUsed(s.chain) == Need(g)
    && (|s.chain| >= 2 ==> TotalUsed(s.chain) > 0 && TotalUsed(s.chain) >= s.minspace)
    && (Need(g) <= Align(g.minspace) ==> |s.chain| == 1 && s.minspace == g.minspace)
  }

  ghost predicate CopiesAddUp(g: Start, s: Store, t: Trace) {
    && (forall n :: n in t.origin ==> t.origin[n] in g.mem)
    && SumCost(CopiedCosts(g, t)) == TotalUsed(s.chain)
  }

  /** The invariant of a collection. */
  ghost predicate Inv(g: Start, s: Store, t: Trace) {
    && s.base == g.base && s.oldBase == g.oldBase
    && Bijective(t) && OldKept(g, s, t) && NewFilled(g, s, t)
    && ScannedDone(g, t) && OnlyLive(g, t) && Budget(g, s, t) && CopiesAddUp(g, s, t)
  }

  // ----- sums -----

  lemma {:induction false} SumRemove(costs: map<Addr, nat>, a: Addr)
    requires a in costs
    ensures SumCost(costs) == costs[a] + SumCost(costs - {a})
    decreases |costs|
  {
    var b :| b in costs && SumCost(costs) == costs[b] + SumCost(costs - {b});
    if a != b {
      SumRemove(costs - {b}, a);
      SumRemove(costs - {a}, b);
      assert costs - {b} - {a} == costs - {a} - {b};
    }
  }

  /** Some of the objects cost no more than all of them. */
  lemma {:induction false} SumPart(part: map<Addr, nat>, all: map<Addr, nat>)
    requires forall a :: a in part ==> a in all && all[a] == part[a]
    ensures SumCost(part) <= SumCost(all)
    decreases |part|
  {
    if part != map[] {
      var a :| a in part;
      SumRemove(part, a);
      SumRemove(all, a);
      SumPart(part - {a}, all - {a});
    }
  }

  lemma NeedAtMostUsed(g: Start)
    requires WellFormed(g)
    ensures Need(g) <= g.used
  {
    hide Live;
    SumPart(LiveCosts(g), Costs(g.mem));
  }

  lemma {:induction false} UsedAt(chain: seq<Segment>, x: Segment)
    ensures TotalUsed(chain + [x]) == TotalUsed(chain) + x.used
  {
    assert (chain + [x])[..|chain|] == chain;
  }

  lemma BumpedUsed(chain: seq<Segment>, x: Segment)
    requires chain != []
    ensures TotalUsed(chain[|chain| - 1 := x]) + chain[|chain| - 1].used == TotalUsed(chain) + x.used
    ensures TotalUsed(chain) >= chain[|chain| - 1].used
  {
    assert chain[|chain| - 1 := x] == chain[..|chain| - 1] + [x];
    UsedAt(chain[..|chain| - 1], x);
  }

  // ----- copying one object -----

  lemma CanCopy(g: Start, s: Store, t: Trace, a: Addr)
    requires Budget(g, s, t) && Calm(g) && a in g.mem && Live(g, a) && a !in t.fwd
    ensures Allocatable(s, g.mem[a].obj.nbytes)
    ensures Need(g) <= Align(g.minspace) ==> Room(s, g.mem[a].obj.nbytes)
  {
    hide FitsFresh, Live;
    if Need(g) <= Align(g.minspace) {
      SumRemove(Uncopied(g, t), a);
      assert s.chain == [] + [s.chain[0]];
      UsedAt([], s.chain[0]);
    } else {
      assert Tame(g, g.mem[a].obj.nbytes);
    }
  }

  function Copied(t: Trace, a: Addr, n: Addr): Trace {
    Trace(t.fwd[a := n], t.origin[n := a], t.scanned)
  }

  lemma ChainAfter(s: Store, o: Object)
    requires s.chain != [] && Allocatable(s, o.nbytes)
    requires s.chain[|s.chain| - 1].size == Align(s.minspace)
    ensures var s' := Allocated(s, o).0;
      && TotalUsed(s'.chain) == TotalUsed(s.chain) + Cost(o.nbytes)
      && s'.chain[|s'.chain| - 1].size == Align(s'.minspace)
      && (Room(s, o.nbytes) ==> |s'.chain| == |s.chain| && s'.minspace == s.minspace)
      && (!Room(s, o.nbytes) ==> TotalUsed(s'.chain) >= s'.minspace)
      && (s'.minspace == s.minspace || (s'.minspace == o.nbytes + WORD_SIZE && o.nbytes > s.minspace))
  {
    var r := Ready(s, o.nbytes);
    if !Room(s, o.nbytes) {
      UsedAt(s.chain, Segment(Align(r.minspace), 0, 0));
      BumpedUsed(s.chain, s.chain[|s.chain| - 1]);
    }
    var last := r.chain[|r.chain| - 1];
    BumpedUsed(r.chain, Segment(last.size, last.used + Cost(o.nbytes), last.count + 1));
  }

  lemma CopyBudget(g: Start, s: Store, t: Trace, a: Addr)
    requires Budget(g, s, t) && Calm(g) && Live(g, a) && a !in t.fwd
    ensures Allocatable(s, g.mem[a].obj.nbytes)
    ensures Budget(g, Allocated(s, g.mem[a].obj).0, Copied(t, a, Allocated(s, g.mem[a].obj).1))
    ensures TotalUsed(Allocated(s, g.mem[a].obj).0.chain) == TotalUsed(s.chain) + Cost(g.mem[a].obj.nbytes)
  {
    CanCopy(g, s, t, a);
    var (s', n) := Allocated(s, g.mem[a].obj);
    ChainAfter(s, g.mem[a].obj);
    LessUncopied(g, t, a, n);
    LevelAfter(g, s.minspace, a);
  }

  lemma LessUncopied(g: Start, t: Trace, a: Addr, n: Addr)
    requires a in g.mem && Live(g, a) && a !in t.fwd
    ensures SumCost(Uncopied(g, t)) == Cost(g.mem[a].obj.nbytes) + SumCost(Uncopied(g, Copied(t, a, n)))
  {
    hide Live;
    SumRemove(Uncopied(g, t), a);
    assert Uncopied(g, t) - {a} == Uncopied(g, Copied(t, a, n));
  }

  lemma LevelAfter(g: Start, minspace: nat, a: Addr)
    requires Level(g, minspace) && Live(g, a)
    ensures g.mem[a].obj.nbytes > minspace ==> Level(g, g.mem[a].obj.nbytes + WORD_SIZE)
  {}

  lemma CopyAddsUp(g: Start, s: Store, t: Trace, s': Store, a: Addr, n: Addr)
    requires CopiesAddUp(g, s, t) && a in g.mem && n !in t.origin
    requires TotalUsed(s'.chain) == TotalUsed(s.chain) + Cost(g.mem[a].obj.nbytes)
    ensures CopiesAddUp(g, s', Copied(t, a, n))
  {
    hide TotalUsed, Cost, SumCost;
    var t' := Copied(t, a, n);
    SumRemove(CopiedCosts(g, t'), n);
    assert CopiedCosts(g, t') - {n} == CopiedCosts(g, t);
  }

  /** Copies made before keep their images: what they point to is copied already. */
  lemma ImageStable(g: Start, t: Trace, a: Addr, n: Addr, m: Addr)
    requires ScannedDone(g, t) && a in g.mem && a !in t.fwd && m in t.scanned && t.origin[m] in g.mem
    ensures Image(t.fwd, g.mem[t.origin[m]].obj, g.rebound) == Image(t.fwd[a := n], g.mem[t.origin[m]].obj, g.rebound)
  {
    var ps := Kept(g.mem[t.origin[m]].obj, g.rebound);
    forall i | 0 <= i < |ps| ensures Moved(t.fwd, ps[i]) == Moved(t.fwd[a := n], ps[i]) {
      assert ps[i] in ps;
    }
    assert MovedAll(t.fwd, ps) == MovedAll(t.fwd[a := n], ps);
  }

  /** The store after an uncopied object was copied and its tag overwritten. */
  function AfterCopy(s: Store, a: Addr): (r: (Store, Addr))
    requires s.chain != [] && a in s.mem && Allocatable(s, s.mem[a].obj.nbytes)
    ensures r.0.chain != []
  {
    var (t, n) := Allocated(s, s.mem[a].obj);
    (t.(mem := t.mem[a := s.mem[a].(forward := Some(n))]), n)
  }

  lemma NewAddress(s: Store, o: Object)
    requires s.chain != [] && Allocatable(s, o.nbytes)
    ensures var (s', n) := Allocated(s, o);
      && !InNew(s, n)
      && (forall m :: InNew(s', m) <==> InNew(s, m) || m == n)
      && s'.mem == s.mem[n := Cell(None, o)]
      && n.seg >= s.base
  {}

  lemma CopyKeepsOld(g: Start, s: Store, t: Trace, a: Addr)
    requires OldKept(g, s, t) && a in g.mem && a !in t.fwd && (forall b :: b in g.mem ==> b.seg < s.base)
    requires s.chain != [] && a in s.mem && Allocatable(s, s.mem[a].obj.nbytes)
    ensures OldKept(g, AfterCopy(s, a).0, Copied(t, a, AfterCopy(s, a).1))
  {
    NewAddress(s, s.mem[a].obj);
  }

  lemma CopyFills(g: Start, s: Store, t: Trace, a: Addr)
    requires NewFilled(g, s, t) && ScannedDone(g, t)
    requires a in g.mem && a !in t.fwd && (forall b :: b in g.mem ==> b.seg < s.base)
    requires s.chain != [] && a in s.mem && Allocatable(s, s.mem[a].obj.nbytes) && s.mem[a].obj == g.mem[a].obj
    ensures AfterCopy(s, a).1 !in t.origin
    ensures NewFilled(g, AfterCopy(s, a).0, Copied(t, a, AfterCopy(s, a).1))
  {
    NewAddress(s, s.mem[a].obj);
    hide Allocated, Image, Ready, FieldsDone, Allocatable, ScannedDone, InNew;
    var (s', n) := AfterCopy(s, a);
    var t' := Copied(t, a, n);
    assert !InNew(s, a) by { NotNew(s, a); }
    assert n !in t.origin && a !in t.origin;
    forall m | m in t'.origin ensures t'.origin[m] in g.mem && m in s'.mem && s'.mem[m] == CopyOf(g, t', m) {
      NoneScanned(g, t, n);
      if m in t.scanned {
        ImageStable(g, t, a, n, m);
      } else if m != n {
        assert s'.mem[m] == s.mem[m];
      }
    }
  }

  lemma NotNew(s: Store, a: Addr)
    requires a.seg < s.base
    ensures !InNew(s, a)
  {}

  lemma NoneScanned(g: Start, t: Trace, n: Addr)
    requires ScannedDone(g, t) && n !in t.origin
    ensures n !in t.scanned
  {}

  lemma CopyKeepsScanned(g: Start, t: Trace, a: Addr, n: Addr)
    requires ScannedDone(g, t) && n !in t.origin
    ensures ScannedDone(g, Copied(t, a, n))
  {
    var t' := Copied(t, a, n);
    forall m | m in t'.scanned && t'.origin[m] in g.mem ensures FieldsDone(g, t', g.mem[t'.origin[m]].obj) {
      assert FieldsDone(g, t, g.mem[t.origin[m]].obj);
    }
  }

  lemma CopyKeepsBijection(t: Trace, a: Addr, n: Addr)
    requires Bijective(t) && a !in t.fwd && n !in t.origin
    ensures Bijective(Copied(t, a, n))
  {}

  lemma CopyKeeps(g: Start, s: Store, t: Trace, a: Addr)
    requires Inv(g, s, t) && Calm(g) && WellFormed(g) && a in g.mem && a !in t.fwd && Live(g, a)
    ensures a in s.mem && Allocatable(s, s.mem[a].obj.nbytes)
    ensures Inv(g, AfterCopy(s, a).0, Copied(t, a, AfterCopy(s, a).1))
  {
    hide Live, Calm, Budget, CopiesAddUp, OldKept, NewFilled, ScannedDone, OnlyLive, Bijective;
    OldCell(g, s, t, a);
    StoreShape(g, s, t);
    BelowBase(g);
    CopyBudget(g, s, t, a);
    CopyFills(g, s, t, a);
    CopyKeepsOld(g, s, t, a);
    var (s', n) := AfterCopy(s, a);
    SameBudget(g, Allocated(s, g.mem[a].obj).0, s', Copied(t, a, n));
    CopyAddsUp(g, s, t, s', a, n);
    CopyKeepsBijection(t, a, n);
    CopyKeepsScanned(g, t, a, n);
    CopyKeepsLive(g, t, a, n);
  }

  lemma SameBudget(g: Start, s: Store, s': Store, t: Trace)
    requires Budget(g, s, t) && s.chain == s'.chain && s.minspace == s'.minspace
    ensures Budget(g, s', t)
  {}

  lemma BelowBase(g: Start)
    requires WellFormed(g)
    ensures forall a :: a in g.mem ==> a.seg < g.base
  {}

  lemma CopyKeepsLive(g: Start, t: Trace, a: Addr, n: Addr)
    requires OnlyLive(g, t) && Live(g, a)
    ensures OnlyLive(g, Copied(t, a, n))
  {}

  // ----- forwarding and scanning -----

  ghost predicate Extends(t: Trace, t': Trace) {
    && t'.scanned == t.scanned
    && (forall a :: a in t.fwd ==> a in t'.fwd && t'.fwd[a] == t.fwd[a])
  }

  /** Segments are only added at the end, and only the last one is allocated from. */
  ghost predicate Grown(s: Store, s': Store) {
    && |s.chain| <= |s'.chain|
    && (forall k :: 0 <= k < |s.chain| - 1 ==> s'.chain[k].count == s.chain[k].count)
    && (s.chain != [] ==> s'.chain[|s.chain| - 1].count >= s.chain[|s.chain| - 1].count)
  }

  lemma OldCell(g: Start, s: Store, t: Trace, a: Addr)
    requires Inv(g, s, t) && WellFormed(g) && a in g.mem
    ensures a in s.mem && s.mem[a] == Cell(if a in t.fwd then Some(t.fwd[a]) else None, g.mem[a].obj)
    ensures InOld(s, To(a))
  {}

  lemma StoreShape(g: Start, s: Store, t: Trace)
    requires Inv(g, s, t)
    ensures s.chain != [] && s.base == g.base && s.oldBase == g.oldBase
    ensures forall a :: a in t.fwd ==> a in g.mem
  {}

  lemma ForwardKeeps(g: Start, s: Store, t: Trace, p: Pointer) returns (t': Trace)
    requires Inv(g, s, t) && Calm(g) && WellFormed(g) && Sound(g, p)
    requires p.To? && p.addr in g.mem ==> Live(g, p.addr)
    requires s.chain != []
    ensures Forward(s, p).Some?
    ensures Inv(g, Forward(s, p).value.0, t') && Grown(s, Forward(s, p).value.0)
    ensures Forward(s, p).value.1 == Moved(t'.fwd, p)
    ensures Extends(t, t') && (p.To? && p.addr in g.mem ==> p.addr in t'.fwd)
    ensures t'.fwd == t.fwd ==> Forward(s, p).value.0.chain == s.chain
  {
    hide Inv, OldKept, NewFilled, ScannedDone, OnlyLive, Budget, CopiesAddUp, Bijective, Live, Calm, WellFormed;
    StoreShape(g, s, t);
    if p.To? && p.addr in g.mem {
      OldCell(g, s, t, p.addr);
    }
    t' := t;
    if p.To? && p.addr in g.mem && p.addr !in t.fwd {
      CopyKeeps(g, s, t, p.addr);
      t' := Copied(t, p.addr, AfterCopy(s, p.addr).1);
    }
  }

  lemma MovedStable(g: Start, t: Trace, t': Trace, ps: seq<Pointer>)
    requires Extends(t, t')
    requires forall p :: p in ps && p.To? ==> (p.addr in g.mem <==> p.addr in t.fwd)
    requires forall a :: a in t'.fwd ==> a in g.mem
    ensures MovedAll(t'.fwd, ps) == MovedAll(t.fwd, ps)
  {
    forall i | 0 <= i < |ps| ensures Moved(t'.fwd, ps[i]) == Moved(t.fwd, ps[i]) {
      assert ps[i] in ps;
    }
  }

  lemma GrownTwice(s: Store, s1: Store, s2: Store)
    requires Grown(s, s1) && Grown(s1, s2)
    ensures Grown(s, s2)
  {}

  lemma Unchanged(s: Store, t: Trace)
    ensures Grown(s, s) && Extends(t, t)
  {}

  lemma ExtendsTwice(t: Trace, t1: Trace, t2: Trace)
    requires Extends(t, t1) && Extends(t1, t2)
    ensures Extends(t, t2) && (t2.fwd == t.fwd ==> t1.fwd == t.fwd)
    ensures forall a :: a in t1.fwd ==> a in t2.fwd
  {
    if t2.fwd == t.fwd {
      assert t1.fwd == t.fwd by {
        assert forall a :: a in t1.fwd ==> a in t2.fwd;
      }
    }
  }

  lemma {:induction false} ForwardAllKeeps(g: Start, s: Store, t: Trace, ps: seq<Pointer>) returns (t': Trace)
    requires Inv(g, s, t) && Calm(g) && WellFormed(g) && s.chain != []
    requires forall p :: p in ps ==> Sound(g, p) && (p.To? && p.addr in g.mem ==> Live(g, p.addr))
    ensures ForwardAll(s, ps).Some?
    ensures Inv(g, ForwardAll(s, ps).value.0, t') && Grown(s, ForwardAll(s, ps).value.0)
    ensures ForwardAll(s, ps).value.1 == MovedAll(t'.fwd, ps)
    ensures Extends(t, t') && (forall p :: p in ps && p.To? && p.addr in g.mem ==> p.addr in t'.fwd)
    ensures t'.fwd == t.fwd ==> ForwardAll(s, ps).value.0.chain == s.chain
    decreases |ps|
  {
    hide Inv, OldKept, NewFilled, ScannedDone, OnlyLive, Budget, CopiesAddUp, Bijective, Live, Calm, WellFormed;
    hide Forward, Grown, Extends, Sound;
    t' := t;
    Unchanged(s, t);
    if ps == [] {
      assert MovedAll(t'.fwd, ps) == [];
    } else {
      var n := |ps| - 1;
      var t1 := ForwardAllKeeps(g, s, t, ps[..n]);
      var (s1, qs) := ForwardAll(s, ps[..n]).value;
      t' := ForwardKeeps(g, s1, t1, ps[n]);
      StoreShape(g, s1, t1);
      StoreShape(g, Forward(s1, ps[n]).value.0, t');
      MovedStable(g, t1, t', ps[..n]);
      GrownTwice(s, s1, Forward(s1, ps[n]).value.0);
      ExtendsTwice(t, t1, t');
      assert ps == ps[..n] + [ps[n]];
      assert MovedAll(t'.fwd, ps) == MovedAll(t'.fwd, ps[..n]) + [Moved(t'.fwd, ps[n])];
    }
  }

  lemma EdgeLive(g: Start, a: Addr, p: Pointer)
    requires Live(g, a) && p in Kept(g.mem[a].obj, g.rebound) && p.To? && p.addr in g.mem
    ensures Live(g, p.addr)
  {}

  function Scanned(t: Trace, n: Addr): Trace {
    t.(scanned := t.scanned + {n})
  }

  function FieldsSet(s: Store, n: Addr, qs: seq<Pointer>): Store
    requires n in s.mem
  {
    s.(mem := s.mem[n := s.mem[n].(obj := s.mem[n].obj.(fields := qs))])
  }

  lemma MarkFilled(g: Start, s: Store, t: Trace, n: Addr, qs: seq<Pointer>)
    requires NewFilled(g, s, t) && n in t.origin && n !in t.scanned && n in s.mem
    requires t.origin[n] in g.mem && qs == MovedAll(t.fwd, Kept(g.mem[t.origin[n]].obj, g.rebound))
    ensures NewFilled(g, FieldsSet(s, n, qs), Scanned(t, n))
  {
    var s', t' := FieldsSet(s, n, qs), Scanned(t, n);
    forall m | m in t'.origin ensures t'.origin[m] in g.mem && m in s'.mem && s'.mem[m] == CopyOf(g, t', m) {
      if m == n {
        assert s.mem[n] == CopyOf(g, t, n);
      }
    }
  }

  lemma MarkDone(g: Start, t: Trace, n: Addr)
    requires ScannedDone(g, t) && n in t.origin
    requires t.origin[n] in g.mem && FieldsDone(g, t, g.mem[t.origin[n]].obj)
    ensures ScannedDone(g, Scanned(t, n))
  {
    var t' := Scanned(t, n);
    forall m | m in t'.scanned && t'.origin[m] in g.mem ensures FieldsDone(g, t', g.mem[t'.origin[m]].obj) {
      if m in t.scanned {
        assert FieldsDone(g, t, g.mem[t.origin[m]].obj);
      }
    }
  }

  lemma MarkOld(g: Start, s: Store, t: Trace, n: Addr, qs: seq<Pointer>)
    requires OldKept(g, s, t) && OnlyLive(g, t) && Bijective(t) && n in s.mem && n !in g.mem
    ensures OldKept(g, FieldsSet(s, n, qs), Scanned(t, n)) && OnlyLive(g, Scanned(t, n)) && Bijective(Scanned(t, n))
  {
    hide Live;
  }

  lemma MarkSums(g: Start, s: Store, t: Trace, n: Addr, qs: seq<Pointer>)
    requires Budget(g, s, t) && CopiesAddUp(g, s, t) && n in s.mem
    ensures Budget(g, FieldsSet(s, n, qs), Scanned(t, n)) && CopiesAddUp(g, FieldsSet(s, n, qs), Scanned(t, n))
  {
    hide Live;
    assert CopiedCosts(g, Scanned(t, n)) == CopiedCosts(g, t);
    assert Uncopied(g, Scanned(t, n)) == Uncopied(g, t);
  }

  lemma MarkScanned(g: Start, s: Store, t: Trace, n: Addr, qs: seq<Pointer>)
    requires Inv(g, s, t) && n in t.origin && n !in t.scanned && n in s.mem && n !in g.mem
    requires t.origin[n] in g.mem && FieldsDone(g, t, g.mem[t.origin[n]].obj)
    requires qs == MovedAll(t.fwd, Kept(g.mem[t.origin[n]].obj, g.rebound))
    ensures Inv(g, FieldsSet(s, n, qs), Scanned(t, n))
  {
    hide OldKept, NewFilled, ScannedDone, OnlyLive, Budget, CopiesAddUp, Bijective, FieldsDone, MovedAll;
    MarkFilled(g, s, t, n, qs);
    MarkDone(g, t, n);
    MarkOld(g, s, t, n, qs);
    MarkSums(g, s, t, n, qs);
  }

  lemma NewCell(g: Start, s: Store, t: Trace, n: Addr)
    requires Inv(g, s, t) && WellFormed(g) && InNew(s, n)
    ensures n in t.origin && t.origin[n] in g.mem && n !in g.mem && n in s.mem
    ensures t.origin[n] in t.fwd && t.fwd[t.origin[n]] == n && Live(g, t.origin[n])
    ensures n !in t.scanned ==> s.mem[n] == Cell(None, g.mem[t.origin[n]].obj)
  {}

  lemma OldCopy(g: Start, s: Store, t: Trace, a: Addr)
    requires Inv(g, s, t) && a in t.fwd
    ensures t.fwd[a] in t.origin && t.origin[t.fwd[a]] == a && InNew(s, t.fwd[a])
  {}

  /** The fields a scan forwards are sound pointers to live objects. */
  lemma KeptFields(g: Start, a: Addr)
    requires WellFormed(g) && Live(g, a)
    ensures forall p :: p in Kept(g.mem[a].obj, g.rebound) ==>
      Sound(g, p) && (p.To? && p.addr in g.mem ==> Live(g, p.addr))
  {
    forall p | p in Kept(g.mem[a].obj, g.rebound)
      ensures Sound(g, p) && (p.To? && p.addr in g.mem ==> Live(g, p.addr))
    {
      if p.To? {
        assert p in g.mem[a].obj.fields;
      }
      if p.To? && p.addr in g.mem {
        EdgeLive(g, a, p);
      }
    }
  }

  lemma ScanKeeps(g: Start, s: Store, t: Trace, n: Addr) returns (t': Trace)
    requires Inv(g, s, t) && Calm(g) && WellFormed(g) && InNew(s, n) && n !in t.scanned && s.chain != []
    ensures ScanObject(s, n, g.rebound).Some?
    ensures Inv(g, ScanObject(s, n, g.rebound).value, t') && Grown(s, ScanObject(s, n, g.rebound).value)
    ensures t'.scanned == t.scanned + {n}
    ensures forall a :: a in t.fwd ==> a in t'.fwd && t'.fwd[a] == t.fwd[a]
    ensures t'.fwd == t.fwd ==> ScanObject(s, n, g.rebound).value.chain == s.chain
  {
    hide Inv, OldKept, NewFilled, ScannedDone, OnlyLive, Budget, CopiesAddUp, Bijective, Live, Calm, WellFormed;
    NewCell(g, s, t, n);
    var a := t.origin[n];
    var ps := Kept(g.mem[a].obj, g.rebound);
    KeptFields(g, a);
    var t1 := ForwardAllKeeps(g, s, t, ps);
    var (s1, qs) := ForwardAll(s, ps).value;
    assert t1.fwd[a] == n;
    OldCopy(g, s1, t1, a);
    NewCell(g, s1, t1, n);
    MarkScanned(g, s1, t1, n, qs);
    t' := Scanned(t1, n);
  }
}
