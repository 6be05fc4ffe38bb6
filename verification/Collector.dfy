/** gc.c: the copying collector.  A collection replaces the reachable graph by an isomorphic
    one exactly when the copies that the scan never came to need no scanning. */
module Collector {
  import opened CStrings
  import opened Heaps
  import opened Copying

  // ----- what scanning keeps -----

  /** The scanned copies lie where the scan has been. */
  ghost predicate Behind(x: Scan, t: Trace) {
    forall n :: n in t.scanned ==> Passed(x, n)
  }

  /** The scan has been at n. */
  predicate Passed(x: Scan, n: Addr) {
    || x.finished
    || n.seg < x.store.base + x.below
    || x.store.base + x.at < n.seg <= x.store.base + x.front
    || (n.seg == x.store.base + x.at && n.idx < x.finger)
  }

  /** Behind the scan, a copy was scanned or came too late. */
  ghost predicate Accounted(x: Scan, t: Trace) {
    forall n :: InNew(x.store, n) && Passed(x, n) ==> n in t.scanned || n in x.late
  }

  /** The late copies are unscanned copies, and the scan does not come back to them. */
  ghost predicate LateBehind(x: Scan, t: Trace) {
    forall n :: n in x.late ==>
      && InNew(x.store, n) && n !in t.scanned
      && (n.seg < x.store.base + x.below || (n.seg == x.store.base + x.front && x.at < x.front))
  }

  ghost predicate ScanInv(g: Start, x: Scan, t: Trace) {
    ScanShape(x) && Inv(g, x.store, t) && Behind(x, t) && Accounted(x, t) && LateBehind(x, t)
  }

  lemma NewBase(g: Start, s: Store, t: Trace)
    requires Inv(g, s, t)
    ensures s.base == g.base && s.chain != [] && t.scanned <= t.origin.Keys
    ensures forall n :: n in t.origin <==> InNew(s, n)
  {}

  /** The scan after the object at its finger. */
  function NextObject(x: Scan, s': Store): Scan
    requires ScanShape(x) && x.front < |s'.chain|
  {
    var late := if x.at < x.front then x.late + Appended(x.store, s', x.front) else x.late;
    x.(store := s', finger := x.finger + 1, late := late)
  }

  /** A copy that is new in s' lies in the last segment of s or after it. */
  lemma GrownNew(s: Store, s': Store, n: Addr)
    requires Grown(s, s') && s'.base == s.base && s.chain != []
    ensures InNew(s, n) ==> InNew(s', n)
    ensures InNew(s', n) && !InNew(s, n) ==>
      || n.seg >= s.base + |s.chain|
      || (n.seg == s.base + |s.chain| - 1 && s.chain[|s.chain| - 1].count <= n.idx < s'.chain[|s.chain| - 1].count)
  {}

  lemma AppendedExactly(s: Store, s': Store, k: nat, n: Addr)
    requires k < |s.chain| && k < |s'.chain|
    ensures n in Appended(s, s', k) <==> n.seg == s.base + k && s.chain[k].count <= n.idx < s'.chain[k].count
  {
    if n.seg == s.base + k {
      assert AddrIn(s, k, n.idx) == n;
    }
  }

  lemma OneMore(x: Scan, s': Store, t: Trace, scanned: set<Addr>)
    requires ScanShape(x) && !x.finished && x.finger < x.store.chain[x.at].count
    requires Grown(x.store, s') && s'.base == x.store.base
    requires scanned == t.scanned + {Addr(x.store.base + x.at, x.finger)}
    requires Behind(x, t) && Accounted(x, t) && LateBehind(x, t) && (forall m :: m in t.scanned ==> InNew(x.store, m))
    ensures var y, t' := NextObject(x, s'), t.(scanned := scanned);
      ScanShape(y) && Behind(y, t') && Accounted(y, t') && LateBehind(y, t')
  {
    var y, t' := NextObject(x, s'), t.(scanned := scanned);
    hide InNew, Grown, Appended;
    assert ScanShape(y) && x.store.chain[x.at].count <= s'.chain[x.at].count by { GrownShape(x.store, s', x.at, x.front); }
    forall n ensures n in Appended(x.store, s', x.front) <==>
      n.seg == x.store.base + x.front && x.store.chain[x.front].count <= n.idx < s'.chain[x.front].count
    {
      AppendedExactly(x.store, s', x.front, n);
    }
    forall n | InNew(s', n) && Passed(y, n) ensures n in t'.scanned || n in y.late {
      GrownNew(x.store, s', n);
      OldOrNew(x, s', n);
    }
    forall n | n in y.late
      ensures InNew(y.store, n) && n !in t'.scanned
      ensures n.seg < y.store.base + y.below || (n.seg == y.store.base + y.front && y.at < y.front)
    {
      GrownNew(x.store, s', n);
      if n !in x.late {
        AppendedIsNew(x, s', n, t);
      }
    }
  }

  lemma GrownShape(s: Store, s': Store, at: nat, front: nat)
    requires Grown(s, s') && at <= front < |s.chain|
    ensures front < |s'.chain| && s.chain[at].count <= s'.chain[at].count
  {}

  /** Where the scan has been, a new copy is one appended to the front segment. */
  lemma OldOrNew(x: Scan, s': Store, n: Addr)
    requires ScanShape(x) && !x.finished && x.finger < x.store.chain[x.at].count
    requires Grown(x.store, s') && s'.base == x.store.base
    requires InNew(s', n) && Passed(NextObject(x, s'), n)
    ensures InNew(x.store, n) || n in NextObject(x, s').late
    ensures InNew(x.store, n) ==> Passed(x, n) || n == Addr(x.store.base + x.at, x.finger)
  {
    GrownNew(x.store, s', n);
    AppendedExactly(x.store, s', x.front, n);
  }

  lemma AppendedIsNew(x: Scan, s': Store, n: Addr, t: Trace)
    requires ScanShape(x) && x.at < x.front && Grown(x.store, s') && s'.base == x.store.base
    requires n in Appended(x.store, s', x.front) && (forall m :: m in t.scanned ==> InNew(x.store, m))
    ensures InNew(s', n) && n !in t.scanned
  {
    AppendedExactly(x.store, s', x.front, n);
  }

  /** The scan leaves a segment, or ends a pass. */
  lemma SegmentEnds(g: Start, x: Scan, t: Trace)
    requires ScanShape(x) && !x.finished && x.finger >= x.store.chain[x.at].count
    requires Behind(x, t) && Accounted(x, t) && LateBehind(x, t)
    ensures ScanStep(x, g.rebound).Some?
    ensures var y := ScanStep(x, g.rebound).value; Behind(y, t) && Accounted(y, t) && LateBehind(y, t)
  {
    hide ScanObject;
  }

  lemma StepKeeps(g: Start, x: Scan, t: Trace) returns (t': Trace)
    requires ScanInv(g, x, t) && Calm(g) && WellFormed(g)
    ensures ScanStep(x, g.rebound).Some? && ScanInv(g, ScanStep(x, g.rebound).value, t')
    ensures forall a :: a in t.fwd ==> a in t'.fwd && t'.fwd[a] == t.fwd[a]
    ensures t'.fwd == t.fwd ==> ScanStep(x, g.rebound).value.store.chain == x.store.chain
  {
    hide Inv, Calm, WellFormed, ScanObject, Behind, Accounted, LateBehind, Grown, Appended;
    t' := t;
    NewBase(g, x.store, t);
    if x.finished {
    } else if x.finger < x.store.chain[x.at].count {
      var n := Addr(x.store.base + x.at, x.finger);
      NotYet(g, x, t);
      t' := ScanKeeps(g, x.store, t, n);
      var s' := ScanObject(x.store, n, g.rebound).value;
      NewBase(g, s', t');
      GrownShape(x.store, s', x.at, x.front);
      OneMore(x, s', t, t'.scanned);
      SameScanned(NextObject(x, s'), t.(scanned := t'.scanned), t');
    } else {
      SegmentEnds(g, x, t);
    }
  }

  /** The object at the finger was not scanned yet. */
  lemma NotYet(g: Start, x: Scan, t: Trace)
    requires ScanShape(x) && !x.finished && x.finger < x.store.chain[x.at].count && Behind(x, t)
    ensures Addr(x.store.base + x.at, x.finger) !in t.scanned && InNew(x.store, Addr(x.store.base + x.at, x.finger))
  {}

  lemma SameScanned(x: Scan, t: Trace, t': Trace)
    requires t.scanned == t'.scanned
    ensures Behind(x, t) <==> Behind(x, t')
    ensures Accounted(x, t) <==> Accounted(x, t')
    ensures LateBehind(x, t) <==> LateBehind(x, t')
  {}

  /** At the end of the scan the late copies are exactly the unscanned ones; there are none if
      everything fits one segment. */
  lemma LateExactly(g: Start, x: Scan, t: Trace)
    requires ScanInv(g, x, t) && x.finished
    ensures x.late == t.origin.Keys - t.scanned
    ensures |x.store.chain| == 1 ==> x.late == {}
  {
    hide Inv;
    NewBase(g, x.store, t);
    assert forall n :: n in t.origin.Keys - t.scanned ==> InNew(x.store, n) && Passed(x, n);
  }

  // ----- isomorphic graphs -----

  /** fwd carries exactly the reachable objects to the objects of m, one to one; fields and
      roots follow it, and nothing in m or among the roots points to old space. */
  ghost predicate Isomorphic(g: Start, m: Memory, roots: seq<Pointer>, fwd: map<Addr, Addr>) {
    && (forall a :: a in fwd <==> Live(g, a))
    && (forall a, b :: a in fwd && b in fwd && fwd[a] == fwd[b] ==> a == b)
    && fwd.Values == m.Keys
    && (forall a :: a in fwd ==> CarriedOver(g, m, fwd, a))
    && roots == MovedAll(fwd, g.roots)
    && (forall p :: p in roots ==> !PointsBack(g, p))
    && (forall n, p :: n in m && p in m[n].obj.fields ==> !PointsBack(g, p))
  }

  /** m has the image of a where fwd sends it. */
  predicate CarriedOver(g: Start, m: Memory, fwd: map<Addr, Addr>, a: Addr)
    requires a in fwd
  {
    a in g.mem && fwd[a] in m && m[fwd[a]] == Cell(None, Image(fwd, g.mem[a].obj, g.rebound))
  }

  predicate PointsBack(g: Start, p: Pointer) {
    p.To? && g.oldBase <= p.addr.seg < g.base
  }

  ghost predicate RootsDone(g: Start, t: Trace) {
    forall p :: p in g.roots && p.To? && p.addr in g.mem ==> p.addr in t.fwd
  }

  /** New space alone, after old space was freed. */
  function Freed(s: Store): Memory {
    map a | a in s.mem && a.seg >= s.base :: s.mem[a]
  }

  lemma FreedMemory(g: Start, s: Store, t: Trace)
    requires Inv(g, s, t) && WellFormed(g)
    ensures Freed(s).Keys == t.origin.Keys == t.fwd.Values
    ensures forall n :: n in t.origin ==> t.origin[n] in g.mem && Freed(s)[n] == CopyOf(g, t, n)
  {
    hide Budget, CopiesAddUp, ScannedDone, OnlyLive;
    forall n | n in t.origin ensures n in t.fwd.Values {
      assert t.fwd[t.origin[n]] == n;
    }
  }

  /** No kept field of these objects points to old space. */
  ghost predicate KeptClear(g: Start, m: Memory, objects: set<Addr>) {
    forall n, p :: n in objects && n in m && p in Kept(m[n].obj, g.rebound) ==> !PointsBack(g, p)
  }

  /** These objects need no scanning: no field points to old space, and none is to be dropped. */
  ghost predicate Harmless(g: Start, m: Memory, objects: set<Addr>) {
    KeptClear(g, m, objects) && forall n :: n in objects && n in m ==> Kept(m[n].obj, g.rebound) == m[n].obj.fields
  }

  /** As Isomorphic, but an object of m may still have the fields that its scan routine drops. */
  ghost predicate Settled(g: Start, m: Memory, roots: seq<Pointer>, fwd: map<Addr, Addr>) {
    && (forall a :: a in fwd <==> Live(g, a))
    && (forall a, b :: a in fwd && b in fwd && fwd[a] == fwd[b] ==> a == b)
    && fwd.Values == m.Keys
    && (forall a :: a in fwd ==> SettledObject(g, m, fwd, a))
    && roots == MovedAll(fwd, g.roots)
    && (forall p :: p in roots ==> !PointsBack(g, p))
    && KeptClear(g, m, m.Keys)
  }

  function KeptOnly(o: Object, rebound: bool): Object {
    o.(fields := Kept(o, rebound))
  }

  predicate SettledObject(g: Start, m: Memory, fwd: map<Addr, Addr>, a: Addr)
    requires a in fwd
  {
    && a in g.mem && fwd[a] in m && m[fwd[a]].forward.None?
    && KeptOnly(m[fwd[a]].obj, g.rebound) == Image(fwd, g.mem[a].obj, g.rebound)
  }

  lemma KeptTwice(fwd: map<Addr, Addr>, o: Object, rebound: bool)
    ensures Kept(Image(fwd, o, rebound), rebound) == MovedAll(fwd, Kept(o, rebound)) == Image(fwd, o, rebound).fields
  {
    assert Kept(Image(fwd, o, rebound), rebound) == Image(fwd, o, rebound).fields;
  }

  /** What is missing to an isomorphism when the graph is settled. */
  lemma IsomorphicIsSettled(g: Start, m: Memory, roots: seq<Pointer>, fwd: map<Addr, Addr>)
    ensures Isomorphic(g, m, roots, fwd) <==>
      Settled(g, m, roots, fwd) && forall n :: n in m ==> Kept(m[n].obj, g.rebound) == m[n].obj.fields
  {
    hide Live, Image, PointsBack, MovedAll, Kept;
    if Isomorphic(g, m, roots, fwd) {
      forall a | a in fwd ensures SettledObject(g, m, fwd, a) && Kept(m[fwd[a]].obj, g.rebound) == m[fwd[a]].obj.fields {
        KeptTwice(fwd, g.mem[a].obj, g.rebound);
        SameObject(m[fwd[a]].obj, g.rebound);
      }
      forall n | n in m ensures Kept(m[n].obj, g.rebound) == m[n].obj.fields {
        assert n in fwd.Values;
      }
    }
    if Settled(g, m, roots, fwd) && forall n :: n in m ==> Kept(m[n].obj, g.rebound) == m[n].obj.fields {
      forall a | a in fwd ensures CarriedOver(g, m, fwd, a) {
        assert SettledObject(g, m, fwd, a);
        SameObject(m[fwd[a]].obj, g.rebound);
      }
    }
  }

  lemma SameObject(o: Object, rebound: bool)
    ensures Kept(o, rebound) == o.fields ==> KeptOnly(o, rebound) == o
  {}

  // ----- an isomorphic graph, field by field -----

  /** A collection drops the second field of a variable with captured bindings, its cached
      environment string, when a binding was changed; it carries over every other field. */
  predicate Survives(o: Object, i: nat, rebound: bool) {
    i < |o.fields| && !(rebound && o.kind == Variable(true) && |o.fields| == 2 && i == 1)
  }

  /** Field i of o points to a and is not dropped. */
  predicate Edge(g: Start, o: Object, i: nat, a: Addr) {
    Survives(o, i, g.rebound) && o.fields[i] == To(a) && a in g.mem
  }

  /** A pointer into the old graph leads to the copy; any other is as it was. */
  predicate Led(g: Start, fwd: map<Addr, Addr>, p: Pointer, q: Pointer) {
    if p.To? && p.addr in g.mem then p.addr in fwd && q == To(fwd[p.addr]) else q == p
  }

  predicate SameBut(g: Start, fwd: map<Addr, Addr>, o: Object, o': Object) {
    && o' == o.(fields := o'.fields) && |o'.fields| == |o.fields|
    && forall i: nat :: i < |o.fields| ==>
         if Survives(o, i, g.rebound) then Led(g, fwd, o.fields[i], o'.fields[i]) else o'.fields[i] == NULL
  }

  /** Every live object has a copy of its own, every surviving field and every root leads to a
      copy, and there is no other object. */
  ghost predicate Transplanted(g: Start, m: Memory, roots: seq<Pointer>, fwd: map<Addr, Addr>) {
    && (forall a :: Live(g, a) ==> a in g.mem && a in fwd && fwd[a] in m && SameBut(g, fwd, g.mem[a].obj, m[fwd[a]].obj))
    && (forall a, b :: Live(g, a) && Live(g, b) && a in fwd && b in fwd && fwd[a] == fwd[b] ==> a == b)
    && (forall n :: n in m ==> exists a :: Live(g, a) && a in fwd && fwd[a] == n)
    && |roots| == |g.roots| && (forall i :: 0 <= i < |roots| ==> Led(g, fwd, g.roots[i], roots[i]))
  }

  /** Which objects are live: those a root or a surviving field of a live object points to. */
  lemma LiveExactly(g: Start, a: Addr)
    ensures Live(g, a) <==> a in g.mem && (To(a) in g.roots || exists b, i :: Live(g, b) && Edge(g, g.mem[b].obj, i, a))
  {
    hide Closed, Covers;
    if b, i :| Live(g, b) && Edge(g, g.mem[b].obj, i, a) {
      EdgeKept(g, b, i, a);
      forall live | Closed(g, live) && Covers(g, live) ensures a in live {
        InClosed(g, live, b, To(a));
      }
    }
    if a in g.mem && To(a) in g.roots {
      forall live | Closed(g, live) && Covers(g, live) ensures a in live {
        InCover(g, live, To(a));
      }
    }
    if Live(g, a) && To(a) !in g.roots && !exists b, i :: Live(g, b) && Edge(g, g.mem[b].obj, i, a) {
      WithoutOne(g, a);
    }
  }

  lemma InClosed(g: Start, live: set<Addr>, b: Addr, p: Pointer)
    requires Closed(g, live) && b in live && b in g.mem && p in Kept(g.mem[b].obj, g.rebound) && p.To? && p.addr in g.mem
    ensures p.addr in live
  {}

  lemma InCover(g: Start, live: set<Addr>, p: Pointer)
    requires Covers(g, live) && p in g.roots && p.To? && p.addr in g.mem
    ensures p.addr in live
  {}

  lemma EdgeKept(g: Start, b: Addr, i: nat, a: Addr)
    requires b in g.mem && Edge(g, g.mem[b].obj, i, a)
    ensures To(a) in Kept(g.mem[b].obj, g.rebound)
  {
    assert Kept(g.mem[b].obj, g.rebound)[i] == To(a);
  }

  /** A kept field is a surviving one, or NULL. */
  lemma KeptEdge(g: Start, b: Addr, a: Addr) returns (i: nat)
    requires b in g.mem && To(a) in Kept(g.mem[b].obj, g.rebound) && a in g.mem
    ensures Edge(g, g.mem[b].obj, i, a)
  {
    i :| i < |g.mem[b].obj.fields| && Kept(g.mem[b].obj, g.rebound)[i] == To(a);
  }

  /** What nothing points to can be left out of the live objects. */
  lemma WithoutOne(g: Start, a: Addr)
    requires To(a) !in g.roots && !exists b, i :: Live(g, b) && Edge(g, g.mem[b].obj, i, a)
    ensures var live := set b | b in g.mem && Live(g, b) && b != a;
      Closed(g, live) && Covers(g, live)
  {
    hide Kept, Edge;
    var live := set b | b in g.mem && Live(g, b) && b != a;
    forall b, p | b in live && b in g.mem && p in Kept(g.mem[b].obj, g.rebound) && p.To? && p.addr in g.mem
      ensures p.addr in live
    {
      var i := KeptEdge(g, b, p.addr);
      forall all | Closed(g, all) && Covers(g, all) ensures p.addr in all {
        InClosed(g, all, b, p);
      }
    }
    forall p | p in g.roots && p.To? && p.addr in g.mem ensures p.addr in live {
      assert p == To(p.addr);
    }
  }

  /** An isomorphic graph is that. */
  lemma IsomorphicCarries(g: Start, m: Memory, roots: seq<Pointer>, fwd: map<Addr, Addr>)
    requires Isomorphic(g, m, roots, fwd)
    ensures Transplanted(g, m, roots, fwd)
  {
    hide Live, Edge;
    forall a | Live(g, a) ensures a in g.mem && a in fwd && fwd[a] in m && SameBut(g, fwd, g.mem[a].obj, m[fwd[a]].obj) {
      assert a in fwd && CarriedOver(g, m, fwd, a);
      var o := g.mem[a].obj;
      forall i: nat | Survives(o, i, g.rebound) ensures Led(g, fwd, o.fields[i], MovedAll(fwd, Kept(o, g.rebound))[i]) {
        LedByField(g, fwd, a, i);
      }
    }
    forall n | n in m ensures exists a :: Live(g, a) && a in fwd && fwd[a] == n {
      assert n in fwd.Values;
      var a :| a in fwd && fwd[a] == n;
      assert Live(g, a);
    }
    forall i | 0 <= i < |roots| ensures Led(g, fwd, g.roots[i], roots[i]) {
      var p := g.roots[i];
      if p.To? {
        LiveExactly(g, p.addr);
      }
      LiveIsThere(g, fwd, p);
    }
  }

  lemma LiveIsThere(g: Start, fwd: map<Addr, Addr>, p: Pointer)
    requires forall a :: a in fwd <==> Live(g, a)
    requires p.To? && p.addr in g.mem ==> Live(g, p.addr)
    ensures Led(g, fwd, p, Moved(fwd, p))
  {}

  lemma LedByField(g: Start, fwd: map<Addr, Addr>, a: Addr, i: nat)
    requires (forall b :: b in fwd <==> Live(g, b)) && Live(g, a) && a in g.mem && Survives(g.mem[a].obj, i, g.rebound)
    ensures Led(g, fwd, g.mem[a].obj.fields[i], MovedAll(fwd, Kept(g.mem[a].obj, g.rebound))[i])
  {
    hide Live;
    var p := g.mem[a].obj.fields[i];
    if p.To? && p.addr in g.mem {
      assert Edge(g, g.mem[a].obj, i, p.addr);
      LiveExactly(g, p.addr);
    }
    LiveIsThere(g, fwd, p);
  }

  lemma MovedForward(g: Start, s: Store, t: Trace, p: Pointer)
    requires Inv(g, s, t) && WellFormed(g) && Sound(g, p) && (p.To? && p.addr in g.mem ==> p.addr in t.fwd)
    ensures !PointsBack(g, Moved(t.fwd, p))
  {
    hide Budget, CopiesAddUp, ScannedDone, OnlyLive, OldKept;
    if p.To? && p.addr in t.fwd {
      assert InNew(s, t.fwd[p.addr]);
    }
  }

  lemma SoundRoot(g: Start, i: nat)
    requires WellFormed(g) && i < |g.roots|
    ensures Sound(g, g.roots[i])
  {}

  lemma ScannedFields(g: Start, s: Store, t: Trace, n: Addr)
    requires Inv(g, s, t) && n in t.scanned && n in t.origin && t.origin[n] in g.mem
    ensures FieldsDone(g, t, g.mem[t.origin[n]].obj)
  {
    hide Budget, CopiesAddUp, OnlyLive, OldKept, Bijective, NewFilled;
  }

  /** A copy that was scanned has its image's fields, and none points back. */
  lemma ScannedCopy(g: Start, s: Store, t: Trace, n: Addr)
    requires Inv(g, s, t) && WellFormed(g) && n in t.origin && n in t.scanned
    ensures n in Freed(s) && Kept(Freed(s)[n].obj, g.rebound) == Freed(s)[n].obj.fields
    ensures forall p :: p in Freed(s)[n].obj.fields ==> !PointsBack(g, p)
  {
    hide Inv, Live, WellFormed, PointsBack, Sound;
    FreedMemory(g, s, t);
    NewBase(g, s, t);
    NewCell(g, s, t, n);
    var a := t.origin[n];
    var ps := Kept(g.mem[a].obj, g.rebound);
    KeptTwice(t.fwd, g.mem[a].obj, g.rebound);
    KeptFields(g, a);
    ScannedFields(g, s, t, n);
    forall p | p in Freed(s)[n].obj.fields ensures !PointsBack(g, p) {
      var i :| 0 <= i < |ps| && Moved(t.fwd, ps[i]) == p;
      assert ps[i] in ps;
      MovedForward(g, s, t, ps[i]);
    }
  }

  /** An unscanned copy is the object itself; with no kept field to old space it is settled. */
  lemma UnscannedCopy(g: Start, s: Store, t: Trace, n: Addr)
    requires Inv(g, s, t) && WellFormed(g) && n in t.origin && n !in t.scanned
    ensures t.origin[n] in g.mem && n in Freed(s) && Freed(s)[n] == Cell(None, g.mem[t.origin[n]].obj)
    ensures (forall p :: p in Kept(Freed(s)[n].obj, g.rebound) ==> !PointsBack(g, p)) ==>
      MovedAll(t.fwd, Kept(g.mem[t.origin[n]].obj, g.rebound)) == Kept(g.mem[t.origin[n]].obj, g.rebound)
  {
    hide Inv, Live, WellFormed;
    FreedMemory(g, s, t);
    StoreShape(g, s, t);
    OldSegments(g);
    var ps := Kept(g.mem[t.origin[n]].obj, g.rebound);
    if forall p :: p in Kept(Freed(s)[n].obj, g.rebound) ==> !PointsBack(g, p) {
      forall i | 0 <= i < |ps| ensures Moved(t.fwd, ps[i]) == ps[i] {
        assert ps[i] in ps;
      }
      assert MovedAll(t.fwd, ps) == ps;
    }
  }

  lemma OldSegments(g: Start)
    requires WellFormed(g)
    ensures forall a :: a in g.mem ==> g.oldBase <= a.seg < g.base
  {}

  /** What a copied object points to was copied, if the unscanned copies point nowhere back. */
  lemma EdgeCopied(g: Start, s: Store, t: Trace, late: set<Addr>, a: Addr, p: Pointer)
    requires Inv(g, s, t) && WellFormed(g) && late == t.origin.Keys - t.scanned && KeptClear(g, Freed(s), late)
    requires a in t.fwd && a in g.mem && p in Kept(g.mem[a].obj, g.rebound) && p.To? && p.addr in g.mem
    ensures p.addr in t.fwd
  {
    hide Inv, Live, WellFormed;
    OldCopy(g, s, t, a);
    OldSegments(g);
    var n := t.fwd[a];
    assert PointsBack(g, p);
    if n in t.scanned {
      ScannedFields(g, s, t, n);
    } else {
      UnscannedCopy(g, s, t, n);
    }
  }

  /** Then exactly the reachable objects were copied. */
  lemma ExactlyLive(g: Start, s: Store, t: Trace, late: set<Addr>)
    requires Inv(g, s, t) && WellFormed(g) && RootsDone(g, t)
    requires late == t.origin.Keys - t.scanned && KeptClear(g, Freed(s), late)
    ensures forall a :: a in t.fwd <==> Live(g, a)
  {
    hide Inv, WellFormed, KeptClear;
    forall a, p | a in t.fwd.Keys && a in g.mem && p in Kept(g.mem[a].obj, g.rebound) && p.To? && p.addr in g.mem
      ensures p.addr in t.fwd.Keys
    {
      EdgeCopied(g, s, t, late, a, p);
    }
    assert Closed(g, t.fwd.Keys);
    assert Covers(g, t.fwd.Keys);
    CopiedLive(g, s, t);
  }

  lemma CopiedLive(g: Start, s: Store, t: Trace)
    requires Inv(g, s, t)
    ensures forall a :: a in t.fwd ==> Live(g, a)
  {
    hide Live;
  }

  /** The copies settle exactly when no kept field of an unscanned one points to old space. */
  lemma SettledExactly(g: Start, s: Store, t: Trace, late: set<Addr>)
    requires Inv(g, s, t) && WellFormed(g) && RootsDone(g, t) && late == t.origin.Keys - t.scanned
    ensures Settled(g, Freed(s), MovedAll(t.fwd, g.roots), t.fwd) <==> KeptClear(g, Freed(s), late)
  {
    hide Inv, WellFormed, Live, Image, RootsDone;
    var m, roots := Freed(s), MovedAll(t.fwd, g.roots);
    FreedMemory(g, s, t);
    if KeptClear(g, m, late) {
      ExactlyLive(g, s, t, late);
      forall a | a in t.fwd
        ensures SettledObject(g, m, t.fwd, a)
        ensures t.fwd[a] in t.origin && t.origin[t.fwd[a]] == a
      {
        StoreShape(g, s, t);
        OldCopy(g, s, t, a);
        SettledCopy(g, s, t, late, a);
      }
      RootsForward(g, s, t);
      forall n, p | n in m && p in Kept(m[n].obj, g.rebound) ensures !PointsBack(g, p) {
        if n in t.scanned {
          ScannedCopy(g, s, t, n);
        }
      }
    }
  }

  lemma RootsForward(g: Start, s: Store, t: Trace)
    requires Inv(g, s, t) && WellFormed(g) && RootsDone(g, t)
    ensures forall p :: p in MovedAll(t.fwd, g.roots) ==> !PointsBack(g, p)
  {
    hide Inv, WellFormed;
    var roots := MovedAll(t.fwd, g.roots);
    forall p | p in roots ensures !PointsBack(g, p) {
      var i :| 0 <= i < |roots| && roots[i] == p;
      SoundRoot(g, i);
      assert g.roots[i] in g.roots;
      MovedForward(g, s, t, g.roots[i]);
    }
  }

  lemma SettledCopy(g: Start, s: Store, t: Trace, late: set<Addr>, a: Addr)
    requires Inv(g, s, t) && WellFormed(g) && late == t.origin.Keys - t.scanned && KeptClear(g, Freed(s), late)
    requires a in t.fwd
    ensures SettledObject(g, Freed(s), t.fwd, a)
  {
    hide Inv, WellFormed, Live, PointsBack;
    StoreShape(g, s, t);
    OldCopy(g, s, t, a);
    FreedMemory(g, s, t);
    var n := t.fwd[a];
    if n in t.scanned {
      ScannedCopy(g, s, t, n);
    } else {
      UnscannedCopy(g, s, t, n);
    }
  }

  /** The copies are an isomorphic image of the reachable graph, under the addresses they went
      to, exactly when the unscanned ones need no scanning; otherwise they are under none. */
  lemma IsomorphicExactly(g: Start, s: Store, t: Trace, late: set<Addr>)
    requires Inv(g, s, t) && WellFormed(g) && RootsDone(g, t) && late == t.origin.Keys - t.scanned
    ensures Isomorphic(g, Freed(s), MovedAll(t.fwd, g.roots), t.fwd) <==> Harmless(g, Freed(s), late)
    ensures forall f :: Isomorphic(g, Freed(s), MovedAll(t.fwd, g.roots), f) ==> Harmless(g, Freed(s), late)
  {
    hide Inv, WellFormed, RootsDone, Isomorphic, Settled;
    var m, roots := Freed(s), MovedAll(t.fwd, g.roots);
    FreedMemory(g, s, t);
    SettledExactly(g, s, t, late);
    IsomorphicIsSettled(g, m, roots, t.fwd);
    forall n | n in m && n !in late ensures Kept(m[n].obj, g.rebound) == m[n].obj.fields {
      ScannedCopy(g, s, t, n);
    }
    forall f | Isomorphic(g, m, roots, f) ensures Harmless(g, m, late) {
      IsomorphicIsSettled(g, m, roots, f);
      SettledClear(g, m, roots, f, late);
    }
  }

  lemma SettledClear(g: Start, m: Memory, roots: seq<Pointer>, fwd: map<Addr, Addr>, objects: set<Addr>)
    requires Settled(g, m, roots, fwd)
    ensures KeptClear(g, m, objects)
  {
    hide Live;
  }

  // ----- the heap between collections -----

  /** A pointer was handed out before, and is not dangling if its segment is in use. */
  predicate PointerOk(m: Memory, base: nat, segments: nat, p: Pointer) {
    p.To? ==> p.addr.seg < base + segments && (p.addr.seg >= base ==> p.addr in m)
  }

  ghost predicate HeapOk(s: Store) {
    && s.chain != []
    && (forall a :: a in s.mem <==> InNew(s, a))
    && (forall a :: a in s.mem ==> s.mem[a].forward.None?)
    && (forall a, p :: a in s.mem && p in s.mem[a].obj.fields ==> PointerOk(s.mem, s.base, |s.chain|, p))
    && SumCost(Costs(s.mem)) == TotalUsed(s.chain)
  }

  ghost predicate RootsOk(s: Store, roots: seq<Pointer>) {
    forall p :: p in roots ==> PointerOk(s.mem, s.base, |s.chain|, p)
  }

  /** The graph a collection of this heap starts from. */
  ghost function GraphOf(s: Store, roots: seq<Pointer>, rebound: bool): Start {
    Start(s.mem, roots, s.base, s.base + |s.chain|, s.minspace, TotalUsed(s.chain), rebound)
  }

  /** new becomes old, and a fresh segment becomes new. */
  function Flipped(s: Store): Store {
    Store(s.mem, s.base + |s.chain|, [Segment(Align(s.minspace), 0, 0)], s.base, s.minspace)
  }

  const NOTHING := Trace(map[], map[], {})

  lemma FlippedInv(s: Store, roots: seq<Pointer>, rebound: bool)
    requires HeapOk(s) && RootsOk(s, roots)
    ensures WellFormed(GraphOf(s, roots, rebound))
    ensures Inv(GraphOf(s, roots, rebound), Flipped(s), NOTHING)
  {
    hide Live;
    var g, s', t := GraphOf(s, roots, rebound), Flipped(s), NOTHING;
    forall a, p | a in g.mem && p in g.mem[a].obj.fields ensures Sound(g, p) {
      assert PointerOk(s.mem, s.base, |s.chain|, p);
    }
    assert Uncopied(g, t) == LiveCosts(g);
    UsedAt([], s'.chain[0]);
    assert [] + [s'.chain[0]] == s'.chain;
    assert CopiedCosts(g, t) == map[];
    assert forall n :: !InNew(s', n);
  }

  // ----- the heap after a collection -----

  /** The copies cost what the objects they are copies of cost. */
  lemma FreedCosts(g: Start, s: Store, t: Trace)
    requires Inv(g, s, t) && WellFormed(g)
    ensures SumCost(Costs(Freed(s))) == TotalUsed(s.chain) <= Need(g) <= g.used
  {
    hide OldKept, ScannedDone, OnlyLive, Bijective, NewFilled, WellFormed, Live;
    NeedAtMostUsed(g);
    FreedMemory(g, s, t);
    assert Costs(Freed(s)) == CopiedCosts(g, t);
  }

  /** No field of old space points to a segment that was not opened yet. */
  ghost predicate Issued(g: Start) {
    && g.oldBase <= g.base
    && (forall a, p :: a in g.mem && p in g.mem[a].obj.fields ==> PointerOk(g.mem, g.oldBase, g.base - g.oldBase, p))
  }

  lemma FreedPointers(g: Start, s: Store, t: Trace, n: Addr, p: Pointer)
    requires Inv(g, s, t) && WellFormed(g) && n in Freed(s) && p in Freed(s)[n].obj.fields
    requires Issued(g)
    ensures PointerOk(Freed(s), s.base, |s.chain|, p)
  {
    hide Budget, CopiesAddUp, ScannedDone, OnlyLive, OldKept, WellFormed;
    FreedMemory(g, s, t);
    NewBase(g, s, t);
    var o := g.mem[t.origin[n]].obj;
    var ps := Kept(o, g.rebound);
    if n in t.scanned {
      assert p in MovedAll(t.fwd, ps);
      var i :| 0 <= i < |ps| && Moved(t.fwd, ps[i]) == p;
      assert ps[i] == NULL || ps[i] in o.fields;
      if ps[i].To? && ps[i].addr in t.fwd {
        OldCopy(g, s, t, ps[i].addr);
      }
    }
  }

  lemma CopyUntagged(g: Start, t: Trace, n: Addr)
    requires n in t.origin && t.origin[n] in g.mem
    ensures CopyOf(g, t, n).forward.None?
  {}

  lemma FreedHeap(g: Start, s: Store, t: Trace)
    requires Inv(g, s, t) && WellFormed(g) && Issued(g)
    ensures HeapOk(s.(mem := Freed(s)))
  {
    hide Inv, WellFormed, Issued, PointerOk, Live, Kept, TotalUsed, Costs, CopyOf;
    FreedMemory(g, s, t);
    FreedCosts(g, s, t);
    NewBase(g, s, t);
    var m := Freed(s);
    forall n | n in m ensures m[n].forward.None? {
      CopyUntagged(g, t, n);
    }
    forall n, p | n in m && p in m[n].obj.fields ensures PointerOk(m, s.base, |s.chain|, p) {
      FreedPointers(g, s, t, n, p);
    }
  }

  lemma FreedRoot(g: Start, s: Store, t: Trace, p: Pointer)
    requires Inv(g, s, t) && WellFormed(g) && g.oldBase <= g.base
    requires PointerOk(g.mem, g.oldBase, g.base - g.oldBase, p) && (p.To? && p.addr in g.mem ==> p.addr in t.fwd)
    ensures PointerOk(Freed(s), s.base, |s.chain|, Moved(t.fwd, p))
  {
    hide Inv, WellFormed;
    FreedMemory(g, s, t);
    NewBase(g, s, t);
    if p.To? && p.addr in t.fwd {
      OldCopy(g, s, t, p.addr);
    }
  }

  lemma FreedRoots(g: Start, s: Store, t: Trace)
    requires Inv(g, s, t) && WellFormed(g) && g.oldBase <= g.base && RootsDone(g, t)
    requires forall p :: p in g.roots ==> PointerOk(g.mem, g.oldBase, g.base - g.oldBase, p)
    ensures RootsOk(s.(mem := Freed(s)), MovedAll(t.fwd, g.roots))
  {
    hide Inv, WellFormed, PointerOk;
    forall p | p in MovedAll(t.fwd, g.roots) ensures PointerOk(Freed(s), s.base, |s.chain|, p) {
      var i :| 0 <= i < |g.roots| && Moved(t.fwd, g.roots[i]) == p;
      assert g.roots[i] in g.roots;
      FreedRoot(g, s, t, g.roots[i]);
    }
  }

  // ----- two collections in a row -----

  function Composed(f: map<Addr, Addr>, f': map<Addr, Addr>): map<Addr, Addr>
    requires f.Values <= f'.Keys
  {
    map a | a in f :: f'[f[a]]
  }

  /** The second collection starts from what the first one left. */
  ghost predicate Follows(g: Start, m: Memory, roots: seq<Pointer>, g': Start) {
    && g'.mem == m && g'.roots == roots && g'.rebound == g.rebound && g.base <= g'.oldBase <= g'.base
    && (forall n :: n in m ==> n.seg >= g.base)
  }

  /** The kept fields of the object at a's copy are those of a, moved. */
  lemma SettledKept(g: Start, m: Memory, fwd: map<Addr, Addr>, a: Addr)
    requires a in fwd && SettledObject(g, m, fwd, a)
    ensures Kept(m[fwd[a]].obj, g.rebound) == MovedAll(fwd, Kept(g.mem[a].obj, g.rebound))
  {
    hide Kept;
  }

  /** After a collection every object is reachable. */
  lemma AllLive(g: Start, m: Memory, roots: seq<Pointer>, fwd: map<Addr, Addr>, g': Start, n: Addr)
    requires Settled(g, m, roots, fwd) && Follows(g, m, roots, g') && n in m
    ensures Live(g', n)
  {
    forall live | Closed(g', live) && Covers(g', live) ensures n in live {
      var before := set a | a in fwd && fwd[a] in live;
      forall a, p | a in before && a in g.mem && p in Kept(g.mem[a].obj, g.rebound) && p.To? && p.addr in g.mem
        ensures p.addr in before
      {
        PreimageStep(g, m, roots, fwd, g', live, a, p);
      }
      assert Closed(g, before);
      forall p | p in g.roots && p.To? && p.addr in g.mem ensures p.addr in before {
        PreimageRoot(g, m, roots, fwd, g', live, p);
      }
      assert Covers(g, before);
      assert n in fwd.Values;
      var a :| a in fwd && fwd[a] == n;
      assert Live(g, a);
    }
  }

  lemma PreimageStep(g: Start, m: Memory, roots: seq<Pointer>, fwd: map<Addr, Addr>, g': Start, live: set<Addr>, a: Addr, p: Pointer)
    requires Settled(g, m, roots, fwd) && Follows(g, m, roots, g') && Closed(g', live)
    requires a in fwd && fwd[a] in live && a in g.mem && p in Kept(g.mem[a].obj, g.rebound) && p.To? && p.addr in g.mem
    ensures p.addr in fwd && fwd[p.addr] in live
  {
    hide SettledObject, KeptClear, PointsBack;
    assert Live(g, a);
    EdgeLive(g, a, p);
    assert p.addr in fwd && SettledObject(g, m, fwd, a);
    EdgeMoved(g, m, fwd, a, p);
    hide Live;
    assert m[fwd[a]].obj == g'.mem[fwd[a]].obj;
    assert fwd[p.addr] in fwd.Values;
  }

  /** An edge of the old graph is an edge between the copies. */
  lemma EdgeMoved(g: Start, m: Memory, fwd: map<Addr, Addr>, a: Addr, p: Pointer)
    requires a in fwd && SettledObject(g, m, fwd, a) && p in Kept(g.mem[a].obj, g.rebound) && p.To? && p.addr in fwd
    ensures fwd[a] in m && To(fwd[p.addr]) in Kept(m[fwd[a]].obj, g.rebound)
  {
    var ps := Kept(g.mem[a].obj, g.rebound);
    SettledKept(g, m, fwd, a);
    var i :| 0 <= i < |ps| && ps[i] == p;
    assert MovedAll(fwd, ps)[i] == To(fwd[p.addr]);
  }

  lemma PreimageRoot(g: Start, m: Memory, roots: seq<Pointer>, fwd: map<Addr, Addr>, g': Start, live: set<Addr>, p: Pointer)
    requires Settled(g, m, roots, fwd) && Follows(g, m, roots, g') && Covers(g', live)
    requires p in g.roots && p.To? && p.addr in g.mem
    ensures p.addr in fwd && fwd[p.addr] in live
  {
    assert Live(g, p.addr);
    var i :| 0 <= i < |g.roots| && g.roots[i] == p;
    assert MovedAll(fwd, g.roots)[i] == To(fwd[p.addr]);
    assert fwd[p.addr] in fwd.Values;
  }

  lemma MovedTwice(g: Start, m: Memory, roots: seq<Pointer>, fwd: map<Addr, Addr>, g': Start, fwd': map<Addr, Addr>, ps: seq<Pointer>)
    requires fwd.Values == fwd'.Keys == m.Keys && Follows(g, m, roots, g')
    requires forall p :: p in ps && p.To? ==> p.addr.seg < g.base
    ensures MovedAll(fwd', MovedAll(fwd, ps)) == MovedAll(Composed(fwd, fwd'), ps)
  {
    forall i | 0 <= i < |ps| ensures Moved(fwd', Moved(fwd, ps[i])) == Moved(Composed(fwd, fwd'), ps[i]) {
      assert ps[i] in ps;
    }
  }

  lemma KeptIssued(g: Start, a: Addr)
    requires Issued(g) && a in g.mem
    ensures forall p :: p in Kept(g.mem[a].obj, g.rebound) && p.To? ==> p.addr.seg < g.base
  {
    forall p | p in Kept(g.mem[a].obj, g.rebound) && p.To? ensures p.addr.seg < g.base {
      assert p in g.mem[a].obj.fields;
    }
  }

  lemma SameValues(f: map<Addr, Addr>, f': map<Addr, Addr>)
    requires f.Values == f'.Keys
    ensures Composed(f, f').Values == f'.Values
  {
    var h := Composed(f, f');
    forall n | n in f'.Values ensures n in h.Values {
      var b :| b in f' && f'[b] == n;
      assert b in f.Values;
      var a :| a in f && f[a] == b;
      assert h[a] == n;
    }
  }

  lemma Matched(g: Start, m: Memory, roots: seq<Pointer>, fwd: map<Addr, Addr>,
                g': Start, m': Memory, roots': seq<Pointer>, fwd': map<Addr, Addr>)
    requires Settled(g, m, roots, fwd) && Isomorphic(g', m', roots', fwd') && Follows(g, m, roots, g')
    ensures fwd.Values == fwd'.Keys
  {
    forall n ensures n in m <==> n in fwd' {
      if n in m {
        AllLive(g, m, roots, fwd, g', n);
      }
      assert n in fwd' <==> Live(g', n);
    }
  }

  lemma ComposeMap(g: Start, m: Memory, roots: seq<Pointer>, fwd: map<Addr, Addr>,
                   g': Start, m': Memory, roots': seq<Pointer>, fwd': map<Addr, Addr>)
    requires Settled(g, m, roots, fwd) && Isomorphic(g', m', roots', fwd') && Follows(g, m, roots, g')
    requires fwd.Values == fwd'.Keys && (forall p :: p in g.roots && p.To? ==> p.addr.seg < g.base)
    ensures forall a :: a in Composed(fwd, fwd') <==> Live(g, a)
    ensures forall a, b :: a in Composed(fwd, fwd') && b in Composed(fwd, fwd') && Composed(fwd, fwd')[a] == Composed(fwd, fwd')[b] ==> a == b
    ensures Composed(fwd, fwd').Values == m'.Keys
    ensures roots' == MovedAll(Composed(fwd, fwd'), g.roots)
  {
    hide CarriedOver, SettledObject, KeptClear, Live;
    SameValues(fwd, fwd');
    MovedTwice(g, m, roots, fwd, g', fwd', g.roots);
  }

  /** Collecting twice is replacing the graph by an isomorphic one, even if the first collection
      left fields behind that its scan should have dropped. */
  lemma Compose(g: Start, m: Memory, roots: seq<Pointer>, fwd: map<Addr, Addr>,
                g': Start, m': Memory, roots': seq<Pointer>, fwd': map<Addr, Addr>)
    requires Settled(g, m, roots, fwd) && Isomorphic(g', m', roots', fwd') && Follows(g, m, roots, g')
    requires Issued(g) && (forall p :: p in g.roots && p.To? ==> p.addr.seg < g.base)
    requires forall n :: n in m' ==> n.seg >= g'.base
    ensures fwd.Values == fwd'.Keys && Isomorphic(g, m', roots', Composed(fwd, fwd'))
  {
    hide CarriedOver, Live, Follows, Issued, PointsBack, MovedAll, Isomorphic, Settled, Composed;
    Matched(g, m, roots, fwd, g', m', roots', fwd');
    ComposeObjects(g, m, roots, fwd, g', m', roots', fwd');
    ComposeMap(g, m, roots, fwd, g', m', roots', fwd');
    ComposeBack(g, m, roots, fwd, g', m', roots', fwd');
    IsomorphicIf(g, m', roots', Composed(fwd, fwd'));
  }

  lemma IsomorphicIf(g: Start, m: Memory, roots: seq<Pointer>, fwd: map<Addr, Addr>)
    requires forall a :: a in fwd <==> Live(g, a)
    requires forall a, b :: a in fwd && b in fwd && fwd[a] == fwd[b] ==> a == b
    requires fwd.Values == m.Keys && roots == MovedAll(fwd, g.roots)
    requires forall a :: a in fwd ==> CarriedOver(g, m, fwd, a)
    requires forall p :: p in roots ==> !PointsBack(g, p)
    requires forall n, p :: n in m && p in m[n].obj.fields ==> !PointsBack(g, p)
    ensures Isomorphic(g, m, roots, fwd)
  {
    hide CarriedOver, Live, PointsBack, MovedAll;
  }

  lemma ComposeObjects(g: Start, m: Memory, roots: seq<Pointer>, fwd: map<Addr, Addr>,
                       g': Start, m': Memory, roots': seq<Pointer>, fwd': map<Addr, Addr>)
    requires Settled(g, m, roots, fwd) && Isomorphic(g', m', roots', fwd') && Follows(g, m, roots, g')
    requires Issued(g) && fwd.Values == fwd'.Keys
    ensures forall a :: a in Composed(fwd, fwd') ==> CarriedOver(g, m', Composed(fwd, fwd'), a)
  {
    hide CarriedOver, SettledObject, KeptClear, Live, PointsBack, Composed;
    forall a | a in Composed(fwd, fwd') ensures CarriedOver(g, m', Composed(fwd, fwd'), a) {
      ComposedKeys(fwd, fwd');
      ComposeObject(g, m, roots, fwd, g', m', fwd', a);
    }
  }

  lemma ComposedKeys(fwd: map<Addr, Addr>, fwd': map<Addr, Addr>)
    requires fwd.Values <= fwd'.Keys
    ensures Composed(fwd, fwd').Keys == fwd.Keys && forall a :: a in fwd ==> fwd[a] in fwd.Values && fwd[a] in fwd'
  {}

  lemma ComposeObject(g: Start, m: Memory, roots: seq<Pointer>, fwd: map<Addr, Addr>,
                      g': Start, m': Memory, fwd': map<Addr, Addr>, a: Addr)
    requires a in fwd && SettledObject(g, m, fwd, a) && fwd[a] in fwd' && CarriedOver(g', m', fwd', fwd[a])
    requires Follows(g, m, roots, g') && Issued(g) && fwd.Values == fwd'.Keys == m.Keys
    ensures a in Composed(fwd, fwd') && CarriedOver(g, m', Composed(fwd, fwd'), a)
  {
    hide Kept;
    SettledKept(g, m, fwd, a);
    KeptIssued(g, a);
    MovedTwice(g, m, roots, fwd, g', fwd', Kept(g.mem[a].obj, g.rebound));
  }

  lemma NotBackTwice(g: Start, m: Memory, roots: seq<Pointer>, fwd': map<Addr, Addr>, g': Start, m': Memory, p: Pointer)
    requires Follows(g, m, roots, g') && fwd'.Values == m'.Keys && (forall n :: n in m' ==> n.seg >= g'.base)
    requires !PointsBack(g, p)
    ensures !PointsBack(g, Moved(fwd', p))
  {
    if p.To? && p.addr in fwd' {
      assert fwd'[p.addr] in fwd'.Values;
    }
  }

  lemma ComposeBack(g: Start, m: Memory, roots: seq<Pointer>, fwd: map<Addr, Addr>,
                    g': Start, m': Memory, roots': seq<Pointer>, fwd': map<Addr, Addr>)
    requires Settled(g, m, roots, fwd) && Isomorphic(g', m', roots', fwd') && Follows(g, m, roots, g')
    requires forall n :: n in m' ==> n.seg >= g'.base
    ensures forall p :: p in roots' ==> !PointsBack(g, p)
    ensures forall n, p :: n in m' && p in m'[n].obj.fields ==> !PointsBack(g, p)
  {
    hide PointsBack, Live, SettledObject, CarriedOver;
    forall p | p in roots' ensures !PointsBack(g, p) {
      var i :| 0 <= i < |roots| && Moved(fwd', roots[i]) == p;
      assert roots[i] in roots;
      NotBackTwice(g, m, roots, fwd', g', m', roots[i]);
    }
    forall n, p | n in m' && p in m'[n].obj.fields ensures !PointsBack(g, p) {
      var b, q := FieldBefore(g', m', roots', fwd', n, p);
      NotBackTwice(g, m, roots, fwd', g', m', q);
    }
  }

  /** A field of the new graph comes from a kept field of the old one. */
  lemma FieldBefore(g: Start, m: Memory, roots: seq<Pointer>, fwd: map<Addr, Addr>, n: Addr, p: Pointer)
    returns (b: Addr, q: Pointer)
    requires Isomorphic(g, m, roots, fwd) && n in m && p in m[n].obj.fields
    ensures b in g.mem && q in Kept(g.mem[b].obj, g.rebound) && p == Moved(fwd, q)
  {
    hide Live, PointsBack;
    assert n in fwd.Values;
    b :| b in fwd && fwd[b] == n;
    assert CarriedOver(g, m, fwd, b);
    var ps := Kept(g.mem[b].obj, g.rebound);
    var i :| 0 <= i < |ps| && Moved(fwd, ps[i]) == p;
    q := ps[i];
  }

  // ----- a second collection does not mend what the first one missed -----

  /** An unscanned copy with a kept field to old space. */
  predicate Broken(g: Start, m: Memory, n: Addr)
    requires n in m
  {
    exists p :: p in Kept(m[n].obj, g.rebound) && PointsBack(g, p)
  }

  /** If no broken copy were reachable, the copies of all reachable objects would be. */
  lemma CopiesReachable(g: Start, s: Store, t: Trace, late: set<Addr>, g': Start, a: Addr)
    requires Inv(g, s, t) && WellFormed(g) && RootsDone(g, t) && late == t.origin.Keys - t.scanned
    requires Follows(g, Freed(s), MovedAll(t.fwd, g.roots), g')
    requires forall n :: n in late && n in Freed(s) && Live(g', n) ==> !Broken(g, Freed(s), n)
    requires Live(g, a) && a in g.mem
    ensures a in t.fwd && Live(g', t.fwd[a])
  {
    hide Inv, WellFormed, Live, Follows, Broken;
    var before := set b | b in t.fwd && Live(g', t.fwd[b]);
    forall b, p | b in before && b in g.mem && p in Kept(g.mem[b].obj, g.rebound) && p.To? && p.addr in g.mem
      ensures p.addr in before
    {
      ReachableEdge(g, s, t, late, g', b, p);
    }
    assert Closed(g, before);
    forall p | p in g.roots && p.To? && p.addr in g.mem ensures p.addr in before {
      ReachableRoot(g, s, t, g', p);
    }
    assert Covers(g, before);
    LiveIn(g, a, before);
  }

  lemma LiveIn(g: Start, a: Addr, live: set<Addr>)
    requires Live(g, a) && Closed(g, live) && Covers(g, live)
    ensures a in live
  {}

  lemma ReachableEdge(g: Start, s: Store, t: Trace, late: set<Addr>, g': Start, b: Addr, p: Pointer)
    requires Inv(g, s, t) && WellFormed(g) && late == t.origin.Keys - t.scanned
    requires Follows(g, Freed(s), MovedAll(t.fwd, g.roots), g')
    requires b in t.fwd && Live(g', t.fwd[b]) && b in g.mem
    requires t.fwd[b] in late && t.fwd[b] in Freed(s) ==> !Broken(g, Freed(s), t.fwd[b])
    requires p in Kept(g.mem[b].obj, g.rebound) && p.To? && p.addr in g.mem
    ensures p.addr in t.fwd && Live(g', t.fwd[p.addr])
  {
    hide Inv, WellFormed, Live;
    var n := t.fwd[b];
    OldCopy(g, s, t, b);
    FreedMemory(g, s, t);
    if n in t.scanned {
      ScannedFields(g, s, t, n);
      ScannedEdge(g, s, t, n, p);
      OldCopy(g, s, t, p.addr);
      EdgeLive(g', n, To(t.fwd[p.addr]));
    } else {
      UnscannedCopy(g, s, t, n);
      OldSegments(g);
    }
  }

  lemma ScannedEdge(g: Start, s: Store, t: Trace, n: Addr, p: Pointer)
    requires Inv(g, s, t) && WellFormed(g) && n in t.scanned && n in t.origin && t.origin[n] in g.mem && n in Freed(s)
    requires p in Kept(g.mem[t.origin[n]].obj, g.rebound) && p.To? && p.addr in t.fwd
    ensures To(t.fwd[p.addr]) in Kept(Freed(s)[n].obj, g.rebound)
  {
    hide Inv, WellFormed, Kept;
    FreedMemory(g, s, t);
    var o := g.mem[t.origin[n]].obj;
    KeptTwice(t.fwd, o, g.rebound);
    var ps := Kept(o, g.rebound);
    var i :| 0 <= i < |ps| && ps[i] == p;
    assert MovedAll(t.fwd, ps)[i] == To(t.fwd[p.addr]);
  }

  lemma ReachableRoot(g: Start, s: Store, t: Trace, g': Start, p: Pointer)
    requires Inv(g, s, t) && WellFormed(g) && RootsDone(g, t) && Follows(g, Freed(s), MovedAll(t.fwd, g.roots), g')
    requires p in g.roots && p.To? && p.addr in g.mem
    ensures p.addr in t.fwd && Live(g', t.fwd[p.addr])
  {
    hide Inv, WellFormed;
    OldCopy(g, s, t, p.addr);
    FreedMemory(g, s, t);
    var i :| 0 <= i < |g.roots| && g.roots[i] == p;
    assert MovedAll(t.fwd, g.roots)[i] == To(t.fwd[p.addr]);
  }

  /** So a broken copy is reachable, and the second collection keeps its dangling field. */
  lemma BrokenStays(g: Start, s: Store, t: Trace, late: set<Addr>,
                    g': Start, m': Memory, roots': seq<Pointer>, fwd': map<Addr, Addr>)
    requires Inv(g, s, t) && WellFormed(g) && RootsDone(g, t) && late == t.origin.Keys - t.scanned
    requires Follows(g, Freed(s), MovedAll(t.fwd, g.roots), g') && Isomorphic(g', m', roots', fwd')
    requires !KeptClear(g, Freed(s), late)
    ensures forall f :: !Isomorphic(g, m', roots', f)
  {
    hide Inv, WellFormed, Live, RootsDone;
    var n, p :| n in late && n in Freed(s) && p in Kept(Freed(s)[n].obj, g.rebound) && PointsBack(g, p);
    assert Broken(g, Freed(s), n);
    if forall k :: k in late && k in Freed(s) && Live(g', k) ==> !Broken(g, Freed(s), k) {
      FreedMemory(g, s, t);
      NewBase(g, s, t);
      NewCell(g, s, t, n);
      CopiesReachable(g, s, t, late, g', t.origin[n]);
    }
    var k :| k in late && k in Freed(s) && Live(g', k) && Broken(g, Freed(s), k);
    var q :| q in Kept(Freed(s)[k].obj, g.rebound) && PointsBack(g, q);
    DanglingStays(g, g', m', roots', fwd', k, q);
  }

  lemma DanglingStays(g: Start, g': Start, m': Memory, roots': seq<Pointer>, fwd': map<Addr, Addr>, k: Addr, q: Pointer)
    requires Isomorphic(g', m', roots', fwd') && Live(g', k) && k in g'.mem && g'.rebound == g.rebound
    requires forall n :: n in g'.mem ==> n.seg >= g.base
    requires q in Kept(g'.mem[k].obj, g.rebound) && PointsBack(g, q)
    ensures forall f :: !Isomorphic(g, m', roots', f)
  {
    assert CarriedOver(g', m', fwd', k);
    var ps := Kept(g'.mem[k].obj, g.rebound);
    var i :| 0 <= i < |ps| && ps[i] == q;
    assert forall b :: b in fwd' ==> b in g'.mem;
    hide Live;
    assert MovedAll(fwd', ps)[i] == q;
    assert q in m'[fwd'[k]].obj.fields;
  }
}
