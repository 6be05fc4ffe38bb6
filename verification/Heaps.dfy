/** gc.c, list.c, closure.c, term.c, tree.c, var.c, dict.c: heap objects, the chain of
    segments they are bump-allocated in, and what copying and forwarding do to both. */
module Heaps {
  import opened CStrings

  // ----- objects and pointers -----

  /** A heap object: the segment it lies in and its rank there.  The tag word makes it
      possible to step from one object to the next, so a rank is as good as an offset. */
  datatype Addr = Addr(seg: nat, idx: nat)

  /** NULL, static and malloc'd data are Outside the collected heap. */
  datatype Pointer = Outside(id: int) | To(addr: Addr)

  const NULL := Outside(0)

  /** A Var is the only object whose scan routine does more than forward its fields. */
  datatype Kind = Variable(hasBindings: bool) | Other(tag: int)

  /** data is what copying leaves alone; fields are the pointers in scanning order. */
  datatype Object = Object(kind: Kind, nbytes: nat, data: seq<int>, fields: seq<Pointer>)

  /** The tag word holds the tag, or the address the object was moved to. */
  datatype Cell = Cell(forward: Option<Addr>, obj: Object)

  type Memory = map<Addr, Cell>

  /** VarScan drops the cached environment string of a variable whose closures have lexical
      bindings when a binding was changed; every other scan routine keeps all fields. */
  function Kept(o: Object, rebound: bool): (fields: seq<Pointer>)
    ensures |fields| == |o.fields|
  {
    if rebound && o.kind == Variable(true) && |o.fields| == 2 then [o.fields[0], NULL] else o.fields
  }

  // ----- segments -----

  const WORD_SIZE: nat := 8

  function Align(n: nat): (r: nat)
    ensures n <= r < n + WORD_SIZE
  {
    (n + WORD_SIZE - 1) / WORD_SIZE * WORD_SIZE
  }

  /** Bytes gcalloc takes from a segment: the payload and the tag word, rounded up. */
  function Cost(nbytes: nat): (r: nat)
    ensures r >= nbytes + WORD_SIZE
  {
    Align(nbytes + WORD_SIZE)
  }

  datatype Segment = Segment(size: nat, used: nat, count: nat)

  /** The chain new, oldest segment first; the last one is being allocated from.  Segments
      are numbered from base on, and the chain old has the numbers oldBase to base. */
  datatype Store = Store(mem: Memory, base: nat, chain: seq<Segment>, oldBase: nat, minspace: nat)

  function TotalUsed(chain: seq<Segment>): nat {
    if chain == [] then 0 else TotalUsed(chain[..|chain| - 1]) + chain[|chain| - 1].used
  }

  predicate InNew(s: Store, a: Addr) {
    s.base <= a.seg < s.base + |s.chain| && a.idx < s.chain[a.seg - s.base].count
  }

  predicate InOld(s: Store, p: Pointer) {
    p.To? && s.oldBase <= p.addr.seg < s.base
  }

  // ----- gcalloc while collection is blocked -----

  predicate Room(s: Store, nbytes: nat)
    requires s.chain != []
  {
    s.chain[|s.chain| - 1].used + Cost(nbytes) <= s.chain[|s.chain| - 1].size
  }

  /** A request that does not fit is tried again in a fresh segment of minspace bytes, after
      minspace was raised if it is below the request. */
  function Raised(minspace: nat, nbytes: nat): nat {
    if minspace < nbytes then nbytes + WORD_SIZE else minspace
  }

  function Opened(s: Store, nbytes: nat): Store {
    var m := Raised(s.minspace, nbytes);
    s.(minspace := m, chain := s.chain + [Segment(Align(m), 0, 0)])
  }

  /** The retry loop stops: the request fits now, or in the segment opened for it. */
  predicate Allocatable(s: Store, nbytes: nat)
    requires s.chain != []
  {
    Room(s, nbytes) || FitsFresh(s.minspace, nbytes)
  }

  predicate FitsFresh(minspace: nat, nbytes: nat) {
    Cost(nbytes) <= Align(minspace) || nbytes > minspace
  }

  function Bump(s: Store, o: Object): Store
    requires s.chain != [] && Room(s, o.nbytes)
  {
    var k := |s.chain| - 1;
    var seg := s.chain[k];
    s.(chain := s.chain[k := Segment(seg.size, seg.used + Cost(o.nbytes), seg.count + 1)],
       mem := s.mem[Addr(s.base + k, seg.count) := Cell(None, o)])
  }

  /** The store gcalloc bumps the frontier in. */
  function Ready(s: Store, nbytes: nat): (t: Store)
    requires s.chain != [] && Allocatable(s, nbytes)
    ensures |t.chain| >= |s.chain| && Room(t, nbytes)
    ensures t.mem == s.mem && t.base == s.base && t.oldBase == s.oldBase
  {
    if Room(s, nbytes) then s else Opened(s, nbytes)
  }

  function Allocated(s: Store, o: Object): (r: (Store, Addr))
    requires s.chain != [] && Allocatable(s, o.nbytes)
    ensures |r.0.chain| >= |s.chain| && r.0.base == s.base && r.0.oldBase == s.oldBase
  {
    var t := Ready(s, o.nbytes);
    (Bump(t, o), Addr(t.base + |t.chain| - 1, t.chain[|t.chain| - 1].count))
  }

  /** Otherwise no number of retries helps: each opens another segment that is too small. */
  function Retried(s: Store, nbytes: nat, tries: nat): Store
    requires s.chain != []
    decreases tries
  {
    if tries == 0 || Room(s, nbytes) then s else Retried(Opened(s, nbytes), nbytes, tries - 1)
  }

  lemma {:induction false} RetriesForever(s: Store, nbytes: nat, tries: nat)
    requires s.chain != []
    ensures var t := Retried(s, nbytes, tries); t.chain != [] && (!Allocatable(s, nbytes) ==> !Room(t, nbytes))
    ensures Allocatable(s, nbytes) && tries > 0 ==> Room(Retried(s, nbytes, tries), nbytes)
    decreases tries
  {
    if tries > 0 && !Room(s, nbytes) {
      RetriesForever(Opened(s, nbytes), nbytes, tries - 1);
    }
  }

  // ----- forwarding and scanning -----

  /** forward.  None stands for a run that does not come back: the pointer dangles into old
      space, or gcalloc retries forever. */
  function Forward(s: Store, p: Pointer): (r: Option<(Store, Pointer)>)
    requires s.chain != []
    ensures r.Some? ==> |r.value.0.chain| >= |s.chain|
  {
    if !InOld(s, p) then Some((s, p))
    else if p.addr !in s.mem then None
    else
      var cell := s.mem[p.addr];
      if cell.forward.Some? then Some((s, To(cell.forward.value)))
      else if !Allocatable(s, cell.obj.nbytes) then None
      else
        var (t, np) := Allocated(s, cell.obj);
        Some((t.(mem := t.mem[p.addr := cell.(forward := Some(np))]), To(np)))
  }

  /** Forward pointers one after the other. */
  function ForwardAll(s: Store, ps: seq<Pointer>): (r: Option<(Store, seq<Pointer>)>)
    requires s.chain != []
    ensures r.Some? ==> |r.value.0.chain| >= |s.chain| && |r.value.1| == |ps|
    decreases |ps|
  {
    if ps == [] then Some((s, []))
    else
      var n := |ps| - 1;
      match ForwardAll(s, ps[..n])
      case None => None
      case Some((t, qs)) =>
        match Forward(t, ps[n])
        case None => None
        case Some((u, q)) => Some((u, qs + [q]))
  }

  /** A scan routine: replace every field that is kept by its forwarded value. */
  function ScanObject(s: Store, a: Addr, rebound: bool): (r: Option<Store>)
    requires s.chain != []
    ensures r.Some? ==> |r.value.chain| >= |s.chain|
  {
    if a !in s.mem then None
    else
      match ForwardAll(s, Kept(s.mem[a].obj, rebound))
      case None => None
      case Some((t, qs)) =>
        if a !in t.mem then None
        else Some(t.(mem := t.mem[a := t.mem[a].(obj := t.mem[a].obj.(fields := qs))]))
  }

  // ----- the scan of new space, one step at a time -----

  /** scanspace between two steps.  below counts the segments earlier passes covered; this
      pass goes from segment front down to segment below, is in segment at and has scanned
      finger of its objects.  late are the copies that were appended to a segment after the
      scan had left it. */
  datatype Scan = Scan(store: Store, below: nat, front: nat, at: nat, finger: nat, late: set<Addr>, finished: bool)

  predicate ScanShape(x: Scan) {
    x.below <= x.at <= x.front < |x.store.chain|
  }

  function StartScan(s: Store): (x: Scan)
    requires s.chain != []
    ensures ScanShape(x)
  {
    Scan(s, 0, |s.chain| - 1, |s.chain| - 1, 0, {}, false)
  }

  function AddrIn(s: Store, k: nat, i: nat): Addr {
    Addr(s.base + k, i)
  }

  /** The copies that segment k has in s' and not yet in s. */
  function Appended(s: Store, s': Store, k: nat): set<Addr>
    requires k < |s.chain| && k < |s'.chain|
  {
    set i: nat | s.chain[k].count <= i < s'.chain[k].count :: AddrIn(s, k, i)
  }

  /** Scan one object, go to the next segment, or end the pass: the scan is over if no
      segment was opened during the pass, else the next pass covers the ones opened. */
  function ScanStep(x: Scan, rebound: bool): (r: Option<Scan>)
    requires ScanShape(x)
    ensures r.Some? ==> ScanShape(r.value)
  {
    if x.finished then Some(x)
    else if x.finger < x.store.chain[x.at].count then
      match ScanObject(x.store, Addr(x.store.base + x.at, x.finger), rebound)
      case None => None
      case Some(s) =>
        var late := if x.at < x.front then x.late + Appended(x.store, s, x.front) else x.late;
        Some(x.(store := s, finger := x.finger + 1, late := late))
    else if x.at > x.below then Some(x.(at := x.at - 1, finger := 0))
    else if |x.store.chain| - 1 == x.front then Some(x.(finished := true))
    else
      var front := |x.store.chain| - 1;
      Some(Scan(x.store, x.front + 1, front, front, 0, x.late, false))
  }

  function ScanSteps(x: Scan, n: nat, rebound: bool): (r: Option<Scan>)
    requires ScanShape(x)
    ensures r.Some? ==> ScanShape(r.value)
    decreases n
  {
    if n == 0 then Some(x)
    else
      match ScanSteps(x, n - 1, rebound)
      case None => None
      case Some(y) => ScanStep(y, rebound)
  }
}
