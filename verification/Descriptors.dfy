/** fd.c: the stack of deferred redirections.  The parent shell reads it top-down to find the
    real descriptor behind a user descriptor; a forked child replays it bottom-up. */
module Descriptors {
  import opened CStrings

  /** The descriptor table of a process: which open file each descriptor refers to. */
  type Files = map<int, int>

  const CLOSED: int := -1

  /** dup takes the lowest descriptor that is not open. */
  function LowestFree(fds: Files, n: nat): (r: nat)
    ensures r >= n && r !in fds && forall m :: n <= m < r ==> m in fds
    decreases |fds|
  {
    if n !in fds then n
    else
      var r := LowestFree(fds - {n}, n + 1);
      assert forall m :: n <= m < r ==> m in fds by {
        forall m | n <= m < r ensures m in fds {
          if m > n {
            assert m in fds - {n};
          }
        }
      }
      r
  }

  /** A deferred operation; its real descriptor is a C variable, so that it can be moved. */
  datatype Defer = Defer(cell: nat, userfd: nat)

  datatype Reserve = Reserve(cell: nat, closeonfork: bool)

  // ----- the registered descriptors -----

  ghost function CellsOf(reserved: seq<Reserve>): set<nat> {
    set i | 0 <= i < |reserved| :: reserved[i].cell
  }

  /** Registered variables hold distinct open descriptors or none. */
  ghost predicate Distinct(fds: Files, cells: map<nat, int>, regs: set<nat>) {
    && CLOSED !in fds
    && (forall c :: c in regs ==> c in cells && (cells[c] == CLOSED || cells[c] in fds))
    && (forall c, d :: c in regs && d in regs && c != d && cells[c] != CLOSED ==> cells[c] != cells[d])
  }

  /** Some registered variable holds descriptor x. */
  ghost predicate Held(cells: map<nat, int>, regs: set<nat>, x: int) {
    exists c :: c in regs && c in cells && cells[c] == x
  }

  // ----- the two views of the stack -----

  /** The topmost of the first k entries for a user descriptor, or -1. */
  function Top(entries: seq<Defer>, k: nat, u: int): (i: int)
    requires k <= |entries|
    ensures -1 <= i < k && (i >= 0 ==> entries[i].userfd == u)
    ensures forall j :: i < j < k ==> entries[j].userfd != u
  {
    if k == 0 then -1
    else if entries[k - 1].userfd == u then k - 1
    else Top(entries, k - 1, u)
  }

  /** What the stack says: real and user descriptor of each entry, oldest first. */
  ghost function StackOf(entries: seq<Defer>, cells: map<nat, int>): (stack: seq<(int, int)>)
    ensures |stack| == |entries|
  {
    seq(|entries|, i requires 0 <= i < |entries| =>
      (if entries[i].cell in cells then cells[entries[i].cell] else CLOSED, entries[i].userfd))
  }

  /** fdmap, on the first k entries. */
  function Mapped(stack: seq<(int, int)>, k: nat, fd: int): int
    requires k <= |stack|
  {
    if k == 0 then fd
    else if fd == stack[k - 1].1 then
      if stack[k - 1].0 == CLOSED then CLOSED else Mapped(stack, k - 1, stack[k - 1].0)
    else Mapped(stack, k - 1, fd)
  }

  /** No real descriptor is the target of two entries. */
  ghost predicate DistinctReals(entries: seq<Defer>, cells: map<nat, int>) {
    && (forall i :: 0 <= i < |entries| ==> entries[i].cell in cells)
    && (forall i, j :: 0 <= i < j < |entries| && cells[entries[i].cell] != CLOSED
          ==> cells[entries[i].cell] != cells[entries[j].cell])
  }

  lemma {:induction false} MappedFromTop(entries: seq<Defer>, cells: map<nat, int>, k: nat, u: int)
    requires k <= |entries| && forall i :: 0 <= i < |entries| ==> entries[i].cell in cells
    ensures var i := Top(entries, k, u);
      Mapped(StackOf(entries, cells), k, u) ==
        if i < 0 then u
        else if cells[entries[i].cell] == CLOSED then CLOSED
        else Mapped(StackOf(entries, cells), i, cells[entries[i].cell])
  {
    if k > 0 && entries[k - 1].userfd != u {
      MappedFromTop(entries, cells, k - 1, u);
    }
  }

  /** Once the walk leaves a real descriptor, it never comes back to it. */
  lemma {:induction false} NeverBack(entries: seq<Defer>, cells: map<nat, int>, k: nat, top: nat, fd: int)
    requires k <= top < |entries| && DistinctReals(entries, cells)
    requires cells[entries[top].cell] != CLOSED && fd != cells[entries[top].cell]
    ensures Mapped(StackOf(entries, cells), k, fd) != cells[entries[top].cell]
  {
    if k > 0 {
      NeverBack(entries, cells, k - 1, top, if fd == entries[k - 1].userfd then cells[entries[k - 1].cell] else fd);
    }
  }

  /** fdmap finds the topmost real descriptor exactly when no entry below is for that number;
      otherwise it is led on to another descriptor. */
  lemma {:induction false} FdmapExactly(entries: seq<Defer>, cells: map<nat, int>, u: int)
    requires DistinctReals(entries, cells)
    ensures var i, fd := Top(entries, |entries|, u), Mapped(StackOf(entries, cells), |entries|, u);
      && (i < 0 ==> fd == u)
      && (i >= 0 && cells[entries[i].cell] == CLOSED ==> fd == CLOSED)
      && (i >= 0 && cells[entries[i].cell] != CLOSED ==>
           (fd == cells[entries[i].cell] <==> Top(entries, i, cells[entries[i].cell]) < 0))
  {
    var i := Top(entries, |entries|, u);
    MappedFromTop(entries, cells, |entries|, u);
    if i >= 0 && cells[entries[i].cell] != CLOSED {
      var r := cells[entries[i].cell];
      MappedFromTop(entries, cells, i, r);
      var j := Top(entries, i, r);
      if j >= 0 && cells[entries[j].cell] != CLOSED {
        NeverBack(entries, cells, j, i, cells[entries[j].cell]);
      }
    }
  }

  /** Descriptor 7 deferred to 5, then descriptor 5 deferred to 6: fdmap leads 6 to 7. */
  lemma FdmapCanBeLedOn()
    ensures Mapped([(7, 5), (5, 6)], 2, 6) == 7
  {
    assert Mapped([(7, 5), (5, 6)], 0, 7) == 7;
    assert Mapped([(7, 5), (5, 6)], 1, 5) == 7;
  }

  // ----- what replaying the stack achieves -----

  /** The parent's state at the fork. */
  datatype Origin = Origin(fds: Files, cells: map<nat, int>, regs: set<nat>, entries: seq<Defer>)

  /** The stack is in order: entries hold distinct registered variables. */
  ghost predicate StackOk(o: Origin) {
    && Distinct(o.fds, o.cells, o.regs)
    && (forall i :: 0 <= i < |o.entries| ==> o.entries[i].cell in o.regs)
    && (forall i, j :: 0 <= i < j < |o.entries| ==> o.entries[i].cell != o.entries[j].cell)
  }

  ghost function DoneCells(entries: seq<Defer>, k: nat): set<nat>
    requires k <= |entries|
  {
    set i | 0 <= i < k :: entries[i].cell
  }

  /** The variable still holds a descriptor for the file it had at the fork. */
  ghost predicate FileKept(o: Origin, fds: Files, cells: map<nat, int>, c: nat) {
    && c in o.cells && c in cells
    && (o.cells[c] == CLOSED <==> cells[c] == CLOSED)
    && (o.cells[c] != CLOSED ==> cells[c] in fds && o.cells[c] in o.fds && fds[cells[c]] == o.fds[o.cells[c]])
  }

  ghost predicate FilesKept(o: Origin, fds: Files, cells: map<nat, int>, regs: set<nat>) {
    forall c :: c in regs ==> FileKept(o, fds, cells, c)
  }

  /** What descriptor x refers to after the first k entries were replayed: the file of the
      topmost real descriptor for it; or what it was, if no entry is for it and the shell did
      not hold it; and otherwise it is closed or in the shell's own use. */
  ghost predicate Replayed(o: Origin, k: nat, fds: Files, cells: map<nat, int>, regs: set<nat>, x: int)
    requires k <= |o.entries| && StackOk(o)
  {
    var i := Top(o.entries, k, x);
    if i >= 0 then
      var r := o.cells[o.entries[i].cell];
      if r == CLOSED then x in fds ==> Held(cells, regs, x)
      else x in fds && r in o.fds && fds[x] == o.fds[r] && !Held(cells, regs, x)
    else if x in o.fds && !Held(o.cells, o.regs, x) then x in fds && fds[x] == o.fds[x] && !Held(cells, regs, x)
    else x in fds ==> Held(cells, regs, x)
  }

  ghost predicate ReplayInv(o: Origin, k: nat, fds: Files, cells: map<nat, int>, regs: set<nat>) {
    && k <= |o.entries| && StackOk(o)
    && regs == o.regs - DoneCells(o.entries, k)
    && Distinct(fds, cells, regs)
    && FilesKept(o, fds, cells, regs)
    && (forall x :: Replayed(o, k, fds, cells, regs, x))
  }

  lemma ReplayStarts(o: Origin)
    requires StackOk(o)
    ensures ReplayInv(o, 0, o.fds, o.cells, o.regs)
  {
    assert DoneCells(o.entries, 0) == {};
  }

  /** What releasefd does to descriptor n: a registered variable that holds it gets a
      duplicate, and n is closed. */
  ghost predicate Released(fds: Files, cells: map<nat, int>, regs: set<nat>, n: int, fds': Files, cells': map<nat, int>) {
    if Held(cells, regs, n) then exists d :: d in regs && ReleasedFrom(fds, cells, n, d, fds', cells')
    else fds' == fds && cells' == cells
  }

  ghost predicate ReleasedFrom(fds: Files, cells: map<nat, int>, n: int, d: nat, fds': Files, cells': map<nat, int>) {
    && d in cells && cells[d] == n && n in fds
    && fds' == fds[LowestFree(fds, 0) := fds[n]] - {n}
    && cells' == cells[d := LowestFree(fds, 0)]
  }

  /** What dodeferred does once the user descriptor was released. */
  function Moved(fds: Files, source: int, user: int): Files {
    if source == CLOSED then fds - {user}
    else if source == user || source !in fds then fds
    else fds[user := fds[source]] - {source}
  }

  lemma ReleaseDistinct(fds: Files, cells: map<nat, int>, regs: set<nat>, n: int, fds': Files, cells': map<nat, int>)
    requires n >= 0 && Distinct(fds, cells, regs) && Released(fds, cells, regs, n, fds', cells')
    ensures Distinct(fds', cells', regs) && !Held(cells', regs, n)
    ensures forall x :: x != n && x in fds ==> x in fds' && fds'[x] == fds[x]
    ensures forall x :: x in fds' && x !in fds ==> Held(cells', regs, x)
    ensures forall x :: x in fds && Held(cells', regs, x) ==> Held(cells, regs, x)
    ensures forall x :: x != n && Held(cells, regs, x) ==> Held(cells', regs, x)
    ensures forall c :: c in cells && c !in regs ==> c in cells' && cells'[c] == cells[c]
  {
    if Held(cells, regs, n) {
      var d :| d in regs && ReleasedFrom(fds, cells, n, d, fds', cells');
      assert cells'[d] == LowestFree(fds, 0);
      forall x | x != n && Held(cells, regs, x) ensures Held(cells', regs, x) {
        var c :| c in regs && c in cells && cells[c] == x;
        assert cells'[c] == x;
      }
      forall x | x in fds && Held(cells', regs, x) ensures Held(cells, regs, x) {
        var c :| c in regs && c in cells' && cells'[c] == x;
        assert cells[c] == x;
      }
    }
  }

  lemma ReleaseKeepsFiles(o: Origin, fds: Files, cells: map<nat, int>, regs: set<nat>, n: int, fds': Files, cells': map<nat, int>)
    requires n >= 0 && Distinct(fds, cells, regs) && Released(fds, cells, regs, n, fds', cells')
    requires FilesKept(o, fds, cells, regs)
    ensures FilesKept(o, fds', cells', regs)
  {
    forall c | c in regs ensures FileKept(o, fds', cells', c) {
      assert FileKept(o, fds, cells, c);
    }
  }

  /** Taking the place of a released descriptor leaves the registered ones alone. */
  lemma MoveKeepsOthers(o: Origin, fds: Files, cells: map<nat, int>, regs: set<nat>, source: int, u: int)
    requires u >= 0 && Distinct(fds, cells, regs) && FilesKept(o, fds, cells, regs)
    requires !Held(cells, regs, u) && (source != CLOSED ==> !Held(cells, regs, source))
    ensures Distinct(Moved(fds, source, u), cells, regs) && FilesKept(o, Moved(fds, source, u), cells, regs)
  {
    forall c | c in regs && cells[c] != CLOSED
      ensures cells[c] in Moved(fds, source, u) && Moved(fds, source, u)[cells[c]] == fds[cells[c]]
    {
      assert cells[c] != u && cells[c] != source;
    }
    forall c | c in regs ensures FileKept(o, Moved(fds, source, u), cells, c) {
      assert FileKept(o, fds, cells, c);
    }
  }

  /** One descriptor, before and after entry k. */
  lemma ReplayOne(o: Origin, k: nat, fds: Files, cells: map<nat, int>, regs: set<nat>, fds': Files, cells': map<nat, int>, x: int)
    requires k < |o.entries| && ReplayInv(o, k, fds, cells, regs) && o.entries[k].userfd >= 0
    requires o.entries[k].cell in regs && o.entries[k].cell in cells
    requires Released(fds, cells, regs - {o.entries[k].cell}, o.entries[k].userfd, fds', cells')
    ensures var e := o.entries[k];
      Replayed(o, k + 1, Moved(fds', cells[e.cell], e.userfd), cells', regs - {e.cell}, x)
  {
    var e := o.entries[k];
    var u, r := e.userfd, cells[e.cell];
    var regs' := regs - {e.cell};
    ReleaseDistinct(fds, cells, regs', u, fds', cells');
    assert Replayed(o, k, fds, cells, regs, x);
    assert FileKept(o, fds, cells, e.cell);
    hide Distinct, FilesKept, Released;
    if x != u && Held(cells, regs, x) && x != r {
      var c :| c in regs && c in cells && cells[c] == x;
      assert c in regs';
      assert Held(cells, regs', x);
    }
    if Held(cells, regs', x) {
      assert Held(cells, regs, x);
    }
    assert Held(cells, regs, r);
  }

  lemma RealDescriptor(o: Origin, k: nat, fds: Files, cells: map<nat, int>, regs: set<nat>)
    requires k < |o.entries| && ReplayInv(o, k, fds, cells, regs)
    ensures o.entries[k].cell in regs && o.entries[k].cell in cells
    ensures var r := cells[o.entries[k].cell];
      (r == CLOSED || r in fds) && (r != CLOSED ==> !Held(cells, regs - {o.entries[k].cell}, r))
    ensures Distinct(fds, cells, regs - {o.entries[k].cell}) && FilesKept(o, fds, cells, regs - {o.entries[k].cell})
    ensures DoneCells(o.entries, k + 1) == DoneCells(o.entries, k) + {o.entries[k].cell}
  {
    hide Replayed;
  }

  /** Replaying entry k: its variable is no longer registered, the user descriptor is
      released, and the real one takes its place. */
  lemma ReplayStep(o: Origin, k: nat, fds: Files, cells: map<nat, int>, regs: set<nat>, fds': Files, cells': map<nat, int>)
    requires k < |o.entries| && ReplayInv(o, k, fds, cells, regs) && o.entries[k].userfd >= 0
    requires o.entries[k].cell in cells
    requires Released(fds, cells, regs - {o.entries[k].cell}, o.entries[k].userfd, fds', cells')
    ensures o.entries[k].cell in regs && (cells[o.entries[k].cell] == CLOSED || cells[o.entries[k].cell] in fds')
    ensures var e := o.entries[k];
      ReplayInv(o, k + 1, Moved(fds', cells[e.cell], e.userfd), cells', regs - {e.cell})
  {
    hide Replayed, FilesKept, Distinct, Released;
    var e := o.entries[k];
    var u, r := e.userfd, cells[e.cell];
    var regs' := regs - {e.cell};
    RealDescriptor(o, k, fds, cells, regs);
    ReleaseDistinct(fds, cells, regs', u, fds', cells');
    ReleaseKeepsFiles(o, fds, cells, regs', u, fds', cells');
    RealStays(fds, cells, regs', u, fds', cells', r);
    MoveKeepsOthers(o, fds', cells', regs', r, u);
    var fds2, k' := Moved(fds', r, u), k + 1;
    forall x ensures Replayed(o, k', fds2, cells', regs', x) {
      ReplayOne(o, k, fds, cells, regs, fds', cells', x);
    }
  }

  lemma RealStays(fds: Files, cells: map<nat, int>, regs: set<nat>, u: int, fds': Files, cells': map<nat, int>, r: int)
    requires u >= 0 && Distinct(fds, cells, regs) && Released(fds, cells, regs, u, fds', cells')
    requires r == CLOSED || r in fds
    requires r != CLOSED ==> !Held(cells, regs, r)
    ensures r == CLOSED || (r in fds' && !Held(cells', regs, r))
  {
    ReleaseDistinct(fds, cells, regs, u, fds', cells');
  }

  /** The two views agree: where fdmap reads the stack right, a child's descriptor refers,
      after replaying the whole stack, to the file of the descriptor fdmap names.  fdmap reads
      it right exactly when no entry below the topmost one is for that real descriptor. */
  lemma ViewsAgree(o: Origin, fds: Files, cells: map<nat, int>, regs: set<nat>, u: int)
    requires ReplayInv(o, |o.entries|, fds, cells, regs)
    ensures forall j :: 0 <= j < |o.entries| ==> o.entries[j].cell in o.cells
    ensures
      var i := Top(o.entries, |o.entries|, u);
      var fd := Mapped(StackOf(o.entries, o.cells), |o.entries|, u);
      && (i >= 0 && o.cells[o.entries[i].cell] != CLOSED ==>
            u in fds && o.cells[o.entries[i].cell] in o.fds && fds[u] == o.fds[o.cells[o.entries[i].cell]])
      && (i >= 0 && o.cells[o.entries[i].cell] != CLOSED ==>
            (fd == o.cells[o.entries[i].cell] <==> Top(o.entries, i, o.cells[o.entries[i].cell]) < 0))
      && (i >= 0 && o.cells[o.entries[i].cell] == CLOSED ==> fd == CLOSED && (u in fds ==> Held(cells, regs, u)))
      && (i < 0 ==> fd == u)
      && (i < 0 && u in o.fds && !Held(o.cells, o.regs, u) ==> u in fds && fds[u] == o.fds[u])
  {
    hide FilesKept, Held;
    forall j | 0 <= j < |o.entries| ensures o.entries[j].cell in o.cells {
      assert o.entries[j].cell in o.regs;
    }
    assert Replayed(o, |o.entries|, fds, cells, regs, u);
    FdmapExactly(o.entries, o.cells, u);
  }

  /** Nothing leaks: a descriptor that is open after replaying serves the user, or the shell
      holds it, or it was open, not the shell's, and no entry was for it. */
  lemma NothingLeaks(o: Origin, fds: Files, cells: map<nat, int>, regs: set<nat>, x: int)
    requires ReplayInv(o, |o.entries|, fds, cells, regs)
    ensures
      var i := Top(o.entries, |o.entries|, x);
      x in fds <==>
        || (i >= 0 && o.entries[i].cell in o.cells && o.cells[o.entries[i].cell] != CLOSED)
        || (x != CLOSED && Held(cells, regs, x))
        || (i < 0 && x in o.fds && !Held(o.cells, o.regs, x))
  {
    assert Replayed(o, |o.entries|, fds, cells, regs, x);
    forall j | 0 <= j < |o.entries| ensures o.entries[j].cell in o.cells {
      assert o.entries[j].cell in o.regs;
    }
    if x in fds && !Held(cells, regs, x) {
    } else if x != CLOSED && Held(cells, regs, x) {
      var c :| c in regs && c in cells && cells[c] == x;
    }
  }

  // ----- lists of registered variables -----

  ghost predicate NoRepeats(reserved: seq<Reserve>) {
    forall i, j :: 0 <= i < j < |reserved| ==> reserved[i].cell != reserved[j].cell
  }

  lemma SwappedOut(reserved: seq<Reserve>, i: nat)
    requires NoRepeats(reserved) && i < |reserved|
    ensures var n := |reserved| - 1;
      var rest := reserved[i := reserved[n]][..n];
      NoRepeats(rest) && CellsOf(rest) == CellsOf(reserved) - {reserved[i].cell}
      && (forall r :: r in rest <==> r in reserved && r != reserved[i])
  {
    var n := |reserved| - 1;
    var rest := reserved[i := reserved[n]][..n];
    forall c ensures c in CellsOf(rest) <==> c in CellsOf(reserved) && c != reserved[i].cell {
      if c in CellsOf(reserved) && c != reserved[i].cell {
        var j :| 0 <= j < |reserved| && reserved[j].cell == c;
        assert rest[if j == n then i else j].cell == c;
      }
    }
    forall r ensures r in rest <==> r in reserved && r != reserved[i] {
      if r in reserved && r != reserved[i] {
        var j :| 0 <= j < |reserved| && reserved[j] == r;
        assert rest[if j == n then i else j] == r;
      }
    }
  }

  lemma Appended(reserved: seq<Reserve>, r: Reserve)
    requires NoRepeats(reserved) && r.cell !in CellsOf(reserved)
    ensures NoRepeats(reserved + [r]) && CellsOf(reserved + [r]) == CellsOf(reserved) + {r.cell}
  {
    var all := reserved + [r];
    forall c ensures c in CellsOf(all) <==> c in CellsOf(reserved) || c == r.cell {
      if c in CellsOf(reserved) {
        var j :| 0 <= j < |reserved| && reserved[j].cell == c;
        assert all[j].cell == c;
      }
      assert all[|reserved|].cell == r.cell;
    }
    forall i, j | 0 <= i < j < |all| ensures all[i].cell != all[j].cell {
      assert all[i].cell in CellsOf(reserved);
    }
  }

  // ----- the shell's own state -----

  const UNREGISTERED: int := -999

  class Shell {
    var fds: Files
    /** The C variables that hold descriptors, by address. */
    var cells: map<nat, int>
    var nextCell: nat
    var deftab: seq<Defer>
    var defmax: nat
    var reserved: seq<Reserve>

    ghost function Regs(): set<nat>
      reads this
    {
      CellsOf(reserved)
    }

    ghost function State(): Origin
      reads this
    {
      Origin(fds, cells, Regs(), deftab)
    }

    ghost predicate Valid()
      reads this
    {
      && NoRepeats(reserved) && StackOk(State())
      && (forall i :: 0 <= i < |deftab| ==> deftab[i].userfd >= 0)
      && (forall c :: c in cells ==> c < nextCell)
    }

    method RegisterFd(cell: nat, closeonfork: bool)
      requires NoRepeats(reserved) && cell !in Regs()
      modifies `reserved
      ensures NoRepeats(reserved) && Regs() == old(Regs()) + {cell}
      ensures reserved == old(reserved) + [Reserve(cell, closeonfork)]
    {
      Appended(reserved, Reserve(cell, closeonfork));
      reserved := reserved + [Reserve(cell, closeonfork)];
    }

    method UnregisterFd(cell: nat)
      requires NoRepeats(reserved) && cell in Regs()
      modifies `reserved
      ensures NoRepeats(reserved) && Regs() == old(Regs()) - {cell}
      ensures forall r :: r in reserved <==> r in old(reserved) && r.cell != cell
    {
      var i := 0;
      while i < |reserved|
        invariant i <= |reserved| && reserved == old(reserved)
        invariant forall j :: 0 <= j < i ==> reserved[j].cell != cell
      {
        if reserved[i].cell == cell {
          SwappedOut(reserved, i);
          reserved := reserved[i := reserved[|reserved| - 1]][..|reserved| - 1];
          return;
        }
        i := i + 1;
      }
      assert false;
    }

    method ReleaseFd(n: int)
      requires n >= 0 && NoRepeats(reserved) && Distinct(fds, cells, Regs())
      modifies `fds, `cells
      ensures Released(old(fds), old(cells), Regs(), n, fds, cells)
    {
      ghost var d: Option<nat> := None;
      var i := 0;
      while i < |reserved|
        invariant i <= |reserved|
        invariant d.None? ==> fds == old(fds) && cells == old(cells) && forall j :: 0 <= j < i ==> cells[reserved[j].cell] != n
        invariant d.Some? ==> exists j :: 0 <= j < i && reserved[j].cell == d.value
        invariant d.Some? ==> ReleasedFrom(old(fds), old(cells), n, d.value, fds, cells)
      {
        var fdp := reserved[i].cell;
        assert fdp in Regs();
        var fd := cells[fdp];
        if fd == n {
          assert d.None?;
          cells := cells[fdp := LowestFree(fds, 0)];
          fds := fds[LowestFree(fds, 0) := fds[fd]];
          fds := fds - {fd};
          d := Some(fdp);
        }
        i := i + 1;
      }
    }

    method DoDeferred(realfd: int, userfd: int)
      requires userfd >= 0 && NoRepeats(reserved) && Distinct(fds, cells, Regs())
      requires realfd == CLOSED || (realfd in fds && !Held(cells, Regs(), realfd))
      modifies `fds, `cells
      ensures exists fds' :: Released(old(fds), old(cells), Regs(), userfd, fds', cells) && fds == Moved(fds', realfd, userfd)
    {
      ReleaseFd(userfd);
      ghost var fds' := fds;
      RealStays(old(fds), old(cells), Regs(), userfd, fds, cells, realfd);
      if realfd == CLOSED {
        fds := fds - {userfd};
      } else {
        MvFd(realfd, userfd);
      }
      assert fds == Moved(fds', realfd, userfd);
    }

    /** mvfd: dup2, then close the old descriptor. */
    method MvFd(from: int, to: int)
      requires from in fds && from != CLOSED
      modifies `fds
      ensures fds == Moved(old(fds), from, to)
    {
      if from != to {
        fds := fds[to := fds[from]];
        fds := fds - {from};
      }
    }

    /** fdmap */
    method FdMap(fd0: int) returns (fd: int)
      requires Valid()
      ensures fd == Mapped(StackOf(deftab, cells), |deftab|, fd0)
    {
      fd := fd0;
      var i := |deftab|;
      assert forall k :: 0 <= k < |deftab| ==> deftab[k].cell in Regs();
      while i > 0
        invariant 0 <= i <= |deftab|
        invariant Mapped(StackOf(deftab, cells), |deftab|, fd0) == Mapped(StackOf(deftab, cells), i, fd)
      {
        i := i - 1;
        if fd == deftab[i].userfd {
          fd := cells[deftab[i].cell];
          if fd == CLOSED {
            return;
          }
        }
      }
    }

    /** remapfds */
    method RemapFds()
      requires Valid()
      modifies `fds, `cells, `reserved, `deftab
      ensures NoRepeats(reserved) && deftab == []
      ensures ReplayInv(old(State()), |old(deftab)|, fds, cells, Regs())
    {
      hide Replayed, FilesKept, FileKept, Distinct, Released, Held;
      ghost var o := State();
      ReplayStarts(o);
      var k := 0;
      while k < |deftab|
        invariant k <= |deftab| && deftab == o.entries && NoRepeats(reserved)
        invariant ReplayInv(o, k, fds, cells, Regs())
      {
        ghost var fds0, cells0, regs0 := fds, cells, Regs();
        RealDescriptor(o, k, fds, cells, Regs());
        UnregisterFd(deftab[k].cell);
        var realfd := cells[deftab[k].cell];
        DoDeferred(realfd, deftab[k].userfd);
        ghost var fds' :| Released(fds0, cells0, Regs(), deftab[k].userfd, fds', cells) && fds == Moved(fds', realfd, deftab[k].userfd);
        ReplayStep(o, k, fds0, cells0, regs0, fds', cells);
        k := k + 1;
      }
      deftab := [];
    }

    method IsDeferred(fd: int) returns (r: bool)
      ensures r <==> fd in UserSet(deftab)
      ensures r <==> exists d :: d in deftab && d.userfd == fd
    {
      for i := 0 to |deftab|
        invariant forall j :: 0 <= j < i ==> deftab[j].userfd != fd
      {
        if deftab[i].userfd == fd {
          return true;
        }
      }
      r := false;
    }

    /** newfd: a number that is neither open nor deferred.  Numbers dup hands out that are
        deferred are kept open while looking for another one. */
    method NewFd() returns (n: int)
      modifies `fds
      ensures fds == old(fds) && n >= 0 && n !in fds && n !in UserSet(deftab)
      ensures forall d :: d in deftab ==> d.userfd != n
      decreases UserSet(deftab) - fds.Keys
    {
      var i := 3;
      while true
        invariant i >= 3 && fds == old(fds)
        decreases Above(UserSet(deftab), i)
      {
        var deferred := IsDeferred(i);
        if !deferred {
          if i !in fds {
            return i;
          }
          var fd := LowestFree(fds, 0);
          fds := fds[fd := fds[i]];
          deferred := IsDeferred(fd);
          if deferred {
            assert fd in UserSet(deftab) - old(fds).Keys && fd !in UserSet(deftab) - fds.Keys;
            assert UserSet(deftab) - fds.Keys < UserSet(deftab) - old(fds).Keys;
            n := NewFd();
          } else {
            n := fd;
          }
          fds := fds - {fd};
          assert fds == old(fds);
          return;
        }
        assert i in Above(UserSet(deftab), i) && i !in Above(UserSet(deftab), i + 1);
        i := i + 1;
      }
    }

    /** What the stack says: real and user descriptor of each entry, oldest first. */
    ghost function Stack(): seq<(int, int)>
      requires Valid()
      reads this
    {
      StackOf(deftab, cells)
    }

    /** The registered variables that belong to other parts of the shell. */
    ghost function Others(): set<nat>
      reads this
    {
      Regs() - DoneCells(deftab, |deftab|)
    }

    method UnregisterAll()
      requires NoRepeats(reserved) && StackOk(State())
      modifies `reserved
      ensures NoRepeats(reserved) && Regs() == old(Others())
    {
      hide Distinct;
      ghost var regs := Regs();
      var i := 0;
      assert DoneCells(deftab, 0) == {};
      while i < |deftab|
        invariant i <= |deftab| && NoRepeats(reserved) && Regs() == regs - DoneCells(deftab, i)
      {
        assert DoneCells(deftab, i + 1) == DoneCells(deftab, i) + {deftab[i].cell};
        assert deftab[i].cell in regs;
        UnregisterFd(deftab[i].cell);
        i := i + 1;
      }
    }

    method RegisterAll()
      requires NoRepeats(reserved) && Regs() !! DoneCells(deftab, |deftab|)
      requires forall i, j :: 0 <= i < j < |deftab| ==> deftab[i].cell != deftab[j].cell
      modifies `reserved
      ensures NoRepeats(reserved) && Regs() == old(Regs()) + DoneCells(deftab, |deftab|)
    {
      ghost var regs := Regs();
      var i := 0;
      assert DoneCells(deftab, 0) == {};
      while i < |deftab|
        invariant i <= |deftab| && NoRepeats(reserved) && Regs() == regs + DoneCells(deftab, i)
      {
        assert DoneCells(deftab, i + 1) == DoneCells(deftab, i) + {deftab[i].cell};
        assert deftab[i].cell in DoneCells(deftab, |deftab|);
        RegisterFd(deftab[i].cell, true);
        i := i + 1;
      }
    }

    /** erealloc: every real descriptor variable gets a new address. */
    method MoveVariables(ghost first: nat)
      requires first == nextCell && forall c :: c in cells ==> c < nextCell
      requires forall i :: 0 <= i < |deftab| ==> deftab[i].cell in cells
      modifies `cells, `nextCell, `deftab
      ensures |deftab| == old(|deftab|) && forall c :: c in cells ==> c < nextCell
      ensures forall c :: c in old(cells) ==> c in cells && cells[c] == old(cells)[c]
      ensures forall j :: 0 <= j < |deftab| ==> deftab[j] == Defer(first + j, old(deftab)[j].userfd)
      ensures forall j :: 0 <= j < |deftab| ==> deftab[j].cell in cells && cells[deftab[j].cell] == old(cells)[old(deftab)[j].cell]
    {
      var moved: seq<Defer> := [];
      while |moved| < |deftab|
        invariant |moved| <= |deftab| && nextCell == first + |moved| && deftab == old(deftab)
        invariant forall j :: 0 <= j < |moved| ==> moved[j] == Defer(first + j, deftab[j].userfd)
        invariant forall c :: c in old(cells) ==> c in cells && cells[c] == old(cells)[c]
        invariant forall j :: 0 <= j < |moved| ==> moved[j].cell in cells && cells[moved[j].cell] == old(cells)[deftab[j].cell]
        invariant forall c :: c in cells ==> c < nextCell
      {
        var d := deftab[|moved|];
        cells := cells[nextCell := cells[d.cell]];
        moved := moved + [Defer(nextCell, d.userfd)];
        nextCell := nextCell + 1;
      }
      deftab := moved;
    }

    /** The part of pushdefer that makes room: the variables move, so they are taken off the
        list of registered variables and put back under their new addresses. */
    method GrowTable()
      requires Valid()
      modifies `cells, `nextCell, `deftab, `defmax, `reserved
      ensures Valid() && |deftab| == old(|deftab|) && defmax == old(defmax) + 10
      ensures StackOf(deftab, cells) == old(StackOf(deftab, cells))
      ensures Others() == old(Others())
      ensures forall c :: c in Others() ==> c in old(cells) && c in cells && cells[c] == old(cells)[c]
    {
      hide Distinct;
      ghost var o, others := State(), Others();
      KnownCells(o);
      ghost var first := nextCell;
      UnregisterAll();
      defmax := defmax + 10;
      MoveVariables(first);
      NewCells(deftab, first, |deftab|);
      RegisterAll();
      Relocated(o, others, cells, deftab, first);
      assert Others() == others;
    }

    /** pushdefer in the parent: remember the operation. */
    method PushParent(realfd: int, userfd: int) returns (ticket: int)
      requires Valid() && userfd >= 0
      requires realfd == CLOSED || (realfd in fds && !Held(cells, Regs(), realfd))
      modifies `cells, `nextCell, `deftab, `defmax, `reserved
      ensures Valid() && ticket == old(|deftab|) == |deftab| - 1
      ensures StackOf(deftab, cells) == old(StackOf(deftab, cells)) + [(realfd, userfd)]
      ensures Others() == old(Others())
      ensures forall c :: c in Others() ==> c in old(cells) && c in cells && cells[c] == old(cells)[c]
    {
      hide Held, Distinct, StackOf;
      if |deftab| >= defmax {
        ghost var o := State();
        GrowTable();
        SameHeld(o, State(), realfd);
      }
      ghost var o, others := State(), Others();
      KnownCells(o);
      cells := cells[nextCell := realfd];
      deftab := deftab + [Defer(nextCell, userfd)];
      RegisterFd(nextCell, true);
      nextCell := nextCell + 1;
      PushedOk(o, State(), realfd, userfd, nextCell - 1);
      DoneOneMore(o.entries, Defer(nextCell - 1, userfd));
      assert Others() == others;
      ticket := |deftab| - 1;
    }

    /** pushdefer: the parent remembers the operation, a child performs it. */
    method PushDefer(parent: bool, realfd: int, userfd: int) returns (ticket: int)
      requires Valid() && userfd >= 0
      requires realfd == CLOSED || (realfd in fds && !Held(cells, Regs(), realfd))
      modifies this
      ensures parent ==> Valid() && fds == old(fds) && ticket == old(|deftab|) == |deftab| - 1
      ensures parent ==> StackOf(deftab, cells) == old(StackOf(deftab, cells)) + [(realfd, userfd)]
      ensures parent ==> Others() == old(Others())
      ensures parent ==> forall c :: c in Others() ==> c in old(cells) && c in cells && cells[c] == old(cells)[c]
      ensures !parent ==> ticket == UNREGISTERED && deftab == old(deftab) && reserved == old(reserved)
      ensures !parent ==> exists fds' :: Released(old(fds), old(cells), Regs(), userfd, fds', cells) && fds == Moved(fds', realfd, userfd)
    {
      if parent {
        ticket := PushParent(realfd, userfd);
      } else {
        DoDeferred(realfd, userfd);
        ticket := UNREGISTERED;
      }
    }

    /** undefer: tickets come back in the opposite order. */
    method Undefer(ticket: int)
      requires Valid() && (ticket == UNREGISTERED || (|deftab| > 0 && ticket == |deftab| - 1))
      modifies `fds, `deftab, `reserved
      ensures ticket == UNREGISTERED ==> fds == old(fds) && deftab == old(deftab) && reserved == old(reserved)
      ensures ticket != UNREGISTERED ==> Valid() && deftab == old(deftab)[..|old(deftab)| - 1] && Others() == old(Others())
      ensures ticket != UNREGISTERED ==> fds == old(fds) - {cells[old(deftab)[|old(deftab)| - 1].cell]}
    {
      if ticket != UNREGISTERED {
        ghost var o := State();
        var n := |deftab| - 1;
        var d := deftab[n];
        assert DoneCells(deftab, |deftab|) == DoneCells(deftab[..n], n) + {d.cell};
        assert d.cell in Regs();
        deftab := deftab[..n];
        UnregisterFd(d.cell);
        PoppedOk(o, State(), if cells[d.cell] != CLOSED then fds - {cells[d.cell]} else fds);
        if cells[d.cell] != CLOSED {
          fds := fds - {cells[d.cell]};
        }
        assert CLOSED !in fds;
      }
    }

    /** run_redir in the parent, around any commands: the entry is on the stack while they run,
        and is taken back when they end, normally or by an exception. */
    method RunRedir(realfd: int, userfd: nat, body: Redirections) returns (failed: bool, ghost seen: seq<View>)
      requires Valid() && (realfd == CLOSED || (realfd in fds && !Held(cells, Regs(), realfd)))
      modifies this
      ensures Redirected(failed, seen) == Around(body, old(Stack()) + [(realfd, userfd)], old(fds))
      ensures Valid() && fds == old(fds) - {realfd}
      ensures StackOf(deftab, cells) == old(StackOf(deftab, cells)) && Others() == old(Others())
      ensures forall c :: c in Others() ==> c in old(cells) && c in cells && cells[c] == old(cells)[c]
      decreases body, 1
    {
      hide Held, Distinct, StackOk;
      var ticket := PushDefer(true, realfd, userfd);
      ghost var stack := StackOf(deftab, cells);
      seen := [ViewOf(stack, fds)];
      ghost var more;
      failed, more := RunRedirections(body);
      seen := seen + more;
      ghost var n, before := |deftab| - 1, deftab;
      assert |stack| == |deftab| && stack[n] == (realfd, userfd);
      TopOfStack(before, cells, realfd, userfd, State());
      Undefer(ticket);
      StackBelow(before, cells);
    }

    /** Any well-nested run of redirections leaves the descriptors, the stack and the other
        registered variables as they were. */
    method RunRedirections(r: Redirections) returns (failed: bool, ghost seen: seq<View>)
      requires Valid()
      modifies this
      ensures Redirected(failed, seen) == Effect(r, old(Stack()), old(fds))
      ensures Valid() && fds == old(fds)
      ensures StackOf(deftab, cells) == old(StackOf(deftab, cells)) && Others() == old(Others())
      ensures forall c :: c in Others() ==> c in old(cells) && c in cells && cells[c] == old(cells)[c]
      decreases r, 0
    {
      hide Held, Distinct, StackOk, StackOf;
      KnownCells(State());
      NeverOpen(State());
      seen := [];
      match r {
        case Nothing =>
          failed := false;
        case Raise =>
          failed := true;
        case Both(first, second) =>
          failed, seen := RunRedirections(first);
          if !failed {
            ghost var more;
            failed, more := RunRedirections(second);
            seen := seen + more;
          }
        case Close(userfd, body) =>
          failed, seen := RunRedir(CLOSED, userfd, body);
        case Open(file, userfd, body) =>
          failed, seen := RunOpened(file, userfd, body);
        case Dup(userfd, source, body) =>
          var fd := FdMap(source);
          if fd in fds {
            failed, seen := RunOpened(fds[fd], userfd, body);
          } else {
            failed := true;
          }
      }
    }

    /** A file is opened, or duplicated, on the lowest free descriptor. */
    method RunOpened(file: int, userfd: nat, body: Redirections) returns (failed: bool, ghost seen: seq<View>)
      requires Valid()
      modifies this
      ensures Redirected(failed, seen) == EffectOfOpen(file, userfd, body, old(Stack()), old(fds))
      ensures Valid() && fds == old(fds)
      ensures StackOf(deftab, cells) == old(StackOf(deftab, cells)) && Others() == old(Others())
      ensures forall c :: c in Others() ==> c in old(cells) && c in cells && cells[c] == old(cells)[c]
      decreases body, 2
    {
      hide Held, Distinct, StackOk, StackOf;
      var realfd := LowestFree(fds, 0);
      OpenedOk(State(), realfd, file);
      fds := fds[realfd := file];
      failed, seen := RunRedir(realfd, userfd, body);
      assert old(fds)[realfd := file] - {realfd} == old(fds);
    }
  }

  /** Commands, as far as descriptors can tell: opening a file, closing, duplicating what
      another user descriptor stands for, each around other commands; and exceptions. */
  datatype Redirections =
    | Nothing
    | Raise
    | Both(first: Redirections, second: Redirections)
    | Open(file: int, userfd: nat, body: Redirections)
    | Close(userfd: nat, body: Redirections)
    | Dup(userfd: nat, source: nat, body: Redirections)

  // ----- what redirections do -----

  /** User descriptors on the stack, oldest first, and the file each stands for; None is closed. */
  type View = seq<(int, Option<int>)>

  /** seen: the stack each time the commands inside a redirection start. */
  datatype Redirected = Redirected(failed: bool, seen: seq<View>)

  function FileAt(fds: Files, fd: int): Option<int> {
    if fd in fds then Some(fds[fd]) else None
  }

  function ViewOf(stack: seq<(int, int)>, fds: Files): (view: View)
    ensures |view| == |stack|
  {
    seq(|stack|, i requires 0 <= i < |stack| => (stack[i].1, FileAt(fds, stack[i].0)))
  }

  function Around(body: Redirections, stack: seq<(int, int)>, fds: Files): Redirected
    decreases body, 1
  {
    var o := Effect(body, stack, fds);
    o.(seen := [ViewOf(stack, fds)] + o.seen)
  }

  function EffectOfOpen(file: int, userfd: nat, body: Redirections, stack: seq<(int, int)>, fds: Files): Redirected
    decreases body, 2
  {
    var realfd := LowestFree(fds, 0);
    Around(body, stack + [(realfd, userfd)], fds[realfd := file])
  }

  /** As the shell works it out from its stack and its real descriptors. */
  function Effect(r: Redirections, stack: seq<(int, int)>, fds: Files): Redirected
    decreases r, 0
  {
    match r
    case Nothing => Redirected(false, [])
    case Raise => Redirected(true, [])
    case Both(first, second) =>
      var o := Effect(first, stack, fds);
      if o.failed then o else var p := Effect(second, stack, fds); p.(seen := o.seen + p.seen)
    case Close(userfd, body) => Around(body, stack + [(CLOSED, userfd)], fds)
    case Open(file, userfd, body) => EffectOfOpen(file, userfd, body, stack, fds)
    case Dup(userfd, source, body) =>
      var fd := Mapped(stack, |stack|, source);
      if fd in fds then EffectOfOpen(fds[fd], userfd, body, stack, fds) else Redirected(true, [])
  }

  /** What a user descriptor stands for: the file of the topmost entry for it, or what it was. */
  function Stands(view: View, base: Files, u: int): Option<int>
    decreases |view|
  {
    if view == [] then FileAt(base, u)
    else
      var (user, file) := view[|view| - 1];
      if user == u then file else Stands(view[..|view| - 1], base, u)
  }

  function Inside(body: Redirections, view: View, base: Files): Redirected
    decreases body, 1
  {
    var o := Nested(body, view, base);
    o.(seen := [view] + o.seen)
  }

  /** What nested redirections mean, without real descriptors: each gives a user descriptor
      another file, or none, for the commands inside it. */
  function Nested(r: Redirections, view: View, base: Files): Redirected
    decreases r, 0
  {
    match r
    case Nothing => Redirected(false, [])
    case Raise => Redirected(true, [])
    case Both(first, second) =>
      var o := Nested(first, view, base);
      if o.failed then o else var p := Nested(second, view, base); p.(seen := o.seen + p.seen)
    case Close(userfd, body) => Inside(body, view + [(userfd, None)], base)
    case Open(file, userfd, body) => Inside(body, view + [(userfd, Some(file))], base)
    case Dup(userfd, source, body) =>
      var file := Stands(view, base, source);
      if file.Some? then Inside(body, view + [(userfd, file)], base) else Redirected(true, [])
  }

  /** The descriptors a command names. */
  function Numbers(r: Redirections): set<int> {
    match r
    case Nothing => {}
    case Raise => {}
    case Both(first, second) => Numbers(first) + Numbers(second)
    case Close(userfd, body) => Numbers(body) + {userfd}
    case Open(_, userfd, body) => Numbers(body) + {userfd}
    case Dup(userfd, source, body) => Numbers(body) + {userfd, source}
  }

  /** How many real descriptors it has open at once. */
  function Depth(r: Redirections): nat {
    match r
    case Nothing => 0
    case Raise => 0
    case Both(first, second) => if Depth(first) > Depth(second) then Depth(first) else Depth(second)
    case Close(_, body) => Depth(body)
    case Open(_, _, body) => Depth(body) + 1
    case Dup(_, _, body) => Depth(body) + 1
  }

  /** The lowest d numbers that are not open. */
  function FreeNumbers(fds: Files, d: nat): set<int>
    decreases d
  {
    if d == 0 then {}
    else
      var fd := LowestFree(fds, 0);
      FreeNumbers(fds[fd := 0], d - 1) + {fd}
  }

  function Users(stack: seq<(int, int)>): set<int> {
    set i | 0 <= i < |stack| :: stack[i].1
  }

  /** The real descriptors on the stack are open and the shell's own. */
  predicate RealsOwn(stack: seq<(int, int)>, fds: Files, own: set<int>) {
    && CLOSED !in fds
    && forall i :: 0 <= i < |stack| && stack[i].0 != CLOSED ==> stack[i].0 in own && stack[i].0 in fds
  }

  /** None of these numbers is the shell's own or among the next d it will use. */
  predicate Clear(users: set<int>, fds: Files, own: set<int>, d: nat) {
    CLOSED !in users && users !! own && users !! FreeNumbers(fds, d)
  }

  /** The command and the stack name no descriptor that the shell uses itself, or will use. */
  predicate Apart(r: Redirections, stack: seq<(int, int)>, fds: Files, own: set<int>) {
    RealsOwn(stack, fds, own) && Clear(Numbers(r) + Users(stack), fds, own, Depth(r))
  }

  lemma {:induction false} FreeNumbersKeys(fds: Files, fds': Files, d: nat)
    requires fds.Keys == fds'.Keys
    ensures FreeNumbers(fds, d) == FreeNumbers(fds', d)
    decreases d
  {
    if d > 0 {
      assert LowestFree(fds, 0) == LowestFree(fds', 0);
      FreeNumbersKeys(fds[LowestFree(fds, 0) := 0], fds'[LowestFree(fds, 0) := 0], d - 1);
    }
  }

  lemma {:induction false} FreeNumbersMore(fds: Files, d: nat, e: nat)
    requires d <= e
    ensures FreeNumbers(fds, d) <= FreeNumbers(fds, e)
    decreases d
  {
    if d > 0 {
      FreeNumbersMore(fds[LowestFree(fds, 0) := 0], d - 1, e - 1);
    }
  }

  /** Where fdmap leads, when the numbers are apart. */
  lemma {:induction false} MappedApart(stack: seq<(int, int)>, k: nat, fds: Files, own: set<int>, u: int)
    requires k <= |stack| && RealsOwn(stack, fds, own) && Users(stack) !! own && u != CLOSED && u !in own
    ensures FileAt(fds, Mapped(stack, k, u)) == Stands(ViewOf(stack, fds)[..k], fds - own, u)
  {
    var view := ViewOf(stack, fds);
    if k > 0 {
      assert view[..k][..k - 1] == view[..k - 1];
      if stack[k - 1].1 != u {
        MappedApart(stack, k - 1, fds, own, u);
      } else if stack[k - 1].0 != CLOSED {
        NoUser(stack, k - 1, own, stack[k - 1].0);
      }
    }
  }

  lemma {:induction false} NoUser(stack: seq<(int, int)>, k: nat, own: set<int>, fd: int)
    requires k <= |stack| && Users(stack) !! own && fd in own
    ensures Mapped(stack, k, fd) == fd
  {
    if k > 0 {
      assert stack[k - 1].1 in Users(stack);
      NoUser(stack, k - 1, own, fd);
    }
  }

  /** One more entry, for a file on the lowest free descriptor. */
  lemma OpenedApart(r: Redirections, body: Redirections, file: int, userfd: int, stack: seq<(int, int)>, fds: Files, own: set<int>)
    requires Apart(r, stack, fds, own) && Numbers(r) >= Numbers(body) + {userfd} && Depth(r) == Depth(body) + 1
    ensures var fd := LowestFree(fds, 0); Apart(body, stack + [(fd, userfd)], fds[fd := file], own + {fd})
  {
    hide FreeNumbers, Users, Numbers, Depth, RealsOwn, Clear;
    var fd := LowestFree(fds, 0);
    OneMoreUser(stack, fd, userfd);
    OneMoreReal(stack, fds, own, fd, file, userfd);
    ClearNext(Numbers(r) + Users(stack), Numbers(body) + (Users(stack) + {userfd}), fds, own, file, Depth(body));
  }

  lemma OneMoreReal(stack: seq<(int, int)>, fds: Files, own: set<int>, fd: nat, file: int, userfd: int)
    requires RealsOwn(stack, fds, own)
    ensures RealsOwn(stack + [(fd, userfd)], fds[fd := file], own + {fd})
  {}

  lemma ClearNext(users: set<int>, fewer: set<int>, fds: Files, own: set<int>, file: int, d: nat)
    requires Clear(users, fds, own, d + 1) && fewer <= users
    ensures var fd := LowestFree(fds, 0); Clear(fewer, fds[fd := file], own + {fd}, d)
  {
    hide FreeNumbers;
    FreeNumbersNext(fds, file, d);
  }

  lemma ClearOf(users: set<int>, fewer: set<int>, fds: Files, own: set<int>, d: nat, e: nat)
    requires Clear(users, fds, own, d) && fewer <= users && e <= d
    ensures Clear(fewer, fds, own, e)
  {
    FreeNumbersMore(fds, e, d);
  }

  lemma SameRest(fds: Files, own: set<int>, file: int)
    ensures var fd := LowestFree(fds, 0); fds[fd := file] - (own + {fd}) == fds - own
  {}

  lemma FreeNumbersNext(fds: Files, file: int, d: nat)
    ensures var fd := LowestFree(fds, 0); FreeNumbers(fds, d + 1) == FreeNumbers(fds[fd := file], d) + {fd}
  {
    FreeNumbersKeys(fds[LowestFree(fds, 0) := file], fds[LowestFree(fds, 0) := 0], d);
  }

  lemma OpenedView(file: int, userfd: int, stack: seq<(int, int)>, fds: Files, own: set<int>)
    requires RealsOwn(stack, fds, own)
    ensures var fd := LowestFree(fds, 0);
      ViewOf(stack + [(fd, userfd)], fds[fd := file]) == ViewOf(stack, fds) + [(userfd, Some(file))]
  {}

  lemma OneMoreUser(stack: seq<(int, int)>, fd: int, userfd: int)
    ensures Users(stack + [(fd, userfd)]) == Users(stack) + {userfd}
  {
    var all := stack + [(fd, userfd)];
    assert all[|stack|].1 == userfd;
    forall u | u in Users(stack) ensures u in Users(all) {
      var i :| 0 <= i < |stack| && stack[i].1 == u;
      assert all[i].1 == u;
    }
  }

  /** Redirections do what they mean, as long as nobody names the shell's own descriptors. */
  lemma {:induction false} EffectIsNested(r: Redirections, stack: seq<(int, int)>, fds: Files, own: set<int>)
    requires Apart(r, stack, fds, own)
    ensures Effect(r, stack, fds) == Nested(r, ViewOf(stack, fds), fds - own)
    decreases r, 1
  {
    hide FreeNumbers, Users, Clear, RealsOwn;
    var view, base, users := ViewOf(stack, fds), fds - own, Numbers(r) + Users(stack);
    match r
    case Nothing =>
    case Raise =>
    case Both(first, second) =>
      ClearOf(users, Numbers(first) + Users(stack), fds, own, Depth(r), Depth(first));
      ClearOf(users, Numbers(second) + Users(stack), fds, own, Depth(r), Depth(second));
      EffectIsNested(first, stack, fds, own);
      EffectIsNested(second, stack, fds, own);
    case Close(userfd, body) =>
      OneMoreUser(stack, CLOSED, userfd);
      assert Numbers(body) + (Users(stack) + {userfd}) == users;
      ClosedView(stack, userfd, fds, own);
      EffectIsNested(body, stack + [(CLOSED, userfd)], fds, own);
    case Open(file, userfd, body) =>
      OpenedIsInside(r, body, file, userfd, stack, fds, own);
    case Dup(userfd, source, body) =>
      var fd := Mapped(stack, |stack|, source);
      ClearIs(users, fds, own, Depth(r));
      MappedApart(stack, |stack|, fds, own, source);
      assert view[..|stack|] == view;
      if fd in fds {
        OpenedIsInside(r, body, fds[fd], userfd, stack, fds, own);
      }
  }

  lemma ClosedView(stack: seq<(int, int)>, userfd: int, fds: Files, own: set<int>)
    requires RealsOwn(stack, fds, own)
    ensures RealsOwn(stack + [(CLOSED, userfd)], fds, own)
    ensures ViewOf(stack + [(CLOSED, userfd)], fds) == ViewOf(stack, fds) + [(userfd, None)]
  {}

  lemma ClearIs(users: set<int>, fds: Files, own: set<int>, d: nat)
    requires Clear(users, fds, own, d)
    ensures CLOSED !in users && users !! own
  {}

  lemma {:induction false} OpenedIsInside(r: Redirections, body: Redirections, file: int, userfd: nat,
                                          stack: seq<(int, int)>, fds: Files, own: set<int>)
    requires Apart(r, stack, fds, own) && Numbers(r) >= Numbers(body) + {userfd} && Depth(r) == Depth(body) + 1
    requires body < r
    ensures EffectOfOpen(file, userfd, body, stack, fds) == Inside(body, ViewOf(stack, fds) + [(userfd, Some(file))], fds - own)
    decreases r, 0
  {
    hide FreeNumbers, Users, Clear, RealsOwn, Numbers, Depth;
    var fd := LowestFree(fds, 0);
    OpenedApart(r, body, file, userfd, stack, fds, own);
    OpenedView(file, userfd, stack, fds, own);
    SameRest(fds, own, file);
    EffectIsNested(body, stack + [(fd, userfd)], fds[fd := file], own + {fd});
  }

  /** The files that are open and not in the shell's own use. */
  ghost function Visible(fds: Files, cells: map<nat, int>, regs: set<nat>): Files {
    map x | x in fds && !Held(cells, regs, x) :: fds[x]
  }

  /** The open descriptors that the shell uses itself. */
  ghost function Own(o: Origin): set<int> {
    set x | x in o.fds && Held(o.cells, o.regs, x)
  }

  /** So it is for any command of the shell, whatever is on the stack. */
  lemma RedirectionsNest(o: Origin, r: Redirections)
    requires StackOk(o)
    requires Clear(Numbers(r) + Users(StackOf(o.entries, o.cells)), o.fds, Own(o), Depth(r))
    ensures Effect(r, StackOf(o.entries, o.cells), o.fds) ==
      Nested(r, ViewOf(StackOf(o.entries, o.cells), o.fds), Visible(o.fds, o.cells, o.regs))
  {
    hide Clear, Held, Distinct;
    var stack, own := StackOf(o.entries, o.cells), Own(o);
    forall i | 0 <= i < |stack| && stack[i].0 != CLOSED ensures stack[i].0 in own && stack[i].0 in o.fds {
      EntryOwn(o, i);
    }
    NeverOpen(o);
    EffectIsNested(r, stack, o.fds, own);
    assert o.fds - own == Visible(o.fds, o.cells, o.regs);
  }

  lemma EntryOwn(o: Origin, i: nat)
    requires StackOk(o) && i < |o.entries|
    ensures o.entries[i].cell in o.regs && o.entries[i].cell in o.cells
    ensures var fd := o.cells[o.entries[i].cell]; fd != CLOSED ==> fd in o.fds && Held(o.cells, o.regs, fd)
  {}

  /** A child forked while that is the stack sees just what the user descriptors stand for. */
  lemma ChildSees(o: Origin, fds: Files, cells: map<nat, int>, regs: set<nat>, u: int)
    requires ReplayInv(o, |o.entries|, fds, cells, regs)
    ensures FileAt(Visible(fds, cells, regs), u) ==
      Stands(ViewOf(StackOf(o.entries, o.cells), o.fds), Visible(o.fds, o.cells, o.regs), u)
  {
    hide FilesKept, Held;
    var view := ViewOf(StackOf(o.entries, o.cells), o.fds);
    StandsByTop(o, |o.entries|, u);
    assert view[..|o.entries|] == view;
    assert Replayed(o, |o.entries|, fds, cells, regs, u);
  }

  lemma {:induction false} StandsByTop(o: Origin, k: nat, u: int)
    requires StackOk(o) && k <= |o.entries|
    ensures var i, base := Top(o.entries, k, u), Visible(o.fds, o.cells, o.regs);
      Stands(ViewOf(StackOf(o.entries, o.cells), o.fds)[..k], base, u) ==
        if i >= 0 && o.entries[i].cell in o.cells then FileAt(o.fds, o.cells[o.entries[i].cell]) else FileAt(base, u)
  {
    var view := ViewOf(StackOf(o.entries, o.cells), o.fds);
    if k > 0 {
      assert o.entries[k - 1].cell in o.regs;
      assert view[..k][..k - 1] == view[..k - 1];
      if o.entries[k - 1].userfd != u {
        StandsByTop(o, k - 1, u);
      }
    }
  }

  lemma NeverOpen(o: Origin)
    requires StackOk(o)
    ensures CLOSED !in o.fds && o.fds - {CLOSED} == o.fds
  {}

  /** A descriptor that was free is not held by the shell. */
  lemma OpenedOk(o: Origin, realfd: nat, file: int)
    requires StackOk(o) && realfd !in o.fds
    ensures !Held(o.cells, o.regs, realfd) && StackOk(o.(fds := o.fds[realfd := file]))
  {}

  lemma TopOfStack(deftab: seq<Defer>, cells: map<nat, int>, realfd: int, userfd: int, o: Origin)
    requires deftab != [] && StackOk(o) && o.entries == deftab && o.cells == cells
    requires |StackOf(deftab, cells)| == |deftab| && StackOf(deftab, cells)[|deftab| - 1] == (realfd, userfd)
    ensures deftab[|deftab| - 1].cell in cells && cells[deftab[|deftab| - 1].cell] == realfd
  {}

  lemma StackBelow(deftab: seq<Defer>, cells: map<nat, int>)
    requires deftab != []
    ensures StackOf(deftab[..|deftab| - 1], cells) == StackOf(deftab, cells)[..|deftab| - 1]
  {}

  ghost function Above(users: set<int>, i: int): set<int> {
    set u | u in users && u >= i
  }

  ghost function UserSet(deftab: seq<Defer>): set<int> {
    set i | 0 <= i < |deftab| :: deftab[i].userfd
  }

  lemma DoneOneMore(entries: seq<Defer>, d: Defer)
    ensures DoneCells(entries + [d], |entries| + 1) == DoneCells(entries, |entries|) + {d.cell}
  {
    var all := entries + [d];
    assert all[|entries|] == d;
    forall c | c in DoneCells(entries, |entries|) ensures c in DoneCells(all, |entries| + 1) {
      var i :| 0 <= i < |entries| && entries[i].cell == c;
      assert all[i].cell == c;
    }
  }

  lemma KnownCells(o: Origin)
    requires StackOk(o)
    ensures o.regs <= o.cells.Keys
    ensures forall i :: 0 <= i < |o.entries| ==> o.entries[i].cell in o.cells
  {
    forall i | 0 <= i < |o.entries| ensures o.entries[i].cell in o.cells {
      assert o.entries[i].cell in o.regs;
    }
  }

  lemma NewCells(deftab: seq<Defer>, first: nat, k: nat)
    requires k <= |deftab| && forall j :: 0 <= j < |deftab| ==> deftab[j].cell == first + j
    ensures forall c :: c in DoneCells(deftab, k) ==> c >= first
  {}

  lemma Relocated(o: Origin, others: set<nat>, cells: map<nat, int>, deftab: seq<Defer>, first: nat)
    requires StackOk(o) && others == o.regs - DoneCells(o.entries, |o.entries|) && |deftab| == |o.entries|
    requires forall c :: c in o.cells ==> c < first && c in cells && cells[c] == o.cells[c]
    requires forall j :: 0 <= j < |deftab| ==> deftab[j] == Defer(first + j, o.entries[j].userfd)
    requires forall j :: 0 <= j < |deftab| ==> deftab[j].cell in cells && cells[deftab[j].cell] == o.cells[o.entries[j].cell]
    ensures StackOk(Origin(o.fds, cells, others + DoneCells(deftab, |deftab|), deftab))
    ensures StackOf(deftab, cells) == StackOf(o.entries, o.cells)
  {
    forall j | 0 <= j < |deftab| ensures o.entries[j].cell in o.regs && o.entries[j].cell in DoneCells(o.entries, |o.entries|) {
    }
    var regs := others + DoneCells(deftab, |deftab|);
    forall c, d | c in regs && d in regs && c != d && cells[c] != CLOSED ensures cells[c] != cells[d] {
      var c0 := if c < first then c else o.entries[c - first].cell;
      var d0 := if d < first then d else o.entries[d - first].cell;
      assert c0 in o.regs && d0 in o.regs && c0 != d0;
    }
  }

  /** A descriptor that was not held before the variables moved is not held after. */
  lemma SameHeld(o: Origin, o': Origin, x: int)
    requires StackOk(o) && StackOk(o') && StackOf(o.entries, o.cells) == StackOf(o'.entries, o'.cells)
    requires o.regs - DoneCells(o.entries, |o.entries|) == o'.regs - DoneCells(o'.entries, |o'.entries|)
    requires forall c :: c in o'.regs - DoneCells(o'.entries, |o'.entries|) ==> c in o.cells && c in o'.cells && o'.cells[c] == o.cells[c]
    ensures Held(o'.cells, o'.regs, x) ==> Held(o.cells, o.regs, x)
  {
    if Held(o'.cells, o'.regs, x) {
      var c :| c in o'.regs && c in o'.cells && o'.cells[c] == x;
      if c in DoneCells(o'.entries, |o'.entries|) {
        var i :| 0 <= i < |o'.entries| && o'.entries[i].cell == c;
        assert StackOf(o'.entries, o'.cells)[i].0 == x;
        assert StackOf(o.entries, o.cells)[i].0 == x;
        assert o.entries[i].cell in o.regs && o.entries[i].cell in o.cells;
        assert o.cells[o.entries[i].cell] == x;
      } else {
        assert c in o'.regs - DoneCells(o'.entries, |o'.entries|);
        assert c in o.regs - DoneCells(o.entries, |o.entries|);
        assert c in o.regs && o.cells[c] == x;
      }
    }
  }

  lemma PushedOk(o: Origin, o': Origin, realfd: int, userfd: nat, c: nat)
    requires StackOk(o) && o'.fds == o.fds && (realfd == CLOSED || (realfd in o.fds && !Held(o.cells, o.regs, realfd)))
    requires c !in o.cells && c !in o.regs && o'.cells == o.cells[c := realfd]
    requires o'.entries == o.entries + [Defer(c, userfd)] && o'.regs == o.regs + {c}
    ensures StackOk(o') && StackOf(o'.entries, o'.cells) == StackOf(o.entries, o.cells) + [(realfd, userfd)]
  {
    forall j | 0 <= j < |o.entries| ensures o.entries[j].cell in o.cells {
      assert o.entries[j].cell in o.regs;
    }
  }

  lemma PoppedOk(o: Origin, o': Origin, fds: Files)
    requires StackOk(o) && o.entries != [] && o'.cells == o.cells
    requires var n := |o.entries| - 1;
      && o'.entries == o.entries[..n] && o'.regs == o.regs - {o.entries[n].cell}
      && o.entries[n].cell in o.cells && fds == o.fds - {o.cells[o.entries[n].cell]}
    ensures StackOk(o'.(fds := fds))
  {}
}
