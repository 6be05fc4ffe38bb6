/** dict.c: the open-addressing hash table behind every shell variable.  The class keeps
    the C table (empty slots, tombstones, live associations) and is proved to refine a map. */
module Dict {
  import opened CStrings
  import opened Masking

  // ----- hashing -----

  function HashStep(h: nat, c: Byte): (r: nat)
    ensures r < WORD
  {
    (h * 33 + c) % WORD
  }

  function HashFrom(h: nat, s: CString): nat
    decreases |s|
  {
    if s == [] then h else HashFrom(HashStep(h, s[0]), s[1..])
  }

  function Hash(s: CString): nat {
    HashFrom(5381, s)
  }

  function OrEmpty(s: Option<CString>): CString {
    if s.Some? then s.value else []
  }

  lemma HashEnd(h: nat)
    ensures HashFrom(h, []) == h
  {}

  lemma HashMore(h: nat, s: CString)
    requires s != []
    ensures HashFrom(h, s) == HashFrom(HashStep(h, s[0]), s[1..])
  {}

  /** strhash2: one cursor runs over str1 and, at its terminator, jumps to str2. */
  method StrHash2(str1: CString, str2: Option<CString>) returns (h: nat)
    ensures h == Hash(str1 + OrEmpty(str2)) && h < WORD
  {
    hide HashFrom, HashStep;
    h := 5381;
    var s, i, other := str1, 0, str2;
    assert str1[0..] == str1;
    while true
      invariant i <= |s| && h < WORD
      invariant HashFrom(h, s[i..] + OrEmpty(other)) == Hash(str1 + OrEmpty(str2))
      decreases other.Some?, |s| - i
    {
      if At(s, i) == 0 {
        assert s[i..] + OrEmpty(other) == OrEmpty(other);
        HashEnd(h);
        if other.None? {
          return;
        }
        s, i, other := other.value, 0, None;
        assert s[i..] + OrEmpty(other) == s;
        if At(s, i) == 0 {
          return;
        }
      }
      assert (s[i..] + OrEmpty(other))[1..] == s[i + 1..] + OrEmpty(other);
      HashMore(h, s[i..] + OrEmpty(other));
      h := HashStep(h, At(s, i));
      i := i + 1;
    }
  }

  /** strhash */
  method StrHash(name: CString) returns (h: nat)
    ensures h == Hash(name) && h < WORD
  {
    h := StrHash2(name, None);
    assert name + [] == name;
  }

  /** streq2: is s the concatenation of t1 and t2? */
  method StrEq2(s: CString, t1: CString, t2: CString) returns (eq: bool)
    ensures eq <==> s == t1 + t2
  {
    var i, j := 0, 0;
    while j < |t1|
      invariant i == j <= |t1| && i <= |s|
      invariant s[..i] == t1[..j]
    {
      if At(t1, j) != At(s, i) {
        return false;
      }
      i, j := i + 1, j + 1;
    }
    var k := 0;
    while k < |t2|
      invariant k <= |t2| && i == |t1| + k <= |s|
      invariant s[..i] == t1 + t2[..k]
    {
      if At(t2, k) != At(s, i) {
        assert i < |s| ==> (t1 + t2)[i] == t2[k];
        return false;
      }
      i, k := i + 1, k + 1;
    }
    eq := At(s, i) == 0;
    assert t2[..k] == t2;
    if eq {
      assert s[..i] == s;
    }
  }

  // ----- tables as sequences of slots -----

  datatype Slot<V> = Empty | Dead | Live(name: CString, value: V)

  const INIT_SIZE: nat := 2

  function Remain(n: nat): nat {
    n * 2 / 3
  }

  function Grow(n: nat): nat {
    n * 2
  }

  /** Number of slots that are not empty; tombstones count. */
  function Occupied<V>(s: seq<Slot<V>>): nat {
    if s == [] then 0 else Occupied(s[..|s| - 1]) + if s[|s| - 1].Empty? then 0 else 1
  }

  /** Slot a name hashes to; sizes are powers of two, so the mask is a remainder. */
  function Home(name: CString, size: nat): nat
    requires size > 0
    ensures Home(name, size) < size
  {
    Masked(Hash(name), size)
  }

  /** j lies on the cyclic walk that starts at a and stops before b. */
  predicate InArc(a: nat, b: nat, j: nat) {
    if a <= b then a <= j < b else a <= j || j < b
  }

  /** Steps a forward walk needs from a to b. */
  function Distance(a: nat, b: nat, size: nat): nat
    requires a < size && b < size
  {
    if a <= b then b - a else b + size - a
  }

  /** No live key has an empty slot between its home and its position. */
  ghost predicate Chained<V>(s: seq<Slot<V>>) {
    forall i, j :: 0 <= i < |s| && 0 <= j < |s| && s[i].Live? && InArc(Home(s[i].name, |s|), i, j) ==> !s[j].Empty?
  }

  ghost predicate Unique<V>(s: seq<Slot<V>>) {
    forall i, j :: 0 <= i < j < |s| && s[i].Live? && s[j].Live? ==> s[i].name != s[j].name
  }

  ghost function Contents<V>(s: seq<Slot<V>>): map<CString, V>
    requires Unique(s)
  {
    map i | 0 <= i < |s| && s[i].Live? :: s[i].name := s[i].value
  }

  /** The live associations in slot order: what dictforall visits. */
  function Entries<V>(s: seq<Slot<V>>): seq<(CString, V)> {
    if s == [] then []
    else Entries(s[..|s| - 1]) + if s[|s| - 1].Live? then [(s[|s| - 1].name, s[|s| - 1].value)] else []
  }

  // ----- what single slot changes do -----

  lemma {:induction false} OccupiedUpdate<V>(s: seq<Slot<V>>, i: nat, x: Slot<V>)
    requires i < |s|
    ensures Occupied(s[i := x]) + (if s[i].Empty? then 0 else 1) == Occupied(s) + (if x.Empty? then 0 else 1)
  {
    var n := |s| - 1;
    if i == n {
      assert s[i := x][..n] == s[..n];
    } else {
      OccupiedUpdate(s[..n], i, x);
      assert s[i := x][..n] == s[..n][i := x];
    }
  }

  lemma {:induction false} OccupiedPrefix<V>(s: seq<Slot<V>>, i: nat)
    requires i <= |s|
    ensures Occupied(s[..i]) <= Occupied(s) <= Occupied(s[..i]) + (|s| - i)
    decreases |s|
  {
    if i == |s| {
      assert s[..i] == s;
    } else {
      OccupiedPrefix(s[..|s| - 1], i);
      assert s[..|s| - 1][..i] == s[..i];
    }
  }

  /** A table that is not full has an empty slot, so every probe stops. */
  lemma {:induction false} SomeEmpty<V>(s: seq<Slot<V>>) returns (e: nat)
    requires Occupied(s) < |s|
    ensures e < |s| && s[e].Empty?
    decreases |s|
  {
    if s[|s| - 1].Empty? {
      e := |s| - 1;
    } else {
      e := SomeEmpty(s[..|s| - 1]);
    }
  }

  /** A name all of whose probe up to an empty slot misses is not in the table. */
  lemma ProbeMisses<V>(s: seq<Slot<V>>, name: CString, e: nat)
    requires Chained(s) && Unique(s)
    requires e < |s| && s[e].Empty?
    requires forall j :: 0 <= j < |s| && InArc(Home(name, |s|), e, j) ==> !(s[j].Live? && s[j].name == name)
    ensures name !in Contents(s)
  {
  }

  lemma ProbeHits<V>(s: seq<Slot<V>>, i: nat)
    requires Unique(s) && i < |s| && s[i].Live?
    ensures s[i].name in Contents(s) && Contents(s)[s[i].name] == s[i].value
  {}

  /** Every name the table holds is the name of some live slot. */
  lemma Where<V>(s: seq<Slot<V>>, k: CString) returns (p: nat)
    requires Unique(s) && k in Contents(s)
    ensures p < |s| && s[p].Live? && s[p].name == k && Contents(s)[k] == s[p].value
  {
    p :| p < |s| && s[p].Live? && s[p].name == k;
  }

  lemma InsertContents<V>(s: seq<Slot<V>>, i: nat, name: CString, value: V)
    requires Unique(s) && name !in Contents(s) && i < |s| && !s[i].Live?
    ensures var t := s[i := Live(name, value)]; Unique(t) && Contents(t) == Contents(s)[name := value]
  {
    hide Contents;
    var t := s[i := Live(name, value)];
    forall j | 0 <= j < |s| && s[j].Live? ensures s[j].name != name {
      ProbeHits(s, j);
    }
    assert Unique(t);
    forall k | k in Contents(t) ensures k in Contents(s)[name := value] && Contents(t)[k] == Contents(s)[name := value][k] {
      var p := Where(t, k);
      if p != i {
        ProbeHits(s, p);
      }
    }
    forall k | k in Contents(s)[name := value] ensures k in Contents(t) {
      if k == name {
        ProbeHits(t, i);
      } else {
        var p := Where(s, k);
        ProbeHits(t, p);
      }
    }
  }

  lemma InsertChain<V>(s: seq<Slot<V>>, i: nat, name: CString, value: V)
    requires Chained(s) && i < |s|
    requires forall j :: 0 <= j < |s| && InArc(Home(name, |s|), i, j) ==> !s[j].Empty?
    ensures Chained(s[i := Live(name, value)])
  {}

  lemma UpdateContents<V>(s: seq<Slot<V>>, i: nat, value: V)
    requires Unique(s) && i < |s| && s[i].Live?
    ensures var t := s[i := Live(s[i].name, value)]; Unique(t) && Contents(t) == Contents(s)[s[i].name := value]
  {
    hide Contents;
    var t := s[i := Live(s[i].name, value)];
    ProbeHits(s, i);
    forall k | k in Contents(t) ensures k in Contents(s)[s[i].name := value] && Contents(t)[k] == Contents(s)[s[i].name := value][k] {
      var p := Where(t, k);
      if p != i {
        ProbeHits(s, p);
      }
    }
    forall k | k in Contents(s)[s[i].name := value] ensures k in Contents(t) {
      var p := Where(s, k);
      ProbeHits(t, p);
    }
  }

  lemma KillContents<V>(s: seq<Slot<V>>, i: nat)
    requires Unique(s) && i < |s| && s[i].Live?
    ensures var t := s[i := Slot.Dead]; Unique(t) && Contents(t) == Contents(s) - {s[i].name}
  {
    hide Contents;
    var t := s[i := Slot.Dead];
    forall k | k in Contents(t) ensures k in Contents(s) - {s[i].name} && Contents(t)[k] == Contents(s)[k] {
      var p := Where(t, k);
      ProbeHits(s, p);
    }
    forall k | k in Contents(s) - {s[i].name} ensures k in Contents(t) {
      var p := Where(s, k);
      ProbeHits(t, p);
    }
  }

  lemma SameChain<V>(s: seq<Slot<V>>, i: nat, x: Slot<V>)
    requires Chained(s) && i < |s| && s[i].Live? && (x.Dead? || (x.Live? && x.name == s[i].name))
    ensures Chained(s[i := x])
  {}

  lemma EmptyContents<V>(s: seq<Slot<V>>, i: nat)
    requires Unique(s) && i < |s| && s[i].Dead?
    ensures var t := s[i := Slot.Empty]; Unique(t) && Contents(t) == Contents(s)
  {
    hide Contents;
    var t := s[i := Slot.Empty];
    forall k | k in Contents(t) ensures k in Contents(s) && Contents(t)[k] == Contents(s)[k] {
      var p := Where(t, k);
      ProbeHits(s, p);
    }
    forall k | k in Contents(s) ensures k in Contents(t) {
      var p := Where(s, k);
      ProbeHits(t, p);
    }
  }

  /** Emptying the tombstone just before an empty slot cuts no live probe chain. */
  lemma EmptyChain<V>(s: seq<Slot<V>>, i: nat)
    requires Chained(s) && i < |s| && s[i].Dead? && s[Next(i, |s|)].Empty?
    ensures Chained(s[i := Slot.Empty])
  {
    var t := s[i := Slot.Empty];
    var e := Next(i, |s|);
    forall p, j | 0 <= p < |t| && 0 <= j < |t| && t[p].Live? && InArc(Home(t[p].name, |t|), p, j) ensures !t[j].Empty? {
      if j == i {
        assert InArc(Home(s[p].name, |s|), p, e);
        assert false;
      }
    }
  }

  lemma ExtendPrefix<V>(s: seq<Slot<V>>, x: Slot<V>)
    requires Unique(s + [x])
    ensures Unique(s)
    ensures x.Live? ==> x.name !in Contents(s) && Contents(s + [x]) == Contents(s)[x.name := x.value]
    ensures !x.Live? ==> Contents(s + [x]) == Contents(s)
  {
    hide Contents;
    var u := s + [x];
    assert forall p :: 0 <= p < |s| ==> u[p] == s[p];
    assert u[|s|] == x;
    forall k | k in Contents(s) ensures k in Contents(u) && Contents(u)[k] == Contents(s)[k] && (x.Live? ==> k != x.name) {
      var p := Where(s, k);
      ProbeHits(s, p);
      ProbeHits(u, p);
    }
    forall k | k in Contents(u) && !(x.Live? && k == x.name) ensures k in Contents(s) {
      var p := Where(u, k);
      ProbeHits(s, p);
    }
    if x.Live? {
      ProbeHits(u, |s|);
    }
  }

  lemma PrefixStep<V>(s: seq<Slot<V>>, i: nat)
    requires Unique(s) && i < |s|
    ensures Unique(s[..i]) && Unique(s[..i + 1])
    ensures s[i].Live? ==> s[i].name !in Contents(s[..i])
    ensures s[i].Live? ==> Contents(s[..i + 1]) == Contents(s[..i])[s[i].name := s[i].value]
    ensures !s[i].Live? ==> Contents(s[..i + 1]) == Contents(s[..i])
    ensures Occupied(s[..i + 1]) == Occupied(s[..i]) + if s[i].Empty? then 0 else 1
  {
    assert s[..i + 1] == s[..i] + [s[i]];
    ExtendPrefix(s[..i], s[i]);
  }

  lemma EmptyPrefix<V>(s: seq<Slot<V>>)
    ensures s[..0] == [] && Unique(s[..0]) && Contents(s[..0]) == map[] && Occupied(s[..0]) == 0
  {}

  /** dictforall visits exactly the associations of the map, each once. */
  lemma {:induction false} EntriesAreContents<V>(s: seq<Slot<V>>)
    requires Unique(s)
    ensures forall n, v :: (n, v) in Entries(s) <==> n in Contents(s) && Contents(s)[n] == v
    ensures |Entries(s)| == |Contents(s)|
    decreases |s|
  {
    hide Contents, Unique, Entries;
    if s == [] {
      NoEntries<V>();
    } else {
      var t, x := s[..|s| - 1], s[|s| - 1];
      assert t + [x] == s;
      ExtendPrefix(t, x);
      EntriesAreContents(t);
      EntriesSnoc(t, x);
      if x.Live? {
        forall n, v ensures (n, v) in Entries(s) <==> n in Contents(s) && Contents(s)[n] == v {
          assert (n, v) in Entries(s) <==> (n, v) in Entries(t) || (n, v) == (x.name, x.value);
        }
      } else {
        assert Entries(s) == Entries(t);
      }
    }
  }

  lemma NoEntries<V>()
    ensures Entries<V>([]) == [] && Contents<V>([]) == map[]
  {}

  lemma EntriesSnoc<V>(s: seq<Slot<V>>, x: Slot<V>)
    ensures Entries(s + [x]) == Entries(s) + if x.Live? then [(x.name, x.value)] else []
  {
    assert (s + [x])[..|s|] == s;
  }

  function Fold<A, V>(f: (A, CString, V) -> A, entries: seq<(CString, V)>, arg: A): A {
    if entries == [] then arg
    else f(Fold(f, entries[..|entries| - 1], arg), entries[|entries| - 1].0, entries[|entries| - 1].1)
  }

  lemma FoldSnoc<A, V>(f: (A, CString, V) -> A, entries: seq<(CString, V)>, e: (CString, V), arg: A)
    ensures Fold(f, entries + [e], arg) == f(Fold(f, entries, arg), e.0, e.1)
  {
    assert (entries + [e])[..|entries|] == entries;
  }

  lemma {:induction false} NoneOccupied<V>(s: seq<Slot<V>>)
    requires forall i :: 0 <= i < |s| ==> s[i].Empty?
    ensures Occupied(s) == 0 && Unique(s) && Chained(s) && Contents(s) == map[]
    decreases |s|
  {
    if s != [] {
      NoneOccupied(s[..|s| - 1]);
    }
  }

  // ----- the invariant of a table, and what each change of it does -----

  /** remain is what is left of the budget, so the table always has an empty slot. */
  ghost predicate Consistent<V>(s: seq<Slot<V>>, remain: int) {
    && |s| >= INIT_SIZE && PowerOfTwo(|s|)
    && 1 <= remain
    && remain + Occupied(s) == Remain(|s|)
    && Unique(s)
    && Chained(s)
  }

  /** A tombstone is kept only while the slot after it is still in use. */
  ghost predicate Tidy<V>(s: seq<Slot<V>>) {
    forall i :: 0 <= i < |s| && s[i].Dead? ==> !s[Next(i, |s|)].Empty?
  }

  ghost predicate TidyBut<V>(s: seq<Slot<V>>, n: nat) {
    forall i :: 0 <= i < |s| && i != n && s[i].Dead? ==> !s[Next(i, |s|)].Empty?
  }

  /** The slot put chooses: the first one on the probe that holds no live association. */
  ghost predicate FirstFree<V>(s: seq<Slot<V>>, name: CString, i: nat) {
    && i < |s| && !s[i].Live?
    && forall j :: 0 <= j < |s| && InArc(Home(name, |s|), i, j) ==> s[j].Live?
  }

  lemma Inserted<V>(s: seq<Slot<V>>, remain: int, name: CString, value: V, i: nat)
    requires Consistent(s, remain) && Tidy(s) && remain > 1 && name !in Contents(s) && FirstFree(s, name, i)
    ensures var t := s[i := Live(name, value)];
      && Consistent(t, if s[i].Empty? then remain - 1 else remain) && Tidy(t)
      && Contents(t) == Contents(s)[name := value]
  {
    hide Chained, Occupied;
    InsertContents(s, i, name, value);
    InsertChain(s, i, name, value);
    OccupiedUpdate(s, i, Live(name, value));
  }

  lemma Updated<V>(s: seq<Slot<V>>, remain: int, i: nat, value: V)
    requires Consistent(s, remain) && Tidy(s) && i < |s| && s[i].Live?
    ensures var t := s[i := Live(s[i].name, value)];
      Consistent(t, remain) && Tidy(t) && Contents(t) == Contents(s)[s[i].name := value]
  {
    hide Chained, Occupied;
    UpdateContents(s, i, value);
    SameChain(s, i, Live(s[i].name, value));
    OccupiedUpdate(s, i, Live(s[i].name, value));
  }

  lemma Buried<V>(s: seq<Slot<V>>, remain: int, i: nat)
    requires Consistent(s, remain) && Tidy(s) && i < |s| && s[i].Live?
    ensures var t := s[i := Slot.Dead];
      Consistent(t, remain) && TidyBut(t, i) && Contents(t) == Contents(s) - {s[i].name}
  {
    hide Chained, Occupied;
    KillContents(s, i);
    SameChain(s, i, Slot.Dead);
    OccupiedUpdate(s, i, Slot.Dead);
  }

  lemma Reclaimed<V>(s: seq<Slot<V>>, remain: int, n: nat)
    requires Consistent(s, remain) && TidyBut(s, n) && n < |s| && s[n].Dead? && s[Next(n, |s|)].Empty?
    ensures var t := s[n := Slot.Empty];
      && Consistent(t, remain + 1) && TidyBut(t, Prev(n, |s|)) && Contents(t) == Contents(s)
      && Occupied(t) < Occupied(s)
  {
    hide Chained, Occupied;
    EmptyContents(s, n);
    EmptyChain(s, n);
    OccupiedUpdate(s, n, Slot.Empty);
  }

  /** Only the last tombstone of a run can stand before an empty slot. */
  lemma RunEnd<V>(s: seq<Slot<V>>, ap: nat, n: nat)
    requires ap < |s| && n < |s| && TidyBut(s, ap)
    requires !s[n].Dead? && s[Prev(n, |s|)].Dead? && (s[Next(ap, |s|)].Empty? ==> n == Next(ap, |s|))
    ensures s[n].Empty? ==> TidyBut(s, Prev(n, |s|)) && s[Next(Prev(n, |s|), |s|)].Empty?
    ensures !s[n].Empty? ==> Tidy(s)
  {
    assert Next(Prev(n, |s|), |s|) == n && Prev(Next(ap, |s|), |s|) == ap;
  }

  /** A hash is a value of the type that n steps in. */
  lemma WithinModulus(n: nat, size: nat)
    requires n < WORD
    ensures n < Modulus(size)
  {}

  // ----- the table itself -----

  class Table<V> {
    const size: nat
    const slots: array<Slot<V>>
    var remain: int

    ghost predicate Valid()
      reads this, slots
    {
      size == slots.Length && Consistent(slots[..], remain) && Tidy(slots[..])
    }

    ghost function Map(): map<CString, V>
      requires Unique(slots[..])
      reads slots
    {
      Contents(slots[..])
    }

    /** mkdict0 */
    constructor (size: nat)
      requires size >= INIT_SIZE && PowerOfTwo(size)
      ensures Valid() && this.size == size && remain == Remain(size) && Map() == map[]
      ensures fresh(slots)
    {
      this.size := size;
      slots := new Slot<V>[size](_ => Slot.Empty);
      remain := Remain(size);
      new;
      NoneOccupied(slots[..]);
    }

    /** get: probe from the home slot until the name or an empty slot turns up. */
    method Find(name: CString) returns (found: Option<nat>)
      requires Valid()
      ensures found.Some? ==> found.value < size && slots[found.value].Live? && slots[found.value].name == name
      ensures found.Some? <==> name in Map()
    {
      hide Masked, Up, Hash;
      ghost var e := SomeEmpty(slots[..]);
      var n: nat := StrHash(name);
      WithinModulus(n, size);
      while !slots[Masked(n, size)].Empty?
        invariant n < Modulus(size)
        invariant !InArc(Home(name, size), Masked(n, size), e)
        invariant forall j :: 0 <= j < size && InArc(Home(name, size), Masked(n, size), j) ==>
          !slots[j].Empty? && !(slots[j].Live? && slots[j].name == name)
        decreases Distance(Masked(n, size), e, size)
      {
        var ap := Masked(n, size);
        if slots[ap].Live? && slots[ap].name == name {
          ProbeHits(slots[..], ap);
          return Some(ap);
        }
        MaskedStep(n, size);
        n := Up(n, size);
      }
      ProbeMisses(slots[..], name, Masked(n, size));
      found := None;
    }

    /** dictget */
    method Get(name: CString) returns (value: Option<V>)
      requires Valid()
      ensures value == if name in Map() then Some(Map()[name]) else None
    {
      var ap := Find(name);
      if ap.None? {
        return None;
      }
      ProbeHits(slots[..], ap.value);
      value := Some(slots[ap.value].value);
    }

    /** dictget2: the hash and the comparison both run over two strings in turn. */
    method Get2(name1: CString, name2: CString) returns (value: Option<V>)
      requires Valid()
      ensures value == if name1 + name2 in Map() then Some(Map()[name1 + name2]) else None
    {
      hide Masked, Up, Hash;
      ghost var name := name1 + name2;
      ghost var e := SomeEmpty(slots[..]);
      var n: nat := StrHash2(name1, Some(name2));
      WithinModulus(n, size);
      while !slots[Masked(n, size)].Empty?
        invariant n < Modulus(size)
        invariant !InArc(Home(name, size), Masked(n, size), e)
        invariant forall j :: 0 <= j < size && InArc(Home(name, size), Masked(n, size), j) ==>
          !slots[j].Empty? && !(slots[j].Live? && slots[j].name == name)
        decreases Distance(Masked(n, size), e, size)
      {
        var ap := Masked(n, size);
        if slots[ap].Live? {
          var eq := StrEq2(slots[ap].name, name1, name2);
          if eq {
            ProbeHits(slots[..], ap);
            return Some(slots[ap].value);
          }
        }
        MaskedStep(n, size);
        n := Up(n, size);
      }
      ProbeMisses(slots[..], name, Masked(n, size));
      value := None;
    }

    /** The probe loop of put. */
    method FindFree(name: CString) returns (i: nat)
      requires Valid()
      ensures FirstFree(slots[..], name, i)
    {
      hide Masked, Up, Hash;
      ghost var e := SomeEmpty(slots[..]);
      var n: nat := StrHash(name);
      WithinModulus(n, size);
      while slots[Masked(n, size)].Live?
        invariant n < Modulus(size)
        invariant !InArc(Home(name, size), Masked(n, size), e)
        invariant forall j :: 0 <= j < size && InArc(Home(name, size), Masked(n, size), j) ==> slots[j].Live?
        decreases Distance(Masked(n, size), e, size)
      {
        MaskedStep(n, size);
        n := Up(n, size);
      }
      i := Masked(n, size);
    }

    /** put: the name is known to be absent.  A table whose budget is spent is copied into
        one twice the size by inserting every live association again. */
    method Insert(name: CString, value: V) returns (d: Table<V>)
      requires Valid() && name !in Map()
      modifies this, slots
      ensures d.Valid() && d.Map() == old(Map())[name := value]
      ensures old(remain) > 1 ==> d == this && remain >= old(remain) - 1
      ensures old(remain) > 1 ==>
        exists i: nat :: FirstFree(old(slots[..]), name, i) && slots[..] == old(slots[..])[i := Live(name, value)]
      ensures old(remain) <= 1 ==> fresh(d) && fresh(d.slots) && d.size == Grow(size) && slots[..] == old(slots[..])
      decreases if remain <= 1 then 2 else 0
    {
      if remain <= 1 {
        d := CopyInto(Grow(size));
        d := d.Insert(name, value);
      } else {
        d := this;
        var i := FindFree(name);
        Inserted(slots[..], remain, name, value, i);
        if slots[i].Empty? {
          remain := remain - 1;
        }
        slots[i] := Live(name, value);
        assert slots[..] == old(slots[..])[i := Live(name, value)];
      }
    }

    /** The growth step of put.  No insertion into the new table grows it again, which is
        what makes it sound for dictforall to drop the table that put returns. */
    method CopyInto(newSize: nat) returns (d: Table<V>)
      requires Valid() && newSize == Grow(size) && remain <= 1
      ensures fresh(d) && fresh(d.slots) && d.Valid() && d.size == newSize
      ensures d.Map() == Map()
      ensures d.remain > 1
      decreases 1
    {
      hide Chained, Tidy, Contents, FirstFree;
      d := new Table<V>(newSize);
      ghost var s := slots[..];
      EmptyPrefix(s);
      for i := 0 to size
        invariant fresh(d) && fresh(d.slots) && d.Valid() && d.size == newSize
        invariant slots[..] == s
        invariant Unique(s[..i]) && d.Map() == Contents(s[..i])
        invariant d.remain >= Remain(newSize) - Occupied(s[..i])
      {
        PrefixStep(s, i);
        OccupiedPrefix(s, i + 1);
        if slots[i].Live? {
          var ignored := d.Insert(slots[i].name, slots[i].value);
          assert ignored == d;
        }
      }
      assert s[..size] == s;
    }

    /** The first loop of rm: the end of the run of tombstones after a position. */
    method AfterTombstones(ap: nat) returns (n: nat)
      requires size == slots.Length && Consistent(slots[..], remain) && ap < size && slots[ap].Dead?
      ensures n < Modulus(size) && !slots[Masked(n, size)].Dead? && slots[Prev(Masked(n, size), size)].Dead?
      ensures slots[Next(ap, size)].Empty? ==> Masked(n, size) == Next(ap, size)
    {
      hide Masked, Up;
      ghost var e := SomeEmpty(slots[..]);
      MaskedSlot(ap, size);
      MaskedStep(ap, size);
      n := Up(ap, size);
      while slots[Masked(n, size)].Dead?
        invariant n < Modulus(size) && !InArc(Next(ap, size), Masked(n, size), e) && slots[Prev(Masked(n, size), size)].Dead?
        invariant Masked(n, size) != Next(ap, size) ==> slots[Next(ap, size)].Dead?
        decreases Distance(Masked(n, size), e, size)
      {
        MaskedStep(n, size);
        n := Up(n, size);
      }
    }

    /** rm: bury the association, then, if the run of tombstones it ends up in reaches an
        empty slot, turn that run back into empty slots. */
    method Remove(ap: nat)
      requires Valid() && ap < size && slots[ap].Live?
      modifies this, slots
      ensures Valid() && Map() == old(Map()) - {old(slots[ap].name)}
    {
      hide Masked, Down;
      ghost var s := slots[..];
      Buried(s, remain, ap);
      slots[ap] := Slot.Dead;
      assert slots[..] == s[ap := Slot.Dead];
      var n := AfterTombstones(ap);
      RunEnd(slots[..], ap, Masked(n, size));
      if !slots[Masked(n, size)].Empty? {
        return;
      }
      MaskedStep(n, size);
      Reclaim(Down(n, size));
    }

    /** The second loop of rm, walking backwards from the slot before an empty one. */
    method Reclaim(start: nat)
      requires size == slots.Length && start < Modulus(size)
      requires Consistent(slots[..], remain) && TidyBut(slots[..], Masked(start, size))
      requires slots[Next(Masked(start, size), size)].Empty?
      modifies this, slots
      ensures Valid() && Map() == old(Map())
    {
      hide Masked, Down;
      var n: nat := start;
      while slots[Masked(n, size)].Dead?
        invariant n < Modulus(size) && slots[Next(Masked(n, size), size)].Empty?
        invariant Consistent(slots[..], remain) && TidyBut(slots[..], Masked(n, size)) && Map() == old(Map())
        decreases Occupied(slots[..])
      {
        ghost var s := slots[..];
        var ap := Masked(n, size);
        Reclaimed(s, remain, ap);
        slots[ap] := Slot.Empty;
        assert slots[..] == s[ap := Slot.Empty];
        remain := remain + 1;
        MaskedStep(n, size);
        n := Down(n, size);
      }
    }

    /** dictput: None stands for the NULL value, which deletes. */
    method Put(name: CString, value: Option<V>) returns (d: Table<V>)
      requires Valid()
      modifies this, slots
      ensures d.Valid()
      ensures d.Map() == if value.Some? then old(Map())[name := value.value] else old(Map()) - {name}
      ensures d == this || (fresh(d) && fresh(d.slots))
    {
      d := this;
      var ap := Find(name);
      if value.Some? {
        if ap.None? {
          d := Insert(name, value.value);
        } else {
          ghost var s := slots[..];
          Updated(s, remain, ap.value, value.value);
          slots[ap.value] := Live(name, value.value);
          assert slots[..] == s[ap.value := Live(name, value.value)];
        }
      } else if ap.Some? {
        Remove(ap.value);
      }
    }

    /** dictforall, the callback being any function folded over its argument */
    method ForAll<A>(f: (A, CString, V) -> A, arg: A) returns (r: A)
      requires Valid()
      ensures r == Fold(f, Entries(slots[..]), arg)
    {
      ghost var s := slots[..];
      r := arg;
      for i := 0 to size
        invariant r == Fold(f, Entries(s[..i]), arg)
      {
        assert s[..i + 1] == s[..i] + [s[i]];
        EntriesSnoc(s[..i], s[i]);
        if slots[i].Live? {
          FoldSnoc(f, Entries(s[..i]), (s[i].name, s[i].value), arg);
          r := f(r, slots[i].name, slots[i].value);
        } else {
          assert Entries(s[..i + 1]) == Entries(s[..i]);
        }
      }
      assert s[..size] == s;
    }
  }

  // ----- whole runs -----

  datatype Op<V> = Store(name: CString, value: Option<V>) | Fetch(name: CString) | Fetch2(name1: CString, name2: CString) | Visit

  datatype Answer<V> = Stored | Fetched(value: Option<V>) | Visited(entries: seq<(CString, V)>)

  /** What a finite map holds after a run. */
  function MapAfter<V>(ops: seq<Op<V>>): map<CString, V> {
    if ops == [] then map[]
    else
      var m := MapAfter(ops[..|ops| - 1]);
      match ops[|ops| - 1]
      case Store(name, Some(value)) => m[name := value]
      case Store(name, None) => m - {name}
      case _ => m
  }

  ghost predicate Lists<V(!new)>(entries: seq<(CString, V)>, m: map<CString, V>) {
    && |entries| == |m|
    && forall n, v :: (n, v) in entries <==> n in m && m[n] == v
  }

  /** The answer a finite map would give. */
  ghost predicate Right<V(!new)>(m: map<CString, V>, op: Op<V>, answer: Answer<V>) {
    match op
    case Store(_, _) => answer == Stored
    case Fetch(name) => answer == Fetched(if name in m then Some(m[name]) else None)
    case Fetch2(a, b) => answer == Fetched(if a + b in m then Some(m[a + b]) else None)
    case Visit => answer.Visited? && Lists(answer.entries, m)
  }

  method Step<V(!new)>(t: Table<V>, op: Op<V>, ghost done: seq<Op<V>>) returns (d: Table<V>, answer: Answer<V>)
    requires t.Valid() && t.Map() == MapAfter(done)
    modifies t, t.slots
    ensures d.Valid() && d.Map() == MapAfter(done + [op])
    ensures d == t || (fresh(d) && fresh(d.slots))
    ensures Right(MapAfter(done), op, answer)
  {
    assert (done + [op])[..|done|] == done;
    d := t;
    match op {
      case Store(name, value) =>
        d := t.Put(name, value);
        answer := Stored;
      case Fetch(name) =>
        var value := t.Get(name);
        answer := Fetched(value);
      case Fetch2(name1, name2) =>
        var value := t.Get2(name1, name2);
        answer := Fetched(value);
      case Visit =>
        var entries := t.ForAll(Collect, []);
        CollectEntries(Entries(t.slots[..]));
        EntriesAreContents(t.slots[..]);
        answer := Visited(entries);
    }
  }

  lemma EmptyRun<V>()
    ensures MapAfter<V>([]) == map[]
  {}

  /** Over every run from mkdict, each answer of the table is the answer of the map. */
  method Run<V(!new)>(ops: seq<Op<V>>) returns (answers: seq<Answer<V>>)
    ensures |answers| == |ops|
    ensures forall i :: 0 <= i < |ops| ==> Right(MapAfter(ops[..i]), ops[i], answers[i])
  {
    hide Right, MapAfter, Tidy, Contents, Chained, Occupied;
    var d := new Table<V>(INIT_SIZE);
    answers := [];
    EmptyRun<V>();
    assert ops[..0] == [];
    for i := 0 to |ops|
      invariant fresh(d) && fresh(d.slots) && d.Valid() && d.Map() == MapAfter(ops[..i])
      invariant |answers| == i
      invariant forall j :: 0 <= j < i ==> Right(MapAfter(ops[..j]), ops[j], answers[j])
    {
      var answer;
      d, answer := Step(d, ops[i], ops[..i]);
      assert ops[..i + 1] == ops[..i] + [ops[i]];
      answers := answers + [answer];
    }
  }

  function Collect<V>(entries: seq<(CString, V)>, name: CString, value: V): seq<(CString, V)> {
    entries + [(name, value)]
  }

  lemma {:induction false} CollectEntries<V>(entries: seq<(CString, V)>)
    ensures Fold(Collect, entries, []) == entries
    decreases |entries|
  {
    if entries != [] {
      CollectEntries(entries[..|entries| - 1]);
    }
  }
}
