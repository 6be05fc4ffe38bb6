/** Lists in the environment: %W (conv.c) writes them, importvar (var.c) reads them. */
module EnvLists {
  import opened CStrings
  import opened Splitting
  import EnvNames

  const ENV_SEPARATOR: Byte := 15
  const ENV_ESCAPE: Byte := 14

  predicate Special(c: int) {
    c == ENV_ESCAPE || c == ENV_SEPARATOR
  }

  function EncodeByte(c: Byte): CString {
    if Special(c) then [ENV_ESCAPE, c] else [c]
  }

  function Encode(s: CString): CString {
    if s == [] then [] else Encode(s[..|s| - 1]) + EncodeByte(s[|s| - 1])
  }

  function Export(list: seq<CString>): CString {
    if list == [] then []
    else if |list| == 1 then Encode(list[0])
    else Export(list[..|list| - 1]) + [ENV_SEPARATOR] + Encode(list[|list| - 1])
  }

  /** The inner loop of %W: one element. */
  method PutElement(out0: CString, str: CString) returns (out: CString)
    ensures out == out0 + Encode(str)
  {
    out := out0;
    var s := 0;
    while At(str, s) != 0
      invariant s <= |str|
      invariant out == out0 + Encode(str[..s])
      decreases |str| - s
    {
      var c := str[s];
      EncodeMore(out0, str[..s], c);
      assert str[..s + 1] == str[..s] + [c];
      if c == ENV_ESCAPE || c == ENV_SEPARATOR {
        out := out + [ENV_ESCAPE];
      }
      out := out + [c];
      s := s + 1;
    }
    assert str[..s] == str;
  }

  lemma EncodeMore(out: CString, s: CString, c: Byte)
    ensures out + Encode(s + [c]) ==
      if Special(c) then out + Encode(s) + [ENV_ESCAPE] + [c] else out + Encode(s) + [c]
  {
    assert (s + [c])[..|s|] == s;
  }

  /** %W */
  method Wconv(list: seq<CString>) returns (out: CString)
    ensures out == Export(list)
  {
    hide Encode;
    out := [];
    var lp := 0;
    while lp < |list|
      invariant lp <= |list|
      invariant out == Export(list[..lp]) + if 0 < lp < |list| then [ENV_SEPARATOR] else []
    {
      assert list[..lp + 1][..lp] == list[..lp];
      ghost var before := out;
      out := PutElement(out, list[lp]);
      if lp == 0 {
        assert [] + Encode(list[0]) == Encode(list[0]);
      }
      assert out == Export(list[..lp + 1]);
      lp := lp + 1;
      if lp < |list| {
        out := out + [ENV_SEPARATOR];
      }
    }
    assert list[..lp] == list;
  }

  // ----- importvar -----

  /** What the loop over one word makes of it: cur is the cell so far; dangling, an escape
      that ends the word and takes the next cell in. */
  datatype Scanned = Scanned(cur: Text, dangling: bool)

  function Scan(word: Text, offset: nat, cur: Text): (r: Scanned)
    requires offset <= |word|
    ensures r.dangling ==> word != []
    decreases |word| - offset
  {
    if offset == |word| then Scanned(cur, false)
    else if word[offset] != ENV_ESCAPE then Scan(word, offset + 1, cur)
    else if offset + 1 == |word| then Scanned(cur, true)
    else if word[offset + 1] == ENV_ESCAPE then
      Scan(word, offset + 2, word[..offset + 1] + word[offset + 2..])
    else Scan(word, offset + 1, cur)
  }

  /** What becomes of the first cell, and how many cells it stands for. */
  function Cell(cells: seq<Text>): (Text, nat)
    requires cells != []
    ensures 1 <= Cell(cells).1 <= |cells|
  {
    var word := cells[0];
    var scanned := Scan(word, 0, word);
    if scanned.dangling && |cells| > 1 then (word[..|word| - 1] + [ENV_SEPARATOR] + cells[1], 2)
    else (scanned.cur, 1)
  }

  /** The cells after the loop over the list.  A joined cell is not looked at again. */
  function ImportCells(cells: seq<Text>): seq<Text>
    decreases |cells|
  {
    if cells == [] then []
    else var (first, used) := Cell(cells); [first] + ImportCells(cells[used..])
  }

  function Import(text: CString): seq<Text> {
    ImportCells(Fields([ENV_SEPARATOR], text))
  }

  lemma {:induction false} ScanSkip(word: Text, offset: nat, to: nat, cur: Text)
    requires offset <= to <= |word| && forall i :: offset <= i < to ==> word[i] != ENV_ESCAPE
    ensures Scan(word, offset, cur) == Scan(word, to, cur)
    decreases |word| - offset
  {
    if offset < to {
      ScanSkip(word, offset + 1, to, cur);
    }
  }

  predicate First(s: Text, i: nat, c: Byte, place: Option<nat>)
    requires i <= |s|
  {
    match place
    case None => forall k :: i <= k < |s| ==> s[k] != c
    case Some(p) => i <= p < |s| && s[p] == c && forall k :: i <= k < p ==> s[k] != c
  }

  /** strchr: the place of the first c from i on; the terminator is not asked for. */
  method StrChr(s: Text, i: nat, c: Byte) returns (place: Option<nat>)
    requires i <= |s|
    ensures First(s, i, c, place)
  {
    var k := i;
    while k < |s|
      invariant i <= k <= |s| && forall j :: i <= j < k ==> s[j] != c
    {
      if s[k] == c {
        return Some(k);
      }
      k := k + 1;
    }
    place := None;
  }

  /** The loop over the escapes of one word.  word stays what the cell held at first, while
      the cell changes. */
  method ImportCell(cells: seq<Text>, list: nat) returns (defn: seq<Text>)
    requires list < |cells|
    ensures var (first, used) := Cell(cells[list..]); defn == cells[..list] + [first] + cells[list + used..]
  {
    hide Scan;
    defn := cells;
    var offset: nat := 0;
    var word := defn[list];
    ghost var ended := false;
    assert cells[list..][0] == word && cells == cells[..list] + [word] + cells[list + 1..];
    var escape := StrChr(word, offset, ENV_ESCAPE);
    while escape.Some?
      invariant offset <= |word| && list < |defn|
      invariant First(word, offset, ENV_ESCAPE, escape)
      invariant !ended ==> defn == cells[list := defn[list]] && Scan(word, 0, word) == Scan(word, offset, defn[list])
      invariant ended ==> var (first, used) := Cell(cells[list..]);
        escape.None? && defn == cells[..list] + [first] + cells[list + used..]
      decreases |word| - offset, escape.Some?
    {
      ghost var cur := defn[list];
      ScanSkip(word, offset, escape.value, cur);
      ScanEscape(word, escape.value, cur);
      offset := escape.value + 1;
      if offset == |word| {
        ended := true;
        assert word[..|word| - 1] == word[..offset - 1];
        if list + 1 < |defn| {
          var str2 := defn[list + 1];
          assert cells[list..][1] == str2;
          var str := word[..offset - 1] + [ENV_SEPARATOR] + str2;
          defn := defn[..list] + [str] + defn[list + 2..];
        }
      } else if word[offset] == ENV_ESCAPE {
        var str := word[..offset] + word[escape.value + 2..];
        defn := defn[list := str];
        offset := offset + 1;
      }
      escape := StrChr(word, offset, ENV_ESCAPE);
    }
    if !ended {
      ScanSkip(word, offset, |word|, defn[list]);
      ScanEnd(word, defn[list]);
      assert defn == cells[..list] + [defn[list]] + cells[list + 1..];
    }
  }

  lemma ScanEnd(word: Text, cur: Text)
    ensures Scan(word, |word|, cur) == Scanned(cur, false)
  {}

  /** The three cases at an escape. */
  lemma ScanEscape(word: Text, i: nat, cur: Text)
    requires i < |word| && word[i] == ENV_ESCAPE
    ensures i + 1 == |word| ==> Scan(word, i, cur) == Scanned(cur, true)
    ensures i + 1 < |word| && word[i + 1] == ENV_ESCAPE ==>
      Scan(word, i, cur) == Scan(word, i + 2, word[..i + 1] + word[i + 2..])
    ensures i + 1 < |word| && word[i + 1] != ENV_ESCAPE ==> Scan(word, i, cur) == Scan(word, i + 1, cur)
  {}

  /** importvar, up to the definition of the variable. */
  method Importvar(splitter: Splitter, value: CString) returns (defn: seq<Text>)
    requires splitter.Valid()
    modifies splitter, splitter.isifs
    ensures splitter.Valid() && defn == Import(value)
  {
    hide Words, Cell, ImportCells, First;
    defn := splitter.Fsplit([ENV_SEPARATOR], [value], false);
    OneElement(value);
    var escape := StrChr(value, 0, ENV_ESCAPE);
    if escape.None? {
      NothingToDo(value);
      return;
    }
    ghost var cells := defn;
    var list := 0;
    assert defn[0..] == defn && defn[..0] + ImportCells(defn) == ImportCells(cells);
    while list < |defn|
      invariant list <= |defn| && splitter.Valid()
      invariant defn[..list] + ImportCells(defn[list..]) == ImportCells(cells)
      decreases |defn| - list
    {
      ghost var before := defn;
      defn := ImportCell(defn, list);
      CellDone(before, list, defn);
      list := list + 1;
    }
    CellsDone(defn);
    assert defn[..list] == defn && defn[list..] == [];
  }

  lemma CellDone(before: seq<Text>, list: nat, defn: seq<Text>)
    requires list < |before|
    requires var (first, used) := Cell(before[list..]); defn == before[..list] + [first] + before[list + used..]
    ensures list < |defn| && |defn| <= |before|
    ensures defn[..list + 1] + ImportCells(defn[list + 1..]) == before[..list] + ImportCells(before[list..])
  {
    hide Cell;
    var (first, used) := Cell(before[list..]);
    var left := before[list..];
    assert left[used..] == before[list + used..] == defn[list + 1..];
    assert defn[..list + 1] == before[..list] + [first];
  }

  lemma CellsDone(defn: seq<Text>)
    ensures defn + ImportCells([]) == defn
  {}

  lemma OneElement(value: CString)
    ensures FSplit([ENV_SEPARATOR], [value], false) == Fields([ENV_SEPARATOR], value)
  {
    hide Words;
    assert [value][..0] == [];
    assert FSplit([ENV_SEPARATOR], [], false) == [];
  }

  /** Without an escape in the text the cells stay as they are. */
  lemma NothingToDo(text: CString)
    requires First(text, 0, ENV_ESCAPE, None)
    ensures Import(text) == Fields([ENV_SEPARATOR], text)
  {
    hide Words;
    FieldsAndSeparators([ENV_SEPARATOR], text);
    var fields := Fields([ENV_SEPARATOR], text);
    forall i | 0 <= i < |fields| ensures ENV_ESCAPE !in fields[i] {
      if ENV_ESCAPE in fields[i] {
        WeaveWithin(fields, SeparatorsIn([ENV_SEPARATOR], text), i, ENV_ESCAPE);
      }
    }
    CellsStay(fields);
  }

  lemma {:induction false} CellsStay(cells: seq<Text>)
    requires forall i :: 0 <= i < |cells| ==> ENV_ESCAPE !in cells[i]
    ensures ImportCells(cells) == cells
    decreases |cells|
  {
    if cells != [] {
      ScanSkip(cells[0], 0, |cells[0]|, cells[0]);
      CellsStay(cells[1..]);
    }
  }

  // ----- importing what was exported -----

  function Specials(s: CString): nat {
    if s == [] then 0 else Specials(s[..|s| - 1]) + if Special(s[|s| - 1]) then 1 else 0
  }

  lemma {:induction false} EncodeAppend(a: CString, b: CString)
    ensures Encode(a + b) == Encode(a) + Encode(b) && Specials(a + b) == Specials(a) + Specials(b)
    decreases |b|
  {
    if b == [] {
      assert a + b == a;
    } else {
      assert (a + b)[..|a + b| - 1] == a + b[..|b| - 1];
      EncodeAppend(a, b[..|b| - 1]);
    }
  }

  lemma {:induction false} EncodeLength(s: CString)
    ensures |Encode(s)| == |s| + Specials(s)
    ensures Specials(s) == 0 ==> Encode(s) == s
    decreases |s|
  {
    if s != [] {
      EncodeLength(s[..|s| - 1]);
    }
  }

  lemma {:induction false} NoSpecials(s: CString)
    requires Specials(s) == 0
    ensures ENV_ESCAPE !in s && ENV_SEPARATOR !in s
    decreases |s|
  {
    if s != [] {
      NoSpecials(s[..|s| - 1]);
    }
  }

  lemma {:induction false} NoSeparators(s: CString)
    requires ENV_SEPARATOR !in s
    ensures ENV_SEPARATOR !in Encode(s)
    decreases |s|
  {
    if s != [] {
      NoSeparators(s[..|s| - 1]);
    }
  }

  lemma {:induction false} ExportFront(x: CString, rest: seq<CString>)
    requires rest != []
    ensures Export([x] + rest) == Encode(x) + [ENV_SEPARATOR] + Export(rest)
    decreases |rest|
  {
    hide Encode;
    var n := |rest| - 1;
    assert ([x] + rest)[..n + 1] == [x] + rest[..n];
    if n == 0 {
      assert [x] + rest[..n] == [x];
    } else {
      ExportFront(x, rest[..n]);
    }
  }

  /** Each element keeps its own cells. */
  lemma FieldsOfExport(x: CString, rest: seq<CString>)
    ensures Fields([ENV_SEPARATOR], Export([x] + rest)) ==
      Fields([ENV_SEPARATOR], Encode(x)) + if rest == [] then [] else Fields([ENV_SEPARATOR], Export(rest))
  {
    hide Encode, Words;
    if rest == [] {
      assert [x] + rest == [x];
    } else {
      ExportFront(x, rest);
      FieldsAround([ENV_SEPARATOR], Encode(x), ENV_SEPARATOR, Export(rest));
    }
  }

  lemma OneCell(x: CString)
    requires ENV_SEPARATOR !in x
    ensures Fields([ENV_SEPARATOR], Encode(x)) == [Encode(x)]
  {
    hide Encode, Words;
    NoSeparators(x);
    FieldsOfField([ENV_SEPARATOR], Encode(x));
  }

  lemma CellsAtSeparator(a: CString, b: CString)
    requires ENV_SEPARATOR !in a
    ensures Encode(a + [ENV_SEPARATOR] + b) == Encode(a) + [ENV_ESCAPE, ENV_SEPARATOR] + Encode(b)
    ensures Fields([ENV_SEPARATOR], Encode(a + [ENV_SEPARATOR] + b)) ==
      [Encode(a) + [ENV_ESCAPE]] + Fields([ENV_SEPARATOR], Encode(b))
  {
    hide Words, Encode, Unseparated, Separates;
    EncodeAppend(a, [ENV_SEPARATOR]);
    EncodeAppend(a + [ENV_SEPARATOR], b);
    EncodeOne(ENV_SEPARATOR);
    var left := Encode(a) + [ENV_ESCAPE];
    NoSeparatorLeft(a);
    FieldsOfField([ENV_SEPARATOR], left);
    FieldsAround([ENV_SEPARATOR], left, ENV_SEPARATOR, Encode(b));
    assert left + [ENV_SEPARATOR] + Encode(b) == Encode(a) + [ENV_ESCAPE, ENV_SEPARATOR] + Encode(b);
  }

  lemma NoSeparatorLeft(a: CString)
    requires ENV_SEPARATOR !in a
    ensures Unseparated([ENV_SEPARATOR], Encode(a) + [ENV_ESCAPE]) && Separates([ENV_SEPARATOR], ENV_SEPARATOR)
  {
    hide Encode;
    NoSeparators(a);
  }

  /** An escape is left over at the end of what is still to be scanned. */
  predicate Dangles(left: Text)
    decreases |left|
  {
    left != [] &&
    if left[0] != ENV_ESCAPE then Dangles(left[1..])
    else if |left| == 1 then true
    else if left[1] == ENV_ESCAPE then Dangles(left[2..])
    else Dangles(left[1..])
  }

  lemma {:induction false} ScanDangles(word: Text, offset: nat, cur: Text)
    requires offset <= |word|
    ensures Scan(word, offset, cur).dangling == Dangles(word[offset..])
    decreases |word| - offset
  {
    var left := word[offset..];
    if offset < |word| {
      assert left[1..] == word[offset + 1..];
      if word[offset] == ENV_ESCAPE && offset + 1 < |word| && word[offset + 1] == ENV_ESCAPE {
        assert left[2..] == word[offset + 2..];
        ScanDangles(word, offset + 2, word[..offset + 1] + word[offset + 2..]);
      } else {
        ScanDangles(word, offset + 1, cur);
      }
    }
  }

  lemma EncodeFront(s: CString)
    requires s != []
    ensures Encode(s) == EncodeByte(s[0]) + Encode(s[1..])
  {
    assert s == [s[0]] + s[1..];
    EncodeAppend([s[0]], s[1..]);
    EncodeOne(s[0]);
  }

  lemma EncodeOne(c: Byte)
    ensures Encode([c]) == EncodeByte(c) && Specials([c]) == if Special(c) then 1 else 0
  {
    assert [c][..0] == [];
  }

  /** The escapes of an encoded string pair off, so that only one added at its end dangles. */
  lemma {:induction false} PairsOff(a: CString, tail: CString)
    requires tail == [] || tail == [ENV_ESCAPE]
    ensures Dangles(Encode(a) + tail) == (tail != [])
    decreases |a|
  {
    if a == [] {
      assert Encode(a) + tail == tail;
    } else {
      PairsOff(a[1..], tail);
      EncodeFront(a);
      PairOff(a[0], Encode(a[1..]) + tail);
      assert Encode(a) + tail == EncodeByte(a[0]) + (Encode(a[1..]) + tail);
    }
  }

  lemma PairOff(c: Byte, rest: Text)
    ensures Dangles(EncodeByte(c) + rest) == Dangles(rest)
  {
    var left := EncodeByte(c) + rest;
    if Special(c) {
      assert left[2..] == rest && left[1..] == [c] + rest;
      assert ([c] + rest)[1..] == rest;
    } else {
      assert left[1..] == rest;
    }
  }

  /** A scan drops one byte at most, because each change starts again from the word. */
  lemma {:induction false} ScanLength(word: Text, offset: nat, cur: Text)
    requires offset <= |word| && |cur| + 1 >= |word|
    ensures |Scan(word, offset, cur).cur| + 1 >= |word|
    decreases |word| - offset
  {
    if offset < |word| {
      if word[offset] == ENV_ESCAPE && offset + 1 < |word| && word[offset + 1] == ENV_ESCAPE {
        ScanLength(word, offset + 2, word[..offset + 1] + word[offset + 2..]);
      } else {
        ScanLength(word, offset + 1, cur);
      }
    }
  }

  /** One escaped escape is undone; from two on the stale word brings one back. */
  lemma ScanElement(x: CString)
    requires ENV_SEPARATOR !in x
    ensures var scanned := Scan(Encode(x), 0, Encode(x));
      !scanned.dangling && (scanned.cur == x <==> Specials(x) <= 1)
  {
    hide Scan, Encode, Dangles;
    var word := Encode(x);
    ScanDangles(word, 0, word);
    PairsOff(x, []);
    assert word[0..] == word + [];
    EncodeLength(x);
    if Specials(x) == 0 {
      NoSpecials(x);
      ScanSkip(word, 0, |word|, word);
      ScanEnd(word, word);
    } else if Specials(x) == 1 {
      ScanOneEscape(x);
    } else {
      ScanLength(word, 0, word);
    }
  }

  /** The parts around a first byte c. */
  lemma {:induction false} Around(x: CString, c: Byte) returns (a: CString, b: CString)
    requires c in x
    ensures x == a + [c] + b && c !in a
    decreases |x|
  {
    if x[0] == c {
      a, b := [], x[1..];
      assert x == [] + [c] + b;
    } else {
      assert x == [x[0]] + x[1..];
      a, b := Around(x[1..], c);
      a := [x[0]] + a;
    }
  }

  lemma {:induction false} SpecialSomewhere(x: CString)
    requires ENV_SEPARATOR !in x && ENV_ESCAPE !in x
    ensures Specials(x) == 0
    decreases |x|
  {
    if x != [] {
      SpecialSomewhere(x[..|x| - 1]);
    }
  }

  lemma ScanOneEscape(x: CString)
    requires ENV_SEPARATOR !in x && Specials(x) == 1
    ensures Scan(Encode(x), 0, Encode(x)).cur == x
  {
    hide Scan, Encode, Specials;
    if ENV_ESCAPE !in x {
      SpecialSomewhere(x);
    }
    var a, b := Around(x, ENV_ESCAPE);
    EncodeAppend(a, [ENV_ESCAPE]);
    EncodeAppend(a + [ENV_ESCAPE], b);
    EncodeOne(ENV_ESCAPE);
    EncodeLength(a);
    EncodeLength(b);
    NoSpecials(a);
    NoSpecials(b);
    var word := a + [ENV_ESCAPE, ENV_ESCAPE] + b;
    assert Encode(x) == word;
    ScanSkip(word, 0, |a|, word);
    ScanEscape(word, |a|, word);
    assert word[..|a| + 1] + word[|a| + 2..] == x;
    ScanSkip(word, |a| + 2, |word|, x);
    ScanEnd(word, x);
  }

  /** The first cell of an exported element is the element exactly when at most one byte of it
      needed an escape; and then no cell of it is left. */
  lemma FirstCell(x: CString, rest: seq<Text>)
    ensures var own := Fields([ENV_SEPARATOR], Encode(x));
      own != [] && var (first, used) := Cell(own + rest);
      (first == x <==> Specials(x) <= 1) && (Specials(x) <= 1 ==> used == |own|)
  {
    hide Scan, Encode, Words, Specials, Dangles;
    if ENV_SEPARATOR in x {
      SeparatedCell(x, rest);
    } else {
      OneCell(x);
      ScanElement(x);
    }
  }

  lemma SeparatedCell(x: CString, rest: seq<Text>)
    requires ENV_SEPARATOR in x
    ensures var own := Fields([ENV_SEPARATOR], Encode(x));
      own != [] && var (first, used) := Cell(own + rest);
      (first == x <==> Specials(x) <= 1) && (Specials(x) <= 1 ==> used == |own|)
  {
    hide Scan, Encode, Words, Specials, Dangles, SeparatorsIn, Feed, Weave, Separates;
    var a, b := Around(x, ENV_SEPARATOR);
    CellsAtSeparator(a, b);
    var word := Encode(a) + [ENV_ESCAPE];
    ScanDangles(word, 0, word);
    PairsOff(a, [ENV_ESCAPE]);
    assert word[0..] == word && word[..|word| - 1] == Encode(a);
    var second := Fields([ENV_SEPARATOR], Encode(b));
    FieldsAndSeparators([ENV_SEPARATOR], Encode(b));
    Joined(a, b, second[0]);
    JoinedCount(a, b);
    if Specials(x) <= 1 {
      NoSpecials(b);
      OneCell(b);
    }
  }

  lemma JoinedCount(a: CString, b: CString)
    ensures Specials(a + [ENV_SEPARATOR] + b) == Specials(a) + 1 + Specials(b)
  {
    EncodeAppend(a, [ENV_SEPARATOR]);
    EncodeAppend(a + [ENV_SEPARATOR], b);
    EncodeOne(ENV_SEPARATOR);
  }

  /** The joined cell, compared with the element it should be. */
  lemma Joined(a: CString, b: CString, cell: Text)
    requires ENV_SEPARATOR !in a && Fields([ENV_SEPARATOR], Encode(b)) != []
    requires cell == Fields([ENV_SEPARATOR], Encode(b))[0] && Unseparated([ENV_SEPARATOR], cell)
    ensures Encode(a) + [ENV_SEPARATOR] + cell == a + [ENV_SEPARATOR] + b <==> Specials(a) == 0 && Specials(b) == 0
  {
    hide Encode, Words, Specials;
    var left, right := Encode(a) + [ENV_SEPARATOR] + cell, a + [ENV_SEPARATOR] + b;
    NoSeparators(a);
    EncodeLength(a);
    EncodeLength(b);
    assert |a| < |Encode(a)| ==> left[|a|] == Encode(a)[|a|] && Encode(a)[|a|] in Encode(a);
    if left == right {
      assert left[|Encode(a)|] == ENV_SEPARATOR == right[|a|];
      assert |a| <= |Encode(a)|;
      assert cell == left[|a| + 1..] == right[|a| + 1..] == b;
      CellIsWhole(b);
    }
    if Specials(a) == 0 && Specials(b) == 0 {
      NoSpecials(b);
      OneCell(b);
    }
  }

  lemma CellIsWhole(b: CString)
    requires Fields([ENV_SEPARATOR], Encode(b)) != [] && Fields([ENV_SEPARATOR], Encode(b))[0] == b
    requires Unseparated([ENV_SEPARATOR], b)
    ensures Specials(b) == 0
  {
    hide Encode, Words, Specials;
    assert Separates([ENV_SEPARATOR], ENV_SEPARATOR);
    OneCell(b);
    EncodeLength(b);
  }

  /** Importing an exported list gives the same list back exactly when the list has an element
      and no element holds two bytes that need an escape. */
  lemma {:induction false} ImportOfExport(list: seq<CString>)
    ensures Import(Export(list)) == list <==>
      list != [] && forall i :: 0 <= i < |list| ==> Specials(list[i]) <= 1
    decreases |list|
  {
    hide Cell, Words, Encode, Specials;
    if list == [] {
      EmptyExport();
    } else {
      var x, rest := list[0], list[1..];
      assert list == [x] + rest;
      FieldsOfExport(x, rest);
      var own := Fields([ENV_SEPARATOR], Encode(x));
      var others := if rest == [] then [] else Fields([ENV_SEPARATOR], Export(rest));
      assert own + [] == own;
      FirstCell(x, others);
      var (first, used) := Cell(own + others);
      assert Import(Export(list)) == [first] + ImportCells((own + others)[used..]);
      if Specials(x) <= 1 {
        assert (own + others)[used..] == others;
        if rest != [] {
          ImportOfExport(rest);
        }
      }
      assert forall i :: 0 <= i < |rest| ==> rest[i] == list[i + 1];
      assert Import(Export(list)) == list ==> Import(Export(list))[0] == x;
      assert Import(Export(list)) == list ==> Import(Export(list))[1..] == rest;
    }
  }

  lemma EmptyExport()
    ensures Import([]) == [[]]
  {
    FieldsOfField([ENV_SEPARATOR], []);
    CellsStay([[]]);
  }

  // ----- a whole string of the environment -----

  const EQUALS: Byte := '=' as int

  function Entry(name: CString, list: seq<CString>): CString {
    EnvNames.Encode(name, true) + [EQUALS] + Export(list)
  }

  /** What initenv makes of one string: without an equals sign it is kept as it is; a protected
      shell takes no functions and settors from outside. */
  datatype Initial = Kept | Ignored | Imported(name: EnvNames.Decoding, defn: seq<Text>)

  predicate HasPrefix(s: seq<int>, prefix: CString) {
    |prefix| <= |s| && s[..|prefix|] == prefix
  }

  const FN: CString := ['f' as int, 'n' as int, '-' as int]
  const SET: CString := ['s' as int, 'e' as int, 't' as int, '-' as int]

  predicate FromInside(name: EnvNames.Decoding) {
    name.Text? && (HasPrefix(name.text, FN) || HasPrefix(name.text, SET))
  }

  /** The names that start with fn- or with set-. */
  lemma FromInsideExactly(s: seq<int>)
    ensures FromInside(EnvNames.Text(s)) <==>
      || (|s| >= 3 && s[0] == 'f' as int && s[1] == 'n' as int && s[2] == '-' as int)
      || (|s| >= 4 && s[0] == 's' as int && s[1] == 'e' as int && s[2] == 't' as int && s[3] == '-' as int)
  {
    assert |s| >= 3 ==> s[..3] == [s[0], s[1], s[2]];
    assert |s| >= 4 ==> s[..4] == [s[0], s[1], s[2], s[3]];
  }

  /** initenv on one string */
  method InitEntry(splitter: Splitter, envstr: CString, guarded: bool) returns (initial: Initial)
    requires splitter.Valid()
    modifies splitter, splitter.isifs
    ensures splitter.Valid()
    ensures EQUALS !in envstr <==> initial.Kept?
    ensures forall nlen: nat :: First(envstr, 0, EQUALS, Some(nlen)) ==>
      var name := EnvNames.Decode(envstr[..nlen]);
      initial == if guarded && FromInside(name) then Ignored else Imported(name, Import(envstr[nlen + 1..]))
  {
    hide Words, ImportCells, EnvNames.Decode, FromInside;
    var eq := StrChr(envstr, 0, EQUALS);
    if eq.None? {
      return Kept;
    }
    assert forall nlen: nat :: First(envstr, 0, EQUALS, Some(nlen)) ==> nlen == eq.value;
    var name := EnvNames.Nconv(envstr[..eq.value]);
    if guarded && FromInside(name) {
      return Ignored;
    }
    var defn := Importvar(splitter, envstr[eq.value + 1..]);
    initial := Imported(name, defn);
  }

  /** A variable put into the environment is found there under its name; with its list under
      the condition of ImportOfExport. */
  lemma EntryRoundTrip(name: CString, list: seq<CString>)
    ensures var nlen := |EnvNames.Encode(name, true)|;
      && First(Entry(name, list), 0, EQUALS, Some(nlen))
      && EnvNames.Decode(Entry(name, list)[..nlen]) == EnvNames.Text(name)
      && Entry(name, list)[nlen + 1..] == Export(list)
      && (Import(Entry(name, list)[nlen + 1..]) == list <==>
          list != [] && forall i :: 0 <= i < |list| ==> Specials(list[i]) <= 1)
  {
    hide Export, Import, EnvNames.Encode, EnvNames.Decode, Specials;
    EnvNames.EncodedIsIdentifier(name, true);
    EnvNames.NameRoundTrip(name, true);
    ImportOfExport(list);
    var encoded := EnvNames.Encode(name, true);
    assert Entry(name, list)[..|encoded|] == encoded;
    assert Entry(name, list)[|encoded| + 1..] == Export(list);
  }
}
