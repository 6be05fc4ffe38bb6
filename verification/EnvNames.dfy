/** conv.c, %F and %N: variable names as other programs can stand them in the environment. */
module EnvNames {
  import opened CStrings

  predicate IsDigit(c: int) {
    '0' as int <= c <= '9' as int
  }

  predicate IsAlpha(c: int) {
    'a' as int <= c <= 'z' as int || 'A' as int <= c <= 'Z' as int
  }

  const UNDERSCORE: Byte := '_' as int

  /** A byte that is printed as it is: a letter, a digit that is not the first byte, or an
      underscore that no other underscore follows. */
  predicate Plain(s: CString, first: bool)
    requires s != []
  {
    IsAlpha(s[0]) || (!first && IsDigit(s[0])) || (s[0] == UNDERSCORE && At(s, 1) != UNDERSCORE)
  }

  function HexDigit(n: int): Byte
    requires 0 <= n < 16
  {
    if n < 10 then '0' as int + n else 'a' as int + n - 10
  }

  /** Place in "0123456789abcdef"; strchr also finds the terminator of that string. */
  function HexPlace(c: int): Option<nat> {
    if c == 0 then Some(16)
    else if IsDigit(c) then Some(c - '0' as int)
    else if 'a' as int <= c <= 'f' as int then Some(c - 'a' as int + 10)
    else None
  }

  function Escape(c: Byte): CString {
    [UNDERSCORE, UNDERSCORE, HexDigit(c / 16), HexDigit(c % 16)]
  }

  function Encode(s: CString, first: bool): CString
    decreases |s|
  {
    if s == [] then []
    else (if Plain(s, first) then [s[0]] else Escape(s[0])) + Encode(s[1..], false)
  }

  /** Overrun: the C code reads past the end of the string. */
  datatype Decoding = Text(text: seq<int>) | Overrun

  function Decode(s: seq<int>): Decoding
    decreases |s|
  {
    if s == [] then Text([])
    else if s[0] == UNDERSCORE && |s| > 1 && s[1] == UNDERSCORE then
      if |s| == 2 then Overrun
      else
        var h1, h2 := HexPlace(s[2]), HexPlace(At(s, 3));
        if h1.Some? && h2.Some? then
          if |s| == 3 then Overrun else Also(h1.value * 16 + h2.value, Decode(s[4..]))
        else Also(s[0], Decode(s[1..]))
    else Also(s[0], Decode(s[1..]))
  }

  function Also(c: int, d: Decoding): Decoding {
    if d.Overrun? then Overrun else Text([c] + d.text)
  }

  /** %F */
  method Fconv(name: CString) returns (out: CString)
    ensures out == Encode(name, true)
  {
    out := [];
    var s := 0;
    while At(name, s) != 0
      invariant s <= |name|
      invariant out + Encode(name[s..], s == 0) == Encode(name, true)
      decreases |name| - s
    {
      var c := name[s];
      assert name[s..][1..] == name[s + 1..];
      assert At(name[s..], 1) == At(name, s + 1);
      ghost var rest := Encode(name[s + 1..], false);
      if (if s == 0 then IsAlpha(c) else IsAlpha(c) || IsDigit(c)) || (c == UNDERSCORE && At(name, s + 1) != UNDERSCORE) {
        assert out + ([c] + rest) == out + [c] + rest;
        out := out + [c];
      } else {
        assert out + (Escape(c) + rest) == out + Escape(c) + rest;
        out := out + Escape(c);
      }
      s := s + 1;
    }
    assert out + [] == out;
  }

  function Prefixed(out: seq<int>, d: Decoding): Decoding {
    if d.Overrun? then Overrun else Text(out + d.text)
  }

  /** left starts with an escape: two underscores and two hexadecimal places. */
  predicate Escaped(left: seq<int>) {
    |left| >= 4 && left[0] == UNDERSCORE && left[1] == UNDERSCORE && HexPlace(left[2]).Some? && HexPlace(left[3]).Some?
  }

  lemma DecodeEscape(left: seq<int>)
    requires Escaped(left)
    ensures Decode(left) == Also(HexPlace(left[2]).value * 16 + HexPlace(left[3]).value, Decode(left[4..]))
  {
    hide HexPlace, Also;
  }

  lemma DecodeByte(left: seq<int>)
    requires left != [] && !Escaped(left)
    requires left[0] == UNDERSCORE && At(left, 1) == UNDERSCORE ==> |left| >= 3 && (HexPlace(left[2]).None? || HexPlace(At(left, 3)).None?)
    ensures Decode(left) == Also(left[0], Decode(left[1..]))
  {
    hide HexPlace, Also;
  }

  /** %N */
  method Nconv(encoded: CString) returns (d: Decoding)
    ensures d == Decode(encoded)
  {
    hide HexPlace, Decode, Also, Prefixed;
    var out: seq<int> := [];
    var s := 0;
    assert Decode(encoded) == Prefixed([], Decode(encoded)) by { PrefixedNone(Decode(encoded)); }
    assert encoded[0..] == encoded;
    while At(encoded, s) != 0
      invariant s <= |encoded|
      invariant Decode(encoded) == Prefixed(out, Decode(encoded[s..]))
      decreases |encoded| - s
    {
      var c: int := encoded[s];
      ghost var left := encoded[s..];
      ghost var from := s;
      s := s + 1;
      if c == UNDERSCORE && At(encoded, s) == UNDERSCORE {
        if s + 1 == |encoded| {
          OverrunAtEnd(encoded, from, out);
          return Overrun;
        }
        var h1, h2 := HexPlace(At(encoded, s + 1)), HexPlace(At(encoded, s + 2));
        if h1.Some? && h2.Some? {
          if s + 2 == |encoded| {
            OverrunAtEnd(encoded, from, out);
            return Overrun;
          }
          c := h1.value * 16 + h2.value;
          s := s + 3;
          DecodeEscape(left);
          assert left[4..] == encoded[s..];
        } else {
          DecodeByte(left);
        }
      } else {
        DecodeByte(left);
      }
      assert s == from + 1 ==> left[1..] == encoded[s..];
      PrefixedTwice(out, c, Decode(encoded[s..]));
      out := out + [c];
    }
    assert encoded[s..] == [];
    EndOfDecoding(out);
    d := Text(out);
  }

  lemma PrefixedNone(d: Decoding)
    ensures Prefixed([], d) == d
  {
    if d.Text? {
      assert [] + d.text == d.text;
    }
  }

  lemma EndOfDecoding(out: seq<int>)
    ensures Prefixed(out, Decode([])) == Text(out)
  {
    assert out + [] == out;
  }

  lemma OverrunAtEnd(encoded: CString, from: nat, out: seq<int>)
    requires from + 2 <= |encoded| && encoded[from] == UNDERSCORE && encoded[from + 1] == UNDERSCORE
    requires from + 2 == |encoded| || (from + 3 == |encoded| && HexPlace(At(encoded, from + 2)).Some?)
    ensures Prefixed(out, Decode(encoded[from..])) == Overrun
  {
    var left := encoded[from..];
    if from + 3 == |encoded| {
      assert left[2] == encoded[from + 2];
    }
  }

  lemma PrefixedTwice(out: seq<int>, c: int, d: Decoding)
    ensures Prefixed(out, Also(c, d)) == Prefixed(out + [c], d)
  {
    if d.Text? {
      assert out + ([c] + d.text) == out + [c] + d.text;
    }
  }

  lemma HexRoundTrip(c: Byte)
    ensures HexPlace(HexDigit(c / 16)) == Some(c / 16) && HexPlace(HexDigit(c % 16)) == Some(c % 16)
    ensures c / 16 * 16 + c % 16 == c
  {}

  /** Decoding undoes encoding, for every name. */
  lemma {:induction false} NameRoundTrip(s: CString, first: bool)
    ensures Decode(Encode(s, first)) == Text(s)
    decreases |s|
  {
    if s != [] {
      var rest := Encode(s[1..], false);
      NameRoundTrip(s[1..], false);
      if Plain(s, first) {
        PlainStep(s, rest);
      } else {
        EscapeStep(s[0], rest);
      }
      assert [s[0]] + s[1..] == s;
    }
  }

  lemma PlainStep(s: CString, rest: CString)
    requires s != [] && rest == Encode(s[1..], false)
    requires s[0] == UNDERSCORE ==> At(s, 1) != UNDERSCORE
    ensures Decode([s[0]] + rest) == Also(s[0], Decode(rest))
  {
    hide Decode, Also;
    var all := [s[0]] + rest;
    StartsWithUnderscore(s[1..]);
    assert all[1..] == rest;
    DecodeByte(all);
  }

  lemma EscapeStep(c: Byte, rest: CString)
    ensures Decode(Escape(c) + rest) == Also(c, Decode(rest))
  {
    hide Decode, Also, HexPlace, HexDigit;
    HexRoundTrip(c);
    var all := Escape(c) + rest;
    assert all[4..] == rest;
    DecodeEscape(all);
  }

  /** An encoding starts with an underscore only for an underscore or an escape. */
  lemma StartsWithUnderscore(s: CString)
    ensures var e := Encode(s, false);
      e != [] && e[0] == UNDERSCORE ==> s[0] == UNDERSCORE || (|e| >= 4 && e[1] == UNDERSCORE)
  {
    if s != [] && !Plain(s, false) {
      HexRoundTrip(s[0]);
    }
  }

  predicate NameByte(c: int) {
    IsAlpha(c) || IsDigit(c) || c == UNDERSCORE
  }

  /** An encoded name is a C identifier. */
  lemma {:induction false} EncodedIsIdentifier(s: CString, first: bool)
    ensures forall i :: 0 <= i < |Encode(s, first)| ==> NameByte(Encode(s, first)[i])
    ensures s != [] && first ==> !IsDigit(Encode(s, first)[0])
    decreases |s|
  {
    if s != [] {
      EncodedIsIdentifier(s[1..], false);
    }
  }

  /** A digit, an upper-case letter, the underscore or a lower-case letter, as codes of ASCII. */
  predicate NameCode(c: int) {
    48 <= c < 58 || 65 <= c < 91 || c == 95 || 97 <= c < 123
  }

  /** An identifier without two underscores together. */
  predicate Harmless(s: CString, first: bool) {
    && (first && s != [] ==> !(48 <= s[0] < 58))
    && forall i :: 0 <= i < |s| ==> NameCode(s[i]) && !(s[i] == 95 && At(s, i + 1) == 95)
  }

  lemma {:induction false} EncodedLonger(s: CString, first: bool)
    ensures |Encode(s, first)| >= |s|
    decreases |s|
  {
    if s != [] {
      EncodedLonger(s[1..], false);
    }
  }

  /** Exactly those names stand for themselves. */
  lemma {:induction false} UnchangedExactly(s: CString, first: bool)
    ensures Encode(s, first) == s <==> Harmless(s, first)
    decreases |s|
  {
    if s != [] {
      var rest := s[1..];
      UnchangedExactly(rest, false);
      EncodedLonger(rest, false);
      assert s == [s[0]] + rest;
      HarmlessRest(s, first);
      if Plain(s, first) && Encode(s, first) == s {
        assert Encode(s, first)[1..] == Encode(rest, false);
      }
    }
  }

  lemma HarmlessRest(s: CString, first: bool)
    requires s != []
    ensures Harmless(s, first) <==> Plain(s, first) && Harmless(s[1..], false)
  {
    var rest := s[1..];
    forall i: nat | i < |rest| ensures rest[i] == s[i + 1] && At(rest, i + 1) == At(s, i + 2) {
    }
    if Plain(s, first) && Harmless(rest, false) {
      forall i | 0 <= i < |s| ensures NameCode(s[i]) && !(s[i] == 95 && At(s, i + 1) == 95) {
        if i > 0 {
          assert NameCode(rest[i - 1]);
        }
      }
    }
    if Harmless(s, first) {
      assert NameCode(s[0]);
    }
  }

  /** The name ends in two underscores, or in two underscores and one hexadecimal digit. */
  predicate EndsShort(s: CString) {
    var n := |s|;
    || (n >= 2 && s[n - 2] == UNDERSCORE && s[n - 1] == UNDERSCORE)
    || (n >= 3 && s[n - 3] == UNDERSCORE && s[n - 2] == UNDERSCORE && HexPlace(s[n - 1]).Some?)
  }

  /** Such a name, which the encoder never makes, is exactly what the decoder reads past the
      end of. */
  lemma {:induction false} OverrunExactly(s: CString)
    ensures Decode(s).Overrun? <==> EndsShort(s)
    decreases |s|
  {
    if s != [] {
      if Escaped(s) {
        DecodeEscape(s);
        OverrunExactly(s[4..]);
      } else if s[0] == UNDERSCORE && At(s, 1) == UNDERSCORE && (|s| == 2 || (|s| == 3 && HexPlace(s[2]).Some?)) {
        assert EndsShort(s);
      } else {
        DecodeByte(s);
        OverrunExactly(s[1..]);
      }
    }
  }

  /** The shortest such name. */
  lemma DecoderCanOverrun()
    ensures Decode([UNDERSCORE, UNDERSCORE]) == Overrun
  {}
}
