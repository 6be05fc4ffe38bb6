/** split.c: the incremental splitter behind %split, %fsplit and backquote, and %flatten,
    which undoes it. */
module Splitting {
  import opened CStrings

  type Octet = c: int | 0 <= c < 256

  type Text = seq<Octet>

  /** The terminator always separates. */
  predicate Separates(sep: CString, c: Octet) {
    c == 0 || c in sep
  }

  /** The words found, and the word that is being read. */
  datatype Progress = Progress(words: seq<Text>, open: Option<Text>)

  const START := Progress([], None)

  function Step(sep: CString, coalesce: bool, p: Progress, c: Octet): Progress {
    if p.open.Some? then
      if Separates(sep, c) then Progress(p.words + [p.open.value], if coalesce then None else Some([]))
      else p.(open := Some(p.open.value + [c]))
    else if Separates(sep, c) then p
    else p.(open := Some([c]))
  }

  function Feed(sep: CString, coalesce: bool, p: Progress, text: Text): Progress
    decreases |text|
  {
    if text == [] then p
    else Step(sep, coalesce, Feed(sep, coalesce, p, text[..|text| - 1]), text[|text| - 1])
  }

  /** Without coalescing, a chunk opens a word at once. */
  function Opened(coalesce: bool, p: Progress): Progress {
    if !coalesce && p.open.None? then p.(open := Some([])) else p
  }

  function Closed(p: Progress): Progress {
    if p.open.Some? then Progress(p.words + [p.open.value], None) else p
  }

  function Chunk(sep: CString, coalesce: bool, endword: bool, p: Progress, text: Text): Progress {
    var q := Feed(sep, coalesce, Opened(coalesce, p), text);
    if endword then Closed(q) else q
  }

  /** The words of one whole text. */
  function Words(sep: CString, coalesce: bool, text: Text): seq<Text> {
    Closed(Feed(sep, coalesce, Opened(coalesce, START), text)).words
  }

  lemma {:induction false} FeedAppend(sep: CString, coalesce: bool, p: Progress, s: Text, t: Text)
    ensures Feed(sep, coalesce, p, s + t) == Feed(sep, coalesce, Feed(sep, coalesce, p, s), t)
    decreases |t|
  {
    if t == [] {
      assert s + t == s;
    } else {
      assert (s + t)[..|s + t| - 1] == s + t[..|t| - 1];
      FeedAppend(sep, coalesce, p, s, t[..|t| - 1]);
    }
  }

  /** Words found earlier do not matter. */
  lemma {:induction false} FeedBehind(sep: CString, coalesce: bool, words: seq<Text>, p: Progress, text: Text)
    ensures var q := Feed(sep, coalesce, p, text);
      Feed(sep, coalesce, p.(words := words + p.words), text) == q.(words := words + q.words)
    decreases |text|
  {
    hide Separates;
    if text != [] {
      var q := Feed(sep, coalesce, p, text[..|text| - 1]);
      FeedBehind(sep, coalesce, words, p, text[..|text| - 1]);
      if q.open.Some? {
        assert words + q.words + [q.open.value] == words + (q.words + [q.open.value]);
      }
    }
  }

  lemma WordsBehind(sep: CString, coalesce: bool, words: seq<Text>, text: Text)
    ensures Chunk(sep, coalesce, true, Progress(words, None), text) == Progress(words + Words(sep, coalesce, text), None)
  {
    hide Separates, Feed;
    FeedBehind(sep, coalesce, words, Opened(coalesce, START), text);
    var q := Feed(sep, coalesce, Opened(coalesce, START), text);
    assert words + [] == words;
    if q.open.Some? {
      assert words + q.words + [q.open.value] == words + (q.words + [q.open.value]);
    }
  }

  // ----- no byte is lost -----

  /** The bytes that are not the terminator and not in sep, in order. */
  function Without(sep: CString, text: Text): Text {
    if text == [] then []
    else
      var n := |text| - 1;
      Without(sep, text[..n]) + if text[n] == 0 || text[n] in sep then [] else [text[n]]
  }

  function BytesOf(p: Progress): Text {
    Concat(p.words) + if p.open.Some? then p.open.value else []
  }

  lemma {:induction false} BytesFed(sep: CString, coalesce: bool, p: Progress, text: Text)
    ensures BytesOf(Feed(sep, coalesce, p, text)) == BytesOf(p) + Without(sep, text)
    decreases |text|
  {
    if text == [] {
      assert BytesOf(p) + [] == BytesOf(p);
    } else {
      var n := |text| - 1;
      BytesFed(sep, coalesce, p, text[..n]);
      BytesStep(sep, coalesce, Feed(sep, coalesce, p, text[..n]), text[n]);
    }
  }

  lemma BytesStep(sep: CString, coalesce: bool, p: Progress, c: Octet)
    ensures BytesOf(Step(sep, coalesce, p, c)) == BytesOf(p) + if c == 0 || c in sep then [] else [c]
  {
    if p.open.Some? {
      ConcatOne(p.words, p.open.value);
      assert Concat(p.words) + (p.open.value + [c]) == Concat(p.words) + p.open.value + [c];
    }
    assert BytesOf(p) + [] == BytesOf(p);
  }

  lemma ConcatOne(words: seq<Text>, word: Text)
    ensures Concat(words + [word]) == Concat(words) + word
  {
    assert (words + [word])[..|words|] == words;
  }

  /** Splitting leaves out the separators, and nothing else; the terminator always separates. */
  lemma WordsHoldAll(sep: CString, coalesce: bool, text: Text)
    ensures Concat(Words(sep, coalesce, text)) == Without(sep, text)
  {
    hide Step, Separates, Feed;
    var p := Opened(coalesce, START);
    var q := Feed(sep, coalesce, p, text);
    BytesFed(sep, coalesce, p, text);
    assert BytesOf(p) == [] && [] + Without(sep, text) == Without(sep, text);
    if q.open.Some? {
      ConcatOne(q.words, q.open.value);
    } else {
      assert Concat(q.words) + [] == Concat(q.words);
    }
  }

  // ----- only the concatenation of the chunks matters -----

  function Concat(chunks: seq<Text>): Text {
    if chunks == [] then [] else Concat(chunks[..|chunks| - 1]) + chunks[|chunks| - 1]
  }

  function FeedChunks(sep: CString, coalesce: bool, chunks: seq<Text>): Progress {
    if chunks == [] then START
    else Chunk(sep, coalesce, false, FeedChunks(sep, coalesce, chunks[..|chunks| - 1]), chunks[|chunks| - 1])
  }

  lemma {:induction false} StaysOpen(sep: CString, p: Progress, text: Text)
    requires p.open.Some?
    ensures Feed(sep, false, p, text).open.Some?
    decreases |text|
  {
    if text != [] {
      StaysOpen(sep, p, text[..|text| - 1]);
    }
  }

  lemma {:induction false} OnlyConcatenationMatters(sep: CString, coalesce: bool, chunks: seq<Text>)
    ensures coalesce || chunks != [] ==>
      FeedChunks(sep, coalesce, chunks) == Feed(sep, coalesce, Opened(coalesce, START), Concat(chunks))
  {
    hide Step, Feed;
    if chunks == [] {
      assert Feed(sep, coalesce, START, []) == START by { NothingFed(sep, coalesce, START, []); }
    } else {
      var front, last := chunks[..|chunks| - 1], chunks[|chunks| - 1];
      OnlyConcatenationMatters(sep, coalesce, front);
      FeedAppend(sep, coalesce, Opened(coalesce, START), Concat(front), last);
      if !coalesce {
        StaysOpen(sep, Opened(coalesce, START), Concat(front));
        if front == [] {
          assert [] + last == last;
        }
      }
    }
  }

  // ----- coalescing: the maximal runs without separators -----

  datatype Span = Span(from: nat, to: nat)

  predicate Within(text: Text, r: Span) {
    r.from <= r.to <= |text|
  }

  predicate MaximalRun(sep: CString, text: Text, r: Span) {
    && r.from < r.to <= |text|
    && (forall k :: r.from <= k < r.to ==> !Separates(sep, text[k]))
    && (r.from == 0 || Separates(sep, text[r.from - 1]))
    && (r.to == |text| || Separates(sep, text[r.to]))
  }

  predicate InOrder(spans: seq<Span>) {
    forall i, j :: 0 <= i < j < |spans| ==> spans[i].to < spans[j].from
  }

  function Slices(text: Text, spans: seq<Span>): seq<Text>
    requires forall i :: 0 <= i < |spans| ==> Within(text, spans[i])
  {
    seq(|spans|, i requires 0 <= i < |spans| && Within(text, spans[i]) => text[spans[i].from..spans[i].to])
  }

  /** The runs that have ended, and the start of the one that has not. */
  function Spans(sep: CString, text: Text): (seq<Span>, Option<nat>)
    decreases |text|
  {
    if text == [] then ([], None)
    else
      var n := |text| - 1;
      var (spans, from) := Spans(sep, text[..n]);
      if Separates(sep, text[n]) then
        (if from.Some? then spans + [Span(from.value, n)] else spans, None)
      else (spans, Some(if from.Some? then from.value else n))
  }

  function AllSpans(sep: CString, text: Text): seq<Span> {
    var (spans, from) := Spans(sep, text);
    if from.Some? then spans + [Span(from.value, |text|)] else spans
  }

  ghost predicate Accounted(sep: CString, text: Text, spans: seq<Span>, from: Option<nat>) {
    && (forall r :: r in spans <==> MaximalRun(sep, text, r) && r.to < |text|)
    && InOrder(spans)
    && match from
       case None => text == [] || Separates(sep, text[|text| - 1])
       case Some(a) => MaximalRun(sep, text, Span(a, |text|))
  }

  lemma {:induction false} SpansAccounted(sep: CString, text: Text)
    ensures var (spans, from) := Spans(sep, text); Accounted(sep, text, spans, from)
    decreases |text|
  {
    if text != [] {
      SpansAccounted(sep, text[..|text| - 1]);
      var (spans, from) := Spans(sep, text[..|text| - 1]);
      AccountedStep(sep, text, spans, from);
    }
  }

  lemma AccountedStep(sep: CString, text: Text, spans: seq<Span>, from: Option<nat>)
    requires text != [] && Accounted(sep, text[..|text| - 1], spans, from)
    ensures var n := |text| - 1;
      if Separates(sep, text[n]) then
        Accounted(sep, text, if from.Some? then spans + [Span(from.value, n)] else spans, None)
      else Accounted(sep, text, spans, Some(if from.Some? then from.value else n))
  {
    hide Separates, MaximalRun;
    var n := |text| - 1;
    var before := text[..n];
    forall r: Span | r.to < n ensures MaximalRun(sep, text, r) <==> MaximalRun(sep, before, r) {
      RunBefore(sep, text, r);
    }
    forall r: Span | r.to == n
      ensures MaximalRun(sep, text, r) <==> MaximalRun(sep, before, r) && Separates(sep, text[n])
    {
      RunBefore(sep, text, r);
    }
    forall r: Span | MaximalRun(sep, before, r) ensures r.from < r.to <= n && !Separates(sep, before[r.to - 1]) {
      RunFits(sep, before, r);
    }
    assert n > 0 ==> before[n - 1] == text[n - 1];
    if from.Some? {
      var a := from.value;
      forall r: Span | MaximalRun(sep, before, r) ensures if r.to < n then r.to < a else r == Span(a, n) {
        RunsApart(sep, before, r, Span(a, n));
      }
    }
    RunAtEnd(sep, text, if from.Some? then from.value else n);
  }

  lemma RunFits(sep: CString, text: Text, r: Span)
    requires MaximalRun(sep, text, r)
    ensures r.from < r.to <= |text| && !Separates(sep, text[r.to - 1])
  {}

  lemma RunBefore(sep: CString, text: Text, r: Span)
    requires text != [] && r.to < |text|
    ensures MaximalRun(sep, text, r) <==>
      MaximalRun(sep, text[..|text| - 1], r) && (r.to == |text| - 1 ==> Separates(sep, text[r.to]))
  {
    hide Separates;
    var before := text[..|text| - 1];
    assert forall k :: 0 <= k < |before| ==> before[k] == text[k];
    assert r.from < r.to ==> (forall k :: r.from <= k < r.to ==> before[k] == text[k]);
  }

  lemma RunsApart(sep: CString, text: Text, r: Span, last: Span)
    requires MaximalRun(sep, text, r) && MaximalRun(sep, text, last) && last.to == |text|
    ensures if r.to < |text| then r.to < last.from else r == last
  {
    hide Separates;
  }

  /** Reading a byte that does not separate. */
  lemma RunAtEnd(sep: CString, text: Text, a: nat)
    requires text != [] && a < |text|
    requires a == |text| - 1 ==> a == 0 || Separates(sep, text[a - 1])
    requires a < |text| - 1 ==> MaximalRun(sep, text[..|text| - 1], Span(a, |text| - 1))
    ensures !Separates(sep, text[|text| - 1]) ==> MaximalRun(sep, text, Span(a, |text|))
  {
    hide Separates;
    var before := text[..|text| - 1];
    assert forall k :: 0 <= k < |before| ==> before[k] == text[k];
  }

  lemma SpansWithin(sep: CString, text: Text)
    ensures var (spans, from) := Spans(sep, text);
      (forall i :: 0 <= i < |spans| ==> Within(text, spans[i])) && (from.Some? ==> from.value < |text|)
  {
    SpansAccounted(sep, text);
    var (spans, _) := Spans(sep, text);
    forall i | 0 <= i < |spans| ensures Within(text, spans[i]) {
      assert spans[i] in spans;
    }
  }

  /** The words read so far are the text in the runs so far. */
  lemma {:induction false} RunWords(sep: CString, text: Text)
    ensures var (spans, from) := Spans(sep, text);
      && (forall i :: 0 <= i < |spans| ==> Within(text, spans[i])) && (from.Some? ==> from.value < |text|)
      && Feed(sep, true, START, text) ==
         Progress(Slices(text, spans), if from.Some? then Some(text[from.value..]) else None)
    decreases |text|
  {
    SpansWithin(sep, text);
    if text != [] {
      RunWords(sep, text[..|text| - 1]);
      RunWordsStep(sep, text);
    }
  }

  lemma RunWordsStep(sep: CString, text: Text)
    requires text != []
    requires var before := text[..|text| - 1];
      var (spans, from) := Spans(sep, before);
      && (forall i :: 0 <= i < |spans| ==> Within(before, spans[i])) && (from.Some? ==> from.value < |before|)
      && Feed(sep, true, START, before) ==
         Progress(Slices(before, spans), if from.Some? then Some(before[from.value..]) else None)
    ensures var (spans, from) := Spans(sep, text);
      && (forall i :: 0 <= i < |spans| ==> Within(text, spans[i])) && (from.Some? ==> from.value < |text|)
      && Feed(sep, true, START, text) ==
         Progress(Slices(text, spans), if from.Some? then Some(text[from.value..]) else None)
  {
    hide Separates;
    var n := |text| - 1;
    var before := text[..n];
    var (spans, from) := Spans(sep, before);
    SlicesLonger(text, spans);
    if from.Some? {
      assert before[from.value..] == text[from.value..n];
      assert text[from.value..] == before[from.value..] + [text[n]];
      SlicesMore(text, spans, Span(from.value, n));
    } else {
      assert text[n..] == [text[n]];
    }
  }

  lemma SlicesLonger(text: Text, spans: seq<Span>)
    requires text != [] && forall i :: 0 <= i < |spans| ==> Within(text[..|text| - 1], spans[i])
    ensures forall i :: 0 <= i < |spans| ==> Within(text, spans[i])
    ensures Slices(text, spans) == Slices(text[..|text| - 1], spans)
  {
    var before := text[..|text| - 1];
    forall i | 0 <= i < |spans| ensures before[spans[i].from..spans[i].to] == text[spans[i].from..spans[i].to] {
      assert Within(before, spans[i]);
    }
  }

  lemma SlicesMore(text: Text, spans: seq<Span>, r: Span)
    requires Within(text, r) && forall i :: 0 <= i < |spans| ==> Within(text, spans[i])
    ensures forall i :: 0 <= i < |spans + [r]| ==> Within(text, (spans + [r])[i])
    ensures Slices(text, spans + [r]) == Slices(text, spans) + [text[r.from..r.to]]
  {}

  /** A coalescing split gives the maximal runs without separators, all of them, in order. */
  lemma CoalescingIsMaximalRuns(sep: CString, text: Text)
    ensures var spans := AllSpans(sep, text);
      && (forall r :: r in spans <==> MaximalRun(sep, text, r)) && InOrder(spans)
      && (forall i :: 0 <= i < |spans| ==> Within(text, spans[i]))
      && Words(sep, true, text) == Slices(text, spans)
  {
    hide MaximalRun, Separates, Step;
    SpansAccounted(sep, text);
    RunWords(sep, text);
    var (spans, from) := Spans(sep, text);
    forall r: Span | MaximalRun(sep, text, r)
      ensures r.from < r.to <= |text| && !Separates(sep, text[r.to - 1])
    {
      RunFits(sep, text, r);
    }
    if from.Some? {
      var last := Span(from.value, |text|);
      forall r: Span | MaximalRun(sep, text, r)
        ensures if r.to < |text| then r.to < last.from else r == last
      {
        RunsApart(sep, text, r, last);
      }
      SlicesMore(text, spans, last);
      assert text[from.value..|text|] == text[from.value..];
    }
  }

  // ----- not coalescing: the fields between the separators -----

  function Fields(sep: CString, text: Text): (fields: seq<Text>)
  {
    Words(sep, false, text)
  }

  /** The separators of a text, in order. */
  function SeparatorsIn(sep: CString, text: Text): Text {
    if text == [] then []
    else
      var n := |text| - 1;
      SeparatorsIn(sep, text[..n]) + if Separates(sep, text[n]) then [text[n]] else []
  }

  /** fields[0] seps[0] fields[1] ... */
  function Weave(fields: seq<Text>, seps: Text): Text
    requires |fields| == |seps| + 1
    decreases |seps|
  {
    if seps == [] then fields[0]
    else
      var n := |seps| - 1;
      Weave(fields[..n + 1], seps[..n]) + [seps[n]] + fields[n + 1]
  }

  predicate Unseparated(sep: CString, field: Text) {
    forall c :: c in field ==> !Separates(sep, c)
  }

  predicate AllUnseparated(sep: CString, fields: seq<Text>) {
    forall i :: 0 <= i < |fields| ==> Unseparated(sep, fields[i])
  }

  /** The fields and the separators together are the text; no field holds a separator. */
  lemma {:induction false} FieldsAndSeparators(sep: CString, text: Text)
    ensures var p := Feed(sep, false, Opened(false, START), text);
      && p.open.Some? && |p.words| == |SeparatorsIn(sep, text)|
      && Fields(sep, text) == p.words + [p.open.value]
      && AllUnseparated(sep, Fields(sep, text))
      && Weave(Fields(sep, text), SeparatorsIn(sep, text)) == text
    decreases |text|
  {
    hide Separates;
    if text != [] {
      var n := |text| - 1;
      FieldsAndSeparators(sep, text[..n]);
      FieldsStep(sep, text);
    }
  }

  lemma FieldsStep(sep: CString, text: Text)
    requires text != []
    requires var before := text[..|text| - 1];
      var p := Feed(sep, false, Opened(false, START), before);
      && p.open.Some? && |p.words| == |SeparatorsIn(sep, before)|
      && AllUnseparated(sep, p.words + [p.open.value])
      && Weave(p.words + [p.open.value], SeparatorsIn(sep, before)) == before
    ensures var p := Feed(sep, false, Opened(false, START), text);
      && p.open.Some? && |p.words| == |SeparatorsIn(sep, text)|
      && AllUnseparated(sep, p.words + [p.open.value])
      && Weave(p.words + [p.open.value], SeparatorsIn(sep, text)) == text
  {
    hide Separates, Weave;
    var n := |text| - 1;
    var before, c := text[..n], text[n];
    assert text == before + [c];
    var p := Feed(sep, false, Opened(false, START), before);
    var fields, seps := p.words + [p.open.value], SeparatorsIn(sep, before);
    if Separates(sep, c) {
      WeaveMore(fields, seps, c, []);
    } else {
      assert seps + [] == seps && fields[|p.words|] == p.open.value;
      assert Unseparated(sep, p.open.value + [c]);
      forall i | 0 <= i < |p.words| ensures Unseparated(sep, p.words[i]) {
        assert fields[i] == p.words[i];
      }
      WeaveLonger(p.words, p.open.value, seps, c);
    }
  }

  lemma WeaveMore(fields: seq<Text>, seps: Text, c: Octet, field: Text)
    requires |fields| == |seps| + 1
    ensures Weave(fields + [field], seps + [c]) == Weave(fields, seps) + [c] + field
  {
    assert (fields + [field])[..|seps| + 1] == fields && (seps + [c])[..|seps|] == seps;
  }

  lemma WeaveLonger(words: seq<Text>, field: Text, seps: Text, c: Octet)
    requires |words| == |seps|
    ensures Weave(words + [field + [c]], seps) == Weave(words + [field], seps) + [c]
  {
    if seps != [] {
      assert (words + [field + [c]])[..|seps|] == (words + [field])[..|seps|];
    }
  }

  lemma {:induction false} FeedField(sep: CString, p: Progress, field: Text)
    requires p.open.Some? && Unseparated(sep, field)
    ensures Feed(sep, false, p, field) == p.(open := Some(p.open.value + field))
    decreases |field|
  {
    hide Separates;
    if field == [] {
      assert p.open.value + [] == p.open.value;
    } else {
      var n := |field| - 1;
      assert field[n] in field;
      FeedField(sep, p, field[..n]);
      assert p.open.value + field[..n] + [field[n]] == p.open.value + field;
    }
  }

  /** Splitting undoes weaving, so that the split of a text is the only way to part it into
      fields without separators. */
  lemma {:induction false} FieldsOfWeave(sep: CString, fields: seq<Text>, seps: Text)
    requires |fields| == |seps| + 1 && AllUnseparated(sep, fields) && forall c :: c in seps ==> Separates(sep, c)
    ensures Feed(sep, false, Opened(false, START), Weave(fields, seps)) ==
      Progress(fields[..|seps|], Some(fields[|seps|]))
    ensures Fields(sep, Weave(fields, seps)) == fields
    decreases |seps|
  {
    hide Separates, Step, Unseparated, Feed;
    var n := |seps|;
    assert fields == fields[..n] + [fields[n]];
    if n == 0 {
      FeedField(sep, Opened(false, START), fields[0]);
      assert [] + fields[0] == fields[0];
    } else {
      FieldsOfWeave(sep, fields[..n], seps[..n - 1]);
      assert fields[..n] == fields[..n - 1] + [fields[n - 1]];
      NextField(sep, Weave(fields[..n], seps[..n - 1]), fields[..n - 1], fields[n - 1], seps[n - 1], fields[n]);
    }
  }

  lemma NextField(sep: CString, before: Text, words: seq<Text>, last: Text, c: Octet, field: Text)
    requires Separates(sep, c) && Unseparated(sep, field)
    requires Feed(sep, false, Opened(false, START), before) == Progress(words, Some(last))
    ensures Feed(sep, false, Opened(false, START), before + [c] + field) == Progress(words + [last], Some(field))
  {
    hide Separates, Unseparated, Feed;
    var p := Opened(false, START);
    FeedAppend(sep, false, p, before, [c]);
    FeedAppend(sep, false, p, before + [c], field);
    FeedOne(sep, Progress(words, Some(last)), c);
    FeedField(sep, Progress(words + [last], Some([])), field);
    assert [] + field == field;
  }

  lemma FeedOne(sep: CString, p: Progress, c: Octet)
    ensures Feed(sep, false, p, [c]) == Step(sep, false, p, c)
  {
    assert [c][..0] == [];
  }

  /** Every byte of a field is a byte of the text. */
  lemma {:induction false} WeaveWithin(fields: seq<Text>, seps: Text, i: nat, c: Octet)
    requires |fields| == |seps| + 1 && i < |fields| && c in fields[i]
    ensures c in Weave(fields, seps)
    decreases |seps|
  {
    if i < |seps| {
      WeaveWithin(fields[..|seps|], seps[..|seps| - 1], i, c);
    }
  }

  /** The fields on both sides of a separator. */
  lemma FieldsAround(sep: CString, s: Text, c: Octet, t: Text)
    requires Separates(sep, c)
    ensures Fields(sep, s + [c] + t) == Fields(sep, s) + Fields(sep, t)
  {
    hide Separates, Feed, Weave, SeparatorsIn;
    var p := Opened(false, START);
    FieldsAndSeparators(sep, s);
    FieldsAndSeparators(sep, t);
    FeedAppend(sep, false, p, s, [c]);
    FeedAppend(sep, false, p, s + [c], t);
    FeedOne(sep, Feed(sep, false, p, s), c);
    var words := Fields(sep, s);
    assert words + [] == words;
    FeedBehind(sep, false, words, p, t);
    var q := Feed(sep, false, p, t);
    assert words + q.words + [q.open.value] == words + (q.words + [q.open.value]);
  }

  /** A text without separators is its only field. */
  lemma FieldsOfField(sep: CString, field: Text)
    requires Unseparated(sep, field)
    ensures Fields(sep, field) == [field]
  {
    FieldsOfWeave(sep, [field], []);
  }

  // ----- %fsplit and %flatten -----

  /** One string per byte. */
  function Singles(text: Text): seq<Text> {
    seq(|text|, i requires 0 <= i < |text| => [text[i]])
  }

  /** What one element of the list is split into. */
  function Element(sep: CString, coalesce: bool, text: Text): seq<Text> {
    if !coalesce && sep == [] then Singles(text) else Words(sep, coalesce, text)
  }

  function FSplit(sep: CString, list: seq<CString>, coalesce: bool): seq<Text> {
    if list == [] then []
    else FSplit(sep, list[..|list| - 1], coalesce) + Element(sep, coalesce, list[|list| - 1])
  }

  function Join(list: seq<Text>, sep: CString): Text {
    if list == [] then []
    else if |list| == 1 then list[0]
    else Join(list[..|list| - 1], sep) + sep + list[|list| - 1]
  }

  lemma {:induction false} JoinAppend(a: seq<Text>, b: seq<Text>, sep: CString)
    requires a != [] && b != []
    ensures Join(a + b, sep) == Join(a, sep) + sep + Join(b, sep)
    decreases |b|
  {
    var n := |b| - 1;
    assert (a + b)[..|a + b| - 1] == a + b[..n];
    if n == 0 {
      assert a + b[..n] == a;
    } else {
      JoinAppend(a, b[..n], sep);
      assert Join(a, sep) + sep + (Join(b[..n], sep) + sep + b[n]) == Join(a, sep) + sep + Join(b[..n], sep) + sep + b[n];
    }
  }

  lemma {:induction false} JoinIsWeave(c: Byte, fields: seq<Text>, seps: Text)
    requires |fields| == |seps| + 1 && forall i :: 0 <= i < |seps| ==> seps[i] == c
    ensures Join(fields, [c]) == Weave(fields, seps)
    decreases |seps|
  {
    if seps != [] {
      var n := |seps| - 1;
      assert fields[..|fields| - 1] == fields[..n + 1];
      JoinIsWeave(c, fields[..n + 1], seps[..n]);
    }
  }

  lemma {:induction false} SeparatorsSeparate(sep: CString, text: Text)
    ensures forall c :: c in SeparatorsIn(sep, text) ==> c in text && Separates(sep, c)
    decreases |text|
  {
    hide Separates;
    if text != [] {
      SeparatorsSeparate(sep, text[..|text| - 1]);
    }
  }

  lemma FlattenOfFields(c: Byte, text: CString)
    ensures Fields([c], text) != [] && Join(Fields([c], text), [c]) == text
  {
    hide Feed, Weave, SeparatorsIn, Words;
    FieldsAndSeparators([c], text);
    SeparatorsSeparate([c], text);
    var seps := SeparatorsIn([c], text);
    forall i | 0 <= i < |seps| ensures seps[i] == c {
      assert seps[i] in seps;
    }
    JoinIsWeave(c, Fields([c], text), seps);
  }

  /** Splitting at one character and joining again gives what joining the list gives. */
  lemma {:induction false} FlattenOfFsplit(c: Byte, list: seq<CString>)
    ensures list != [] ==> FSplit([c], list, false) != []
    ensures Join(FSplit([c], list, false), [c]) == Join(list, [c])
  {
    hide Words;
    if list != [] {
      var front, last := list[..|list| - 1], list[|list| - 1];
      FlattenOfFsplit(c, front);
      FlattenOfFields(c, last);
      if front == [] {
        assert [] + Fields([c], last) == Fields([c], last);
      } else {
        JoinAppend(FSplit([c], front, false), Fields([c], last), [c]);
      }
    }
  }

  /** Splitting the joined list gives the list back exactly when it has an element and no
      element holds the separator. */
  lemma FsplitOfFlatten(c: Byte, list: seq<CString>)
    ensures Fields([c], Join(list, [c])) == list <==> list != [] && forall i :: 0 <= i < |list| ==> c !in list[i]
  {
    hide Join, Weave, Feed, Words;
    FieldsAndSeparators([c], Join(list, [c]));
    if list != [] && forall i :: 0 <= i < |list| ==> c !in list[i] {
      var seps := seq(|list| - 1, i => c);
      JoinIsWeave(c, list, seps);
      FieldsOfWeave([c], list, seps);
    }
  }

  // ----- the splitter -----

  function Reversed(s: seq<Text>): seq<Text> {
    if s == [] then [] else Reversed(s[1..]) + [s[0]]
  }

  const IFS_SIZE := 10

  class Splitter {
    var coalesce: bool
    var splitchars: bool
    var buffer: Option<Text>
    /** newest first */
    var value: seq<Text>
    var ifsvalid: bool
    var ifs: CString
    const isifs: array<bool>

    /** The table says what separates. */
    ghost predicate Separating(sep: CString)
      reads isifs
    {
      isifs.Length == 256 && forall c: Octet :: isifs[c] == Separates(sep, c)
    }

    ghost predicate Valid()
      reads this, isifs
    {
      isifs.Length == 256 && (ifsvalid ==> Separating(ifs))
    }

    ghost function State(): Progress
      reads this
    {
      Progress(Reversed(value), buffer)
    }

    constructor ()
      ensures Valid() && fresh(isifs)
    {
      isifs := new bool[256](_ => false);
      coalesce, splitchars, ifsvalid := false, false, false;
      buffer, value, ifs := None, [], [];
    }

    /** startsplit: whatever was split before, the table fits the separators. */
    method Start(sep: CString, coalescef: bool)
      requires Valid()
      modifies this, isifs
      ensures Valid() && Separating(sep) && State() == START
      ensures coalesce == coalescef && splitchars == (!coalescef && sep == [])
    {
      value, buffer := [], None;
      coalesce := coalescef;
      splitchars := !coalesce && At(sep, 0) == 0;
      if !ifsvalid || sep != ifs {
        if |sep| + 1 < IFS_SIZE {
          ifs, ifsvalid := sep, true;
        } else {
          ifsvalid := false;
        }
        forall c | 0 <= c < 256 {
          isifs[c] := false;
        }
        isifs[0] := true;
        var s := 0;
        while At(sep, s) != 0
          invariant s <= |sep|
          invariant forall c: Octet :: isifs[c] == (c == 0 || c in sep[..s])
          invariant ifsvalid ==> ifs == sep
          decreases |sep| - s
          modifies isifs
        {
          isifs[sep[s]] := true;
          s := s + 1;
        }
        assert sep[..s] == sep;
      }
    }

    /** The list with one more word. */
    method Seal(word: Text)
      modifies this`value
      ensures Reversed(value) == old(Reversed(value)) + [word]
    {
      value := [word] + value;
    }

    /** splitstring_r: up to the next separator inside a word, or to the end. */
    method SplitstringR(input: Text, endword: bool, ghost sep: CString) returns (rest: Option<nat>)
      requires Valid() && Separating(sep) && splitchars == (!coalesce && sep == [])
      requires splitchars ==> buffer.None? && forall c :: c in input ==> c != 0
      modifies this`buffer, this`value
      ensures rest.Some? ==> 0 < rest.value <= |input|
      ensures splitchars ==> buffer.None? && (rest.Some? ==> rest.value == 1 && rest.value < |input|)
      ensures splitchars ==> Reversed(value) == old(Reversed(value)) + Singles(input[..if |input| == 0 then 0 else 1])
      ensures splitchars && rest.None? ==> |input| <= 1
      ensures !splitchars && rest.None? ==> State() == Chunk(sep, coalesce, endword, old(State()), input)
      ensures !splitchars && rest.Some? ==> State() == Feed(sep, coalesce, Opened(coalesce, old(State())), input[..rest.value])
    {
      var buf := buffer;
      var s := 0;
      if splitchars {
        assert input != [] ==> input[0] in input;
        if At(input, s) == 0 {
          assert Reversed(value) + [] == Reversed(value);
          return None;
        }
        var end := At(input, s + 1) == 0;
        Seal([input[s]]);
        assert |input| > 1 ==> input[1] in input;
        if end {
          return None;
        }
        return Some(s + 1);
      }
      if !coalesce && buf.None? {
        buf := Some([]);
      }
      ghost var start := Opened(coalesce, State());
      assert input[..0] == [];
      while s < |input|
        invariant s <= |input| && value == old(value)
        invariant Progress(Reversed(value), buf) == Feed(sep, coalesce, start, input[..s])
      {
        var c := input[s];
        assert input[..s + 1][..s] == input[..s] && input[..s + 1] != [];
        s := s + 1;
        if buf.Some? {
          if isifs[c] {
            Seal(buf.value);
            buf := if coalesce then None else Some([]);
            buffer := buf;
            return Some(s);
          } else {
            buf := Some(buf.value + [c]);
          }
        } else if !isifs[c] {
          buf := Some([c]);
        }
      }
      assert input[..s] == input;
      if endword && buf.Some? {
        Seal(buf.value);
        buf := None;
      }
      buffer := buf;
      rest := None;
    }

    /** splitstring */
    method Splitstring(input: Text, endword: bool, ghost sep: CString)
      requires Valid() && Separating(sep) && splitchars == (!coalesce && sep == [])
      requires splitchars ==> buffer.None? && forall c :: c in input ==> c != 0
      modifies this`buffer, this`value
      ensures splitchars ==> State() == Progress(old(Reversed(value)) + Singles(input), None)
      ensures !splitchars ==> State() == Chunk(sep, coalesce, endword, old(State()), input)
    {
      hide Feed, Step, Separates, Singles, Reversed;
      var s: nat := 0;
      var going := true;
      ghost var start := Opened(coalesce, State());
      NothingFed(sep, coalesce, start, Reversed(value));
      assert input[..0] == [];
      while going
        invariant s <= |input|
        invariant splitchars ==> buffer.None?
        invariant splitchars && going ==> Reversed(value) == old(Reversed(value)) + Singles(input[..s])
        invariant splitchars && !going ==> Reversed(value) == old(Reversed(value)) + Singles(input)
        invariant !splitchars && going ==> Opened(coalesce, State()) == Feed(sep, coalesce, start, input[..s])
        invariant !splitchars && !going ==> State() == Chunk(sep, coalesce, endword, old(State()), input)
        decreases |input| - s, going
      {
        ghost var before := input[..s];
        assert forall c :: c in input[s..] ==> c in input;
        var next := SplitstringR(input[s..], endword, sep);
        ghost var used := if next.Some? then next.value else |input| - s;
        assert input[..s + used] == before + input[s..][..used];
        if splitchars {
          SinglesAppend(before, input[s..][..used], old(Reversed(value)));
          assert next.None? ==> (input[s..][..if |input[s..]| == 0 then 0 else 1]) == input[s..][..used];
        } else {
          FeedAppend(sep, coalesce, start, before, input[s..][..used]);
          if next.Some? && !coalesce {
            StaysOpen(sep, start, input[..s + used]);
          }
          assert next.None? ==> input[s..][..used] == input[s..];
        }
        assert next.None? ==> input[..s + used] == input;
        if next.None? {
          going := false;
        } else {
          s := s + next.value;
        }
      }
    }

    /** endsplit */
    method Endsplit() returns (result: seq<Text>)
      modifies this`buffer, this`value
      ensures result == Closed(old(State())).words && State() == START
    {
      if buffer.Some? {
        Seal(buffer.value);
        buffer := None;
      }
      result := Reversed(value);
      value := [];
    }

    /** fsplit */
    method Fsplit(sep: CString, list: seq<CString>, coalescef: bool) returns (result: seq<Text>)
      requires Valid()
      modifies this, isifs
      ensures Valid() && result == FSplit(sep, list, coalescef)
    {
      hide Words, Singles, Chunk, Separates, Reversed;
      Start(sep, coalescef);
      var lp := 0;
      while lp < |list|
        invariant lp <= |list| && Valid() && Separating(sep)
        invariant coalesce == coalescef && splitchars == (!coalescef && sep == [])
        invariant State() == Progress(FSplit(sep, list[..lp], coalescef), None)
      {
        assert list[..lp + 1][..lp] == list[..lp];
        WordsBehind(sep, coalesce, Reversed(value), list[lp]);
        Splitstring(list[lp], true, sep);
        lp := lp + 1;
      }
      assert list[..lp] == list;
      result := Endsplit();
    }

    /** bqinput: what a command writes arrives in chunks. */
    method Bqinput(sep: CString, chunks: seq<Text>) returns (result: seq<Text>)
      requires Valid()
      modifies this, isifs
      ensures Valid() && result == Words(sep, true, Concat(chunks))
    {
      hide Chunk, Feed, Separates, Reversed;
      Start(sep, true);
      var n := 0;
      while n < |chunks|
        invariant n <= |chunks| && Valid() && Separating(sep) && coalesce && !splitchars
        invariant State() == FeedChunks(sep, true, chunks[..n])
      {
        assert chunks[..n + 1][..n] == chunks[..n];
        Splitstring(chunks[n], false, sep);
        n := n + 1;
      }
      assert chunks[..n] == chunks;
      OnlyConcatenationMatters(sep, true, chunks);
      result := Endsplit();
    }
  }

  lemma NothingFed(sep: CString, coalesce: bool, p: Progress, words: seq<Text>)
    ensures Feed(sep, coalesce, p, []) == p && words + Singles([]) == words
  {}

  lemma SinglesAppend(s: Text, t: Text, words: seq<Text>)
    ensures words + Singles(s) + Singles(t) == words + Singles(s + t)
  {}

  /** %flatten: %L prints the separator between the elements. */
  method Flatten(sep: CString, list: seq<CString>) returns (r: Text)
    ensures r == Join(list, sep)
  {
    r := [];
    var lp := 0;
    while lp < |list|
      invariant lp <= |list|
      invariant r == Join(list[..lp], sep) + if 0 < lp < |list| then sep else []
    {
      assert list[..lp + 1][..lp] == list[..lp];
      ghost var front := Join(list[..lp], sep);
      r := r + list[lp] + if lp + 1 < |list| then sep else [];
      if lp == 0 {
        assert [] + list[0] == list[0];
      }
      assert r == Join(list[..lp + 1], sep) + if lp + 1 < |list| then sep else [];
      lp := lp + 1;
    }
    assert list[..lp] == list;
  }
}
