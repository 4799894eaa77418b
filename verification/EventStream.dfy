/** Server-sent events: cutting a chunked text into data payloads. */
module EventStream {
  import opened DagTypes
  import opened Text

  /** The characters JavaScript's trimStart strips. */
  predicate IsJsSpace(c: char) {
    || '\t' <= c <= '\r' || c == ' ' || c == '\U{A0}' || c == '\U{FEFF}' || c == '\U{1680}'
    || '\U{2000}' <= c <= '\U{200A}' || c == '\U{2028}' || c == '\U{2029}' || c == '\U{202F}' || c == '\U{205F}'
        || c == '\U{3000}'
  }

  /** The first line break pair at or after position i. */
  function FirstBoundary(s: string, i: nat): (r: Option<nat>)
    requires i <= |s|
    ensures r.Some? ==> i <= r.value && r.value + 2 <= |s| && IsBoundary(s, r.value)
    ensures r.Some? ==> forall j :: i <= j < r.value ==> !IsBoundary(s, j)
    ensures r.None? ==> forall j :: i <= j < |s| ==> !IsBoundary(s, j)
    decreases |s| - i
  {
    if i == |s| then None
    else if IsBoundary(s, i) then Some(i)
    else FirstBoundary(s, i + 1)
  }

  predicate IsBoundary(s: string, j: nat) {
    j + 2 <= |s| && s[j] == '\n' && s[j + 1] == '\n'
  }

  function Lines(s: string): seq<string> {
    if s == "" then [""]
    else
      var rest := Lines(s[1..]);
      if s[0] == '\n' then [""] + rest else [[s[0]] + rest[0]] + rest[1..]
  }

  function JoinLines(lines: seq<string>): string {
    if lines == [] then ""
    else if |lines| == 1 then lines[0]
    else lines[0] + "\n" + JoinLines(lines[1..])
  }

  function DataLines(lines: seq<string>): seq<string> {
    if lines == [] then []
    else (if "data:" <= lines[0] then [TrimLeft(lines[0][5..], IsJsSpace)] else []) + DataLines(lines[1..])
  }

  /** The data payload of one event. */
  function DataOf(event: string): string {
    JoinLines(DataLines(Lines(event)))
  }

  function IfData(event: string): seq<string> {
    if DataOf(event) != "" then [DataOf(event)] else []
  }

  /** The payloads of the complete events of a text, and what is left behind the last of them. */
  datatype Drained = Drained(payloads: seq<string>, rest: string)

  function Drain(text: string): Drained
    decreases |text|
  {
    match FirstBoundary(text, 0)
    case None => Drained([], text)
    case Some(b) =>
      var d := Drain(text[b + 2..]);
      Drained(IfData(text[..b]) + d.payloads, d.rest)
  }

  /** Everything a text yields, its unterminated end included; flush is what the decoder still held back. */
  function Payloads(text: string, flush: string): seq<string> {
    Drain(text).payloads + IfData(Drain(text).rest + flush)
  }

  /** CRLF pairs become LF. */
  function Unix(s: string): string {
    if s == "" then ""
    else if |s| >= 2 && s[0] == '\r' && s[1] == '\n' then "\n" + Unix(s[2..])
    else [s[0]] + Unix(s[1..])
  }

  function Concat(chunks: seq<string>): string {
    if chunks == [] then "" else Concat(chunks[..|chunks| - 1]) + chunks[|chunks| - 1]
  }

  /** What the reader's buffer sees: each chunk converted by itself. */
  function UnixByChunk(chunks: seq<string>): string {
    if chunks == [] then "" else UnixByChunk(chunks[..|chunks| - 1]) + Unix(chunks[|chunks| - 1])
  }

  // ---------- the reader ----------

  /** Yields the payload of every complete event as soon as its last byte has arrived. */
  method ReadSSE(chunks: seq<string>, flush: string) returns (yielded: seq<string>)
    ensures yielded == Payloads(UnixByChunk(chunks), flush)
  {
    hide DataOf, Unix, Drain;
    yielded := [];
    var buffer := "";
    DrainNothing();
    for i := 0 to |chunks|
      invariant Drain(UnixByChunk(chunks[..i])) == Drained(yielded, buffer)
    {
      assert chunks[..i + 1][..i] == chunks[..i];
      DrainMore(UnixByChunk(chunks[..i]), Unix(chunks[i]));
      buffer := buffer + Unix(chunks[i]);
      var complete;
      complete, buffer := DrainBuffer(buffer);
      yielded := yielded + complete;
    }
    assert chunks[..|chunks|] == chunks;
    buffer := buffer + flush;
    var data := DataOf(buffer);
    if data != "" {
      yielded := yielded + [data];
    }
  }

  /** Takes the complete events off the front of the buffer. */
  method DrainBuffer(buffer0: string) returns (payloads: seq<string>, buffer: string)
    ensures Drained(payloads, buffer) == Drain(buffer0)
  {
    hide DataOf, Drain, FirstBoundary;
    payloads, buffer := [], buffer0;
    var boundary := FirstBoundary(buffer, 0);
    while boundary.Some?
      invariant boundary == FirstBoundary(buffer, 0)
      invariant payloads + Drain(buffer).payloads == Drain(buffer0).payloads
          && Drain(buffer).rest == Drain(buffer0).rest
      decreases |buffer|
    {
      DrainStep(buffer);
      var event := buffer[..boundary.value];
      buffer := buffer[boundary.value + 2..];
      var data := DataOf(event);
      if data != "" {
        payloads := payloads + [data];
      }
      boundary := FirstBoundary(buffer, 0);
    }
    DrainEnd(buffer);
  }

  lemma DrainNothing()
    ensures Drain("") == Drained([], "")
  {}

  lemma DrainStep(text: string)
    requires FirstBoundary(text, 0).Some?
    ensures var b := FirstBoundary(text, 0).value;
      b + 2 <= |text|
          && Drain(text) == Drained(IfData(text[..b]) + Drain(text[b + 2..]).payloads, Drain(text[b + 2..]).rest)
  {
    hide IfData;
  }

  lemma DrainEnd(text: string)
    requires FirstBoundary(text, 0).None?
    ensures Drain(text) == Drained([], text)
  {}

  lemma BoundaryInPrefix(a: string, b: string, i: nat)
    requires i <= |a| && FirstBoundary(a, i).Some?
    ensures FirstBoundary(a + b, i) == FirstBoundary(a, i)
  {
    var r := FirstBoundary(a, i).value;
    var q := FirstBoundary(a + b, i);
    assert IsBoundary(a + b, r);
    assert forall j :: i <= j < r ==> (IsBoundary(a + b, j) <==> IsBoundary(a, j));
  }

  /** Text that arrives later is drained from where the earlier text left off. */
  lemma {:induction false} DrainMore(a: string, b: string)
    ensures var d, e := Drain(a), Drain(Drain(a).rest + b);
      Drain(a + b) == Drained(d.payloads + e.payloads, e.rest)
    decreases |a|
  {
    hide IfData, FirstBoundary, IsBoundary, Drain;
    if FirstBoundary(a, 0).Some? {
      var r := FirstBoundary(a, 0).value;
      BoundaryInPrefix(a, b, 0);
      DrainStep(a);
      DrainStep(a + b);
      var tail := a[r + 2..];
      DrainMore(tail, b);
      assert (a + b)[r + 2..] == tail + b;
      assert (a + b)[..r] == a[..r];
      var e := Drain(Drain(a).rest + b);
      assert IfData(a[..r]) + (Drain(tail).payloads + e.payloads) == Drain(a).payloads + e.payloads;
    } else {
      DrainEnd(a);
      assert [] + Drain(a + b).payloads == Drain(a + b).payloads;
    }
  }

  // ---------- what draining means ----------

  /** The raw events of a text, and the rest. */
  function Blocks(text: string): seq<string>
    decreases |text|
  {
    match FirstBoundary(text, 0)
    case None => [text]
    case Some(b) => [text[..b]] + Blocks(text[b + 2..])
  }

  function Glue(blocks: seq<string>): string {
    if blocks == [] then "" else if |blocks| == 1 then blocks[0] else blocks[0] + "\n\n" + Glue(blocks[1..])
  }

  /** Cutting loses nothing: the blocks glued with blank lines give back the text, no block contains a blank line, and
      the payloads are the blocks' data. */
  lemma {:induction false} BlocksPartition(text: string)
    ensures Blocks(text) != [] && Glue(Blocks(text)) == text
    ensures forall i, j :: 0 <= i < |Blocks(text)| && 0 <= j < |Blocks(text)[i]| ==> !IsBoundary(Blocks(text)[i], j)
    ensures Drain(text).rest == Blocks(text)[|Blocks(text)| - 1]
    ensures Drain(text).payloads == DataOfAll(Blocks(text)[..|Blocks(text)| - 1])
    decreases |text|
  {
    hide IfData, FirstBoundary, Drain;
    var b := FirstBoundary(text, 0);
    if b.Some? {
      var head, tail := text[..b.value], text[b.value + 2..];
      DrainStep(text);
      BlocksPartition(tail);
      var blocks := Blocks(tail);
      assert Blocks(text) == [head] + blocks;
      NoBoundaryInHead(text, b.value);
      assert text == head + "\n\n" + tail;
      assert ([head] + blocks)[1..] == blocks;
      assert ([head] + blocks)[..|blocks|] == [head] + blocks[..|blocks| - 1];
      assert ([head] + blocks[..|blocks| - 1])[1..] == blocks[..|blocks| - 1];
    } else {
      DrainEnd(text);
      assert Blocks(text)[..0] == [];
    }
  }

  lemma NoBoundaryInHead(text: string, b: nat)
    requires b + 2 <= |text| && forall j :: 0 <= j < b ==> !IsBoundary(text, j)
    ensures forall j :: 0 <= j < b ==> !IsBoundary(text[..b], j)
  {
    assert forall j :: 0 <= j < b ==> (IsBoundary(text[..b], j) ==> IsBoundary(text, j));
  }

  function DataOfAll(events: seq<string>): seq<string> {
    if events == [] then [] else IfData(events[0]) + DataOfAll(events[1..])
  }

  // ---------- independence of the cut ----------

  predicate EndsWithCR(s: string) {
    s != "" && s[|s| - 1] == '\r'
  }

  predicate StartsWithLF(s: string) {
    s != "" && s[0] == '\n'
  }

  /** Some cut between chunks falls inside a CRLF pair. */
  predicate CutsAPair(chunks: seq<string>) {
    chunks != [] &&
    var init, last := chunks[..|chunks| - 1], chunks[|chunks| - 1];
    CutsAPair(init) || (EndsWithCR(Concat(init)) && StartsWithLF(last))
  }

  lemma {:induction false} UnixLength(s: string)
    ensures |Unix(s)| <= |s|
    decreases |s|
  {
    if s != "" {
      if |s| >= 2 && s[0] == '\r' && s[1] == '\n' {
        UnixLength(s[2..]);
      } else {
        UnixLength(s[1..]);
      }
    }
  }

  lemma UnixPair(t: string)
    ensures Unix("\r\n" + t) == "\n" + Unix(t)
  {
    assert ("\r\n" + t)[2..] == t;
  }

  lemma UnixPlain(c: char, t: string)
    requires c != '\r' || !StartsWithLF(t)
    ensures Unix([c] + t) == [c] + Unix(t)
  {
    assert ([c] + t)[1..] == t;
  }

  /** Converting in two pieces agrees with converting at once unless the cut is inside a pair; then it leaves one
      character more. */
  predicate Splices(a: string, b: string) {
    if EndsWithCR(a) && StartsWithLF(b) then |Unix(a + b)| + 1 == |Unix(a)| + |Unix(b)|
    else Unix(a + b) == Unix(a) + Unix(b)
  }

  lemma SplicePair(t: string, b: string)
    requires Splices(t, b)
    ensures Splices("\r\n" + t, b)
  {
    hide Unix;
    UnixPair(t);
    UnixPair(t + b);
    assert ("\r\n" + t) + b == "\r\n" + (t + b);
    assert "\n" + (Unix(t) + Unix(b)) == ("\n" + Unix(t)) + Unix(b);
  }

  lemma SplicePlain(c: char, t: string, b: string)
    requires Splices(t, b)
    requires c == '\r' ==> !StartsWithLF(t) && !(t == "" && StartsWithLF(b))
    ensures Splices([c] + t, b)
  {
    hide Unix;
    UnixPlain(c, t);
    UnixPlain(c, t + b);
    assert ([c] + t) + b == [c] + (t + b);
    assert [c] + (Unix(t) + Unix(b)) == ([c] + Unix(t)) + Unix(b);
  }

  lemma {:induction false} UnixConcat(a: string, b: string)
    ensures Splices(a, b)
    decreases |a|
  {
    if a == "" {
      assert a + b == b;
      assert Unix("") + Unix(b) == Unix(b);
    } else {
      hide Splices;
      var c, t := a[0], a[1..];
      assert a == [c] + t;
      if c == '\r' && StartsWithLF(t) {
        UnixConcat(t[1..], b);
        SplicePair(t[1..], b);
        assert a == "\r\n" + t[1..];
      } else if t == "" && c == '\r' && StartsWithLF(b) {
        UnixEndsInPair(a, b);
      } else {
        UnixConcat(t, b);
        SplicePlain(c, t, b);
      }
    }
  }

  lemma UnixEndsInPair(a: string, b: string)
    requires a == "\r" && StartsWithLF(b)
    ensures Splices(a, b)
  {
    hide Unix;
    assert a + b == "\r\n" + b[1..];
    UnixPair(b[1..]);
    assert b == ['\n'] + b[1..];
    UnixPlain('\n', b[1..]);
    assert a == ['\r'] + "";
    UnixPlain('\r', "");
    UnixEmpty();
  }

  lemma UnixEmpty()
    ensures Unix("") == ""
  {}

  /** Converting chunk by chunk agrees with converting the whole exactly when no cut falls inside a pair. */
  lemma {:induction false} UnixByChunkCriterion(chunks: seq<string>)
    ensures |UnixByChunk(chunks)| >= |Unix(Concat(chunks))|
    ensures UnixByChunk(chunks) == Unix(Concat(chunks)) <==> !CutsAPair(chunks)
    ensures CutsAPair(chunks) ==> |UnixByChunk(chunks)| > |Unix(Concat(chunks))|
  {
    if chunks != [] {
      var init, last := chunks[..|chunks| - 1], chunks[|chunks| - 1];
      UnixByChunkCriterion(init);
      UnixConcat(Concat(init), last);
    }
  }

  /** The yielded payloads depend on the text only, not on how it was cut, as long as no cut falls inside a CRLF
      pair. */
  lemma CutIndependence(chunks: seq<string>, others: seq<string>, flush: string)
    requires Concat(chunks) == Concat(others) && !CutsAPair(chunks) && !CutsAPair(others)
    ensures Payloads(UnixByChunk(chunks), flush) == Payloads(UnixByChunk(others), flush)
  {
    UnixByChunkCriterion(chunks);
    UnixByChunkCriterion(others);
  }

  /** LF-only text has no pair to cut. */
  lemma {:induction false} LinefeedOnlyIsNeverCut(chunks: seq<string>)
    requires '\r' !in Concat(chunks)
    ensures !CutsAPair(chunks)
  {
    if chunks != [] {
      var init := chunks[..|chunks| - 1];
      LinefeedOnlyIsNeverCut(init);
      assert EndsWithCR(Concat(init)) ==> '\r' in Concat(init);
    }
  }

  lemma {:induction false} UnixIdentity(s: string)
    requires '\r' !in s
    ensures Unix(s) == s
  {
    if s != "" {
      UnixIdentity(s[1..]);
    }
  }

  lemma BoundaryIs(s: string, i: nat, b: nat)
    requires i <= b && IsBoundary(s, b) && forall j :: i <= j < b ==> !IsBoundary(s, j)
    ensures FirstBoundary(s, i) == Some(b)
  {}

  lemma NoBoundary(s: string)
    requires forall j :: 0 <= j < |s| ==> !IsBoundary(s, j)
    ensures FirstBoundary(s, 0) == None
  {}

  lemma {:induction false} OneLine(s: string)
    requires '\n' !in s
    ensures Lines(s) == [s]
  {
    if s != "" {
      OneLine(s[1..]);
      assert [s[0]] + s[1..] == s;
    }
  }

  /** A single line with a value has that value as its payload. */
  lemma OneLineData(c: char)
    requires c != '\n' && !IsJsSpace(c)
    ensures IfData("data:" + [c]) == [[c]]
  {
    var line := "data:" + [c];
    OneLine(line);
    assert line[5..] == [c];
    assert DataLines([line]) == [[c]];
  }

  /** A cut inside a pair can merge two events: the payloads x and y arrive as one. */
  lemma CutPairMergesEvents()
    ensures var whole, cut := ["data:x\r\n\r\ndata:y"], ["data:x\r\n\r", "\ndata:y"];
      Concat(whole) == Concat(cut) && |Payloads(UnixByChunk(whole), "")| == 2 && |Payloads(UnixByChunk(cut), "")| < 2
  {
    hide Unix, Payloads;
    OneChunk("data:x\r\n\r\ndata:y");
    TwoChunks("data:x\r\n\r", "\ndata:y");
    WholeText();
    CutText();
    assert "data:x\r\n\r" + "\ndata:y" == "data:x\r\n\r\ndata:y";
    assert "data:x\n\r" + "\ndata:y" == "data:x\n\r\ndata:y";
    TwoPayloads();
    OneText();
  }

  lemma OneChunk(x: string)
    ensures Concat([x]) == x && UnixByChunk([x]) == Unix(x)
  {
    hide Unix;
    assert [x][..0] == [];
  }

  lemma TwoChunks(x: string, y: string)
    ensures Concat([x, y]) == x + y && UnixByChunk([x, y]) == Unix(x) + Unix(y)
  {
    hide Unix;
    OneChunk(x);
    assert [x, y][..1] == [x];
  }

  lemma WholeText()
    ensures Unix("data:x\r\n\r\ndata:y") == "data:x\n\ndata:y"
  {
    hide Unix;
    UnixIdentity("data:y");
    UnixPair("data:y");
    UnixPair("\r\ndata:y");
    UnixIdentity("data:x");
    UnixConcat("data:x", "\r\n\r\ndata:y");
    assert "\r\n" + "data:y" == "\r\ndata:y" && "\r\n" + "\r\ndata:y" == "\r\n\r\ndata:y";
    assert "data:x" + "\r\n\r\ndata:y" == "data:x\r\n\r\ndata:y";
    assert "data:x" + ("\n" + ("\n" + "data:y")) == "data:x\n\ndata:y";
  }

  lemma CutText()
    ensures Unix("data:x\r\n\r") == "data:x\n\r" && Unix("\ndata:y") == "\ndata:y"
  {
    hide Unix;
    UnixIdentity("\ndata:y");
    UnixEmpty();
    UnixPlain('\r', "");
    UnixPair("\r");
    UnixIdentity("data:x");
    UnixConcat("data:x", "\r\n\r");
    assert "\r\n" + "\r" == "\r\n\r" && ['\r'] + "" == "\r";
    assert "data:x" + "\r\n\r" == "data:x\r\n\r";
    assert "data:x" + ("\n" + "\r") == "data:x\n\r";
  }

  lemma TwoPayloads()
    ensures |Payloads("data:x\n\ndata:y", "")| == 2
  {
    hide IfData, Drain, FirstBoundary, IsJsSpace;
    var text := "data:x\n\ndata:y";
    BoundaryIs(text, 0, 6);
    DrainStep(text);
    assert text[..6] == "data:" + ['x'] && text[8..] == "data:" + ['y'] && "data:y" + "" == "data:" + ['y'];
    NoBoundary("data:y");
    assert "data:y" == "data:" + ['y'];
    DrainEnd("data:y");
    PlainLetters();
    OneLineData('x');
    OneLineData('y');
  }

  lemma PlainLetters()
    ensures !IsJsSpace('x') && !IsJsSpace('y')
  {}

  lemma OneText()
    ensures |Payloads("data:x\n\r\ndata:y", "")| < 2
  {
    hide Drain, FirstBoundary, DataOf;
    NoBoundary("data:x\n\r\ndata:y");
    DrainEnd("data:x\n\r\ndata:y");
  }
}
