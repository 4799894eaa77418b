/** Turning streamed deltas into content blocks and block events. */
module BlockStream {
  import opened DagTypes
  import opened EventStream

  /** One tool call delta; an absent string is empty. */
  datatype ToolDelta = ToolDelta(index: Option<int>, id: string, name: string, arguments: string)

  /** breaks: behind these tool calls comes something that cannot be read as one, which throws. */
  datatype Delta = Delta(reasoningContent: string, reasoning: string, reasoningText: string, content: string,
                         toolCalls: seq<ToolDelta>, breaks: bool)

  /** A parsed chunk; one without a choice carries nothing to stream. */
  datatype Chunk = NoChoice | Choice(delta: Delta)

  predicate Breaks(c: Chunk) {
    c.Choice? && c.delta.breaks
  }

  /** The open tool call remembers the stream index it was opened with. */
  datatype Block =
    | TextBlock(text: string)
    | ThinkingBlock(thinking: string)
    | ToolBlock(id: string, name: string, partialArgs: string, streamIndex: Option<int>)

  datatype Kind = TextKind | ThinkingKind | ToolKind

  datatype StreamEvent =
    | Start(kind: Kind, index: nat)
    | More(kind: Kind, index: nat, delta: string)
    | End(kind: Kind, index: nat, content: string)

  function KindOf(b: Block): Kind {
    match b
    case TextBlock(_) => TextKind
    case ThinkingBlock(_) => ThinkingKind
    case ToolBlock(_, _, _, _) => ToolKind
  }

  function BodyOf(b: Block): string {
    match b
    case TextBlock(text) => text
    case ThinkingBlock(thinking) => thinking
    case ToolBlock(_, _, partialArgs, _) => partialArgs
  }

  /** The content so far, whether its last block is still open, and the events pushed. */
  datatype Output = Output(content: seq<Block>, open: bool, events: seq<StreamEvent>)

  const BLANK: Output := Output([], false, [])

  ghost predicate Sane(o: Output) {
    o.open ==> o.content != []
  }

  function Last(o: Output): Block
    requires o.content != []
  {
    o.content[|o.content| - 1]
  }

  function Finished(o: Output): Output
    requires Sane(o)
  {
    if !o.open then o
    else o.(open := false, events := o.events + [End(KindOf(Last(o)), |o.content| - 1, BodyOf(Last(o)))])
  }

  /** Closes the open block and opens the given empty one. */
  function Opened(o: Output, b: Block): Output
    requires Sane(o)
  {
    Output(o.content + [b], true, Finished(o).events + [Start(KindOf(b), |o.content|)])
  }

  /** Replaces the open block and reports the piece that was added. */
  function Grown(o: Output, b: Block, piece: string): Output
    requires o.open && Sane(o)
  {
    o.(content := o.content[|o.content| - 1 := b], events := o.events + [More(KindOf(b), |o.content| - 1, piece)])
  }

  function AddReasoning(o: Output, piece: string): Output
    requires Sane(o)
  {
    if piece == "" then o
    else
      var p := if o.open && Last(o).ThinkingBlock? then o else Opened(o, ThinkingBlock(""));
      Grown(p, ThinkingBlock(Last(p).thinking + piece), piece)
  }

  function AddContent(o: Output, piece: string): Output
    requires Sane(o)
  {
    if piece == "" then o
    else
      var p := if o.open && Last(o).TextBlock? then o else Opened(o, TextBlock(""));
      Grown(p, TextBlock(Last(p).text + piece), piece)
  }

  /** A delta continues the open tool call unless it names another stream index. */
  predicate Continues(o: Output, t: ToolDelta)
    requires Sane(o)
  {
    o.open && Last(o).ToolBlock? && (t.index.Some? ==> Last(o).streamIndex == t.index)
  }

  function AddToolCall(o: Output, t: ToolDelta): Output
    requires Sane(o)
  {
    var p := if Continues(o, t) then o else Opened(o, ToolBlock(t.id, t.name, "", t.index));
    var b := Last(p);
    Grown(p, ToolBlock(if b.id == "" then t.id else b.id, if b.name == "" then t.name else b.name,
                       b.partialArgs + t.arguments, b.streamIndex), t.arguments)
  }

  function AddToolCalls(o: Output, ts: seq<ToolDelta>): (r: Output)
    requires Sane(o)
    ensures Sane(r)
  {
    if ts == [] then o else AddToolCall(AddToolCalls(o, ts[..|ts| - 1]), ts[|ts| - 1])
  }

  /** The first reasoning field that is not empty. */
  function Reasoning(d: Delta): string {
    if d.reasoningContent != "" then d.reasoningContent
    else if d.reasoning != "" then d.reasoning
    else d.reasoningText
  }

  function AddChunk(o: Output, c: Chunk): (r: Output)
    requires Sane(o)
    ensures Sane(r)
  {
    match c
    case NoChoice => o
    case Choice(d) => AddToolCalls(AddContent(AddReasoning(o, Reasoning(d)), d.content), d.toolCalls)
  }

  function AddChunks(o: Output, cs: seq<Chunk>): (r: Output)
    requires Sane(o)
    ensures Sane(r)
  {
    if cs == [] then o else AddChunk(AddChunks(o, cs[..|cs| - 1]), cs[|cs| - 1])
  }

  // ---------- an independent reading of the events ----------

  /** What an observer of the events knows: each block's kind and body, and whether the last one is open. */
  datatype Book = Book(blocks: seq<(Kind, string)>, open: bool)

  /** The observer's next state, or None if the event is out of place. */
  function Observe(book: Book, e: StreamEvent): Option<Book> {
    var n := |book.blocks|;
    match e
    case Start(kind, index) =>
      if book.open || index != n then None else Some(Book(book.blocks + [(kind, "")], true))
    case More(kind, index, delta) =>
      if !book.open || n == 0 || index != n - 1 || book.blocks[n - 1].0 != kind then None
      else Some(Book(book.blocks[n - 1 := (kind, book.blocks[n - 1].1 + delta)], true))
    case End(kind, index, content) =>
      if !book.open || n == 0 || index != n - 1 || book.blocks[n - 1] != (kind, content) then None
      else Some(Book(book.blocks, false))
  }

  /** Reads a whole event sequence; None if it is not well bracketed. */
  function ObserveAll(events: seq<StreamEvent>): Option<Book> {
    if events == [] then Some(Book([], false))
    else
      var before := ObserveAll(events[..|events| - 1]);
      if before.None? then None else Observe(before.value, events[|events| - 1])
  }

  function Shape(content: seq<Block>): (r: seq<(Kind, string)>)
    ensures |r| == |content| && forall i :: 0 <= i < |r| ==> r[i] == (KindOf(content[i]), BodyOf(content[i]))
  {
    seq(|content|, i requires 0 <= i < |content| => (KindOf(content[i]), BodyOf(content[i])))
  }

  /** The events are well bracketed and tell exactly the content. */
  ghost predicate Faithful(o: Output) {
    Sane(o) && ObserveAll(o.events) == Some(Book(Shape(o.content), o.open))
  }

  lemma ObserveSnoc(events: seq<StreamEvent>, e: StreamEvent)
    requires ObserveAll(events).Some?
    ensures ObserveAll(events + [e]) == Observe(ObserveAll(events).value, e)
  {
    hide Observe;
    assert (events + [e])[..|events|] == events;
  }

  lemma FinishedIsFaithful(o: Output)
    requires Faithful(o)
    ensures Faithful(Finished(o)) && Finished(o).content == o.content && !Finished(o).open
  {
    if o.open {
      ObserveSnoc(o.events, End(KindOf(Last(o)), |o.content| - 1, BodyOf(Last(o))));
    }
  }

  lemma StartObserved(blocks: seq<(Kind, string)>, kind: Kind)
    ensures Observe(Book(blocks, false), Start(kind, |blocks|)) == Some(Book(blocks + [(kind, "")], true))
  {}

  lemma ShapeOpened(content: seq<Block>, b: Block)
    requires BodyOf(b) == ""
    ensures Shape(content + [b]) == Shape(content) + [(KindOf(b), "")]
  {}

  lemma OpenedIsFaithful(o: Output, b: Block)
    requires Faithful(o) && BodyOf(b) == ""
    ensures Faithful(Opened(o, b))
  {
    hide Finished, ObserveAll, Observe, Shape, BodyOf, KindOf;
    FinishedIsFaithful(o);
    ObserveSnoc(Finished(o).events, Start(KindOf(b), |o.content|));
    StartObserved(Shape(o.content), KindOf(b));
    ShapeOpened(o.content, b);
  }

  lemma GrownIsFaithful(o: Output, b: Block, piece: string)
    requires Faithful(o) && o.open && KindOf(b) == KindOf(Last(o)) && BodyOf(b) == BodyOf(Last(o)) + piece
    ensures Faithful(Grown(o, b, piece))
  {
    ObserveSnoc(o.events, More(KindOf(b), |o.content| - 1, piece));
    assert Shape(Grown(o, b, piece).content) == Shape(o.content)[|o.content| - 1 := (KindOf(b), BodyOf(b))];
  }

  /** All bodies of one kind, in order. */
  function AllOf(kind: Kind, content: seq<Block>): string {
    if content == [] then ""
    else
      var b := content[|content| - 1];
      AllOf(kind, content[..|content| - 1]) + if KindOf(b) == kind then BodyOf(b) else ""
  }

  lemma AllOfOpened(kind: Kind, o: Output, b: Block)
    requires Sane(o) && BodyOf(b) == ""
    ensures AllOf(kind, Opened(o, b).content) == AllOf(kind, o.content)
  {
    assert (o.content + [b])[..|o.content|] == o.content;
  }

  lemma AllOfGrown(kind: Kind, o: Output, b: Block, piece: string)
    requires Sane(o) && o.open && KindOf(b) == KindOf(Last(o)) && BodyOf(b) == BodyOf(Last(o)) + piece
    ensures AllOf(kind, Grown(o, b, piece).content) == AllOf(kind, o.content) + if KindOf(b) == kind then piece else ""
  {
    var n := |o.content| - 1;
    assert o.content[n := b][..n] == o.content[..n];
  }

  /** Two neighbouring blocks are never both text or both thinking. */
  ghost predicate Alternating(content: seq<Block>) {
    forall i, j :: 0 <= i < j < |content| && j == i + 1 && KindOf(content[i]) == KindOf(content[j]) ==>
        content[i].ToolBlock?
  }

  /** The open block is the only one that may grow; a closed last block is never followed by its own kind unless it is
      a tool call. */
  ghost predicate Good(o: Output) {
    Faithful(o) && Alternating(o.content) && (o.content != [] ==> o.open)
  }

  /** What one piece of the given kind does: everything stays good, and the piece lands behind all others of its
      kind. */
  ghost predicate Adds(before: Output, after: Output, kind: Kind, piece: string) {
    Good(after) && forall k :: AllOf(k, after.content) == AllOf(k, before.content) + if k == kind then piece else ""
  }

  lemma OpenedStaysGood(o: Output, b: Block)
    requires Good(o) && BodyOf(b) == ""
    requires o.open && KindOf(Last(o)) == KindOf(b) ==> b.ToolBlock?
    ensures Good(Opened(o, b)) && forall k :: AllOf(k, Opened(o, b).content) == AllOf(k, o.content)
  {
    hide Faithful;
    assert Sane(o) by {
      FaithfulIsSane(o);
    }
    OpenedIsFaithful(o, b);
    forall k ensures AllOf(k, Opened(o, b).content) == AllOf(k, o.content) {
      AllOfOpened(k, o, b);
    }
  }

  lemma FaithfulIsSane(o: Output)
    requires Faithful(o)
    ensures Sane(o)
  {}

  lemma GrownStaysGood(o: Output, b: Block, piece: string)
    requires Good(o) && o.open && KindOf(b) == KindOf(Last(o)) && BodyOf(b) == BodyOf(Last(o)) + piece
    ensures Adds(o, Grown(o, b, piece), KindOf(b), piece)
  {
    GrownIsFaithful(o, b, piece);
    forall k
        ensures AllOf(k, Grown(o, b, piece).content) == AllOf(k, o.content) + if k == KindOf(b) then piece else "" {
      AllOfGrown(k, o, b, piece);
    }
  }

  lemma ReasoningAdds(o: Output, piece: string)
    requires Good(o)
    ensures Adds(o, AddReasoning(o, piece), ThinkingKind, piece)
  {
    hide Faithful, Alternating, AllOf;
    FaithfulIsSane(o);
    if piece != "" {
      if !(o.open && Last(o).ThinkingBlock?) {
        OpenedStaysGood(o, ThinkingBlock(""));
      }
      var p := if o.open && Last(o).ThinkingBlock? then o else Opened(o, ThinkingBlock(""));
      GrownStaysGood(p, ThinkingBlock(Last(p).thinking + piece), piece);
    }
  }

  lemma ContentAdds(o: Output, piece: string)
    requires Good(o)
    ensures Adds(o, AddContent(o, piece), TextKind, piece)
  {
    hide Faithful, Alternating, AllOf;
    FaithfulIsSane(o);
    if piece != "" {
      if !(o.open && Last(o).TextBlock?) {
        OpenedStaysGood(o, TextBlock(""));
      }
      var p := if o.open && Last(o).TextBlock? then o else Opened(o, TextBlock(""));
      GrownStaysGood(p, TextBlock(Last(p).text + piece), piece);
    }
  }

  lemma ToolCallAdds(o: Output, t: ToolDelta)
    requires Good(o)
    ensures Adds(o, AddToolCall(o, t), ToolKind, t.arguments)
  {
    hide Faithful, Alternating, AllOf;
    FaithfulIsSane(o);
    if !Continues(o, t) {
      OpenedStaysGood(o, ToolBlock(t.id, t.name, "", t.index));
    }
    var p := if Continues(o, t) then o else Opened(o, ToolBlock(t.id, t.name, "", t.index));
    var b := Last(p);
    GrownStaysGood(p, ToolBlock(if b.id == "" then t.id else b.id, if b.name == "" then t.name else b.name,
                                b.partialArgs + t.arguments, b.streamIndex), t.arguments);
  }

  function ArgumentsOf(ts: seq<ToolDelta>): string {
    if ts == [] then "" else ArgumentsOf(ts[..|ts| - 1]) + ts[|ts| - 1].arguments
  }

  lemma {:induction false} ToolCallsAdd(o: Output, ts: seq<ToolDelta>)
    requires Good(o)
    ensures Adds(o, AddToolCalls(o, ts), ToolKind, ArgumentsOf(ts))
  {
    hide Faithful, Alternating, AllOf, AddToolCall;
    FaithfulIsSane(o);
    if ts != [] {
      ToolCallsAdd(o, ts[..|ts| - 1]);
      ToolCallAdds(AddToolCalls(o, ts[..|ts| - 1]), ts[|ts| - 1]);
      forall k
          ensures AllOf(k, AddToolCalls(o, ts).content) == AllOf(k, o.content) + if k == ToolKind
              then ArgumentsOf(ts) else "" {
      }
    }
  }

  /** What one chunk sends of one kind. */
  function Sent(kind: Kind, c: Chunk): string {
    match c
    case NoChoice => ""
    case Choice(d) =>
      match kind
      case TextKind => d.content
      case ThinkingKind => Reasoning(d)
      case ToolKind => ArgumentsOf(d.toolCalls)
  }

  function AllSent(kind: Kind, cs: seq<Chunk>): string {
    if cs == [] then "" else AllSent(kind, cs[..|cs| - 1]) + Sent(kind, cs[|cs| - 1])
  }

  lemma ChunkAdds(o: Output, c: Chunk)
    requires Good(o)
    ensures Good(AddChunk(o, c))
    ensures forall k :: AllOf(k, AddChunk(o, c).content) == AllOf(k, o.content) + Sent(k, c)
  {
    hide Faithful, Alternating, AllOf, AddToolCalls, AddContent, AddReasoning, Reasoning;
    FaithfulIsSane(o);
    if c.Choice? {
      var o1 := AddReasoning(o, Reasoning(c.delta));
      ReasoningAdds(o, Reasoning(c.delta));
      FaithfulIsSane(o1);
      var o2 := AddContent(o1, c.delta.content);
      ContentAdds(o1, c.delta.content);
      FaithfulIsSane(o2);
      ToolCallsAdd(o2, c.delta.toolCalls);
    }
  }

  lemma {:induction false} ChunksAdd(cs: seq<Chunk>)
    ensures Good(AddChunks(BLANK, cs))
    ensures forall k :: AllOf(k, AddChunks(BLANK, cs).content) == AllSent(k, cs)
  {
    if cs == [] {
      assert Shape([]) == [];
    } else {
      hide Good, AllOf, Sent, AddChunk;
      ChunksAdd(cs[..|cs| - 1]);
      ChunkAdds(AddChunks(BLANK, cs[..|cs| - 1]), cs[|cs| - 1]);
    }
  }

  /** The whole stream: well bracketed to the end, told exactly, complete per kind, and never split without need. */
  lemma StreamIsFaithful(cs: seq<Chunk>)
    ensures var o := Finished(AddChunks(BLANK, cs));
      && ObserveAll(o.events) == Some(Book(Shape(o.content), false))
      && (forall k :: AllOf(k, o.content) == AllSent(k, cs))
      && Alternating(o.content)
  {
    ChunksAdd(cs);
    FinishedIsFaithful(AddChunks(BLANK, cs));
  }

  /** A stream that breaks off leaves a well bracketed beginning with at most one block open. */
  lemma BrokenStreamIsFaithful(cs: seq<Chunk>)
    ensures var o := AddChunks(BLANK, cs); ObserveAll(o.events) == Some(Book(Shape(o.content), o.open))
  {
    ChunksAdd(cs);
  }

  // ---------- the consumer ----------

  /** The chunks that the payloads carry, up to the first that does not parse or breaks off. */
  datatype Parsed = Parsed(chunks: seq<Chunk>, complete: bool)

  function ParseAll(payloads: seq<string>, parse: string -> Option<Chunk>): Parsed {
    if payloads == [] then Parsed([], true)
    else
      var before, data := ParseAll(payloads[..|payloads| - 1], parse), payloads[|payloads| - 1];
      if !before.complete || data == "" || data == "[DONE]" then before
      else match parse(data)
           case None => Parsed(before.chunks, false)
           case Some(c) => Parsed(before.chunks + [c], !Breaks(c))
  }

  lemma {:induction false} ParseStops(payloads: seq<string>, n: nat, parse: string -> Option<Chunk>)
    requires n <= |payloads| && !ParseAll(payloads[..n], parse).complete
    ensures ParseAll(payloads, parse) == ParseAll(payloads[..n], parse)
    decreases |payloads|
  {
    if n == |payloads| {
      assert payloads[..n] == payloads;
    } else {
      assert payloads[..|payloads| - 1][..n] == payloads[..n];
      ParseStops(payloads[..|payloads| - 1], n, parse);
    }
  }

  class StreamConsumer {
    var content: seq<Block>
    var open: bool
    var events: seq<StreamEvent>

    ghost function View(): Output
      reads this
    {
      Output(content, open, events)
    }

    constructor ()
      ensures View() == BLANK
    {
      content, open, events := [], false, [];
    }

    method FinishCurrentBlock()
      requires Sane(View())
      modifies this
      ensures View() == Finished(old(View())) && Sane(View())
    {
      if !open {
        return;
      }
      var current := content[|content| - 1];
      match current {
        case TextBlock(text) => events := events + [End(TextKind, |content| - 1, text)];
        case ThinkingBlock(thinking) => events := events + [End(ThinkingKind, |content| - 1, thinking)];
        case ToolBlock(_, _, partialArgs, _) => events := events + [End(ToolKind, |content| - 1, partialArgs)];
      }
      open := false;
    }

    method OpenBlock(b: Block)
      requires Sane(View())
      modifies this
      ensures View() == Opened(old(View()), b) && Sane(View())
    {
      FinishCurrentBlock();
      content := content + [b];
      open := true;
      events := events + [Start(KindOf(b), |content| - 1)];
    }

    method OnReasoning(piece: string)
      requires Sane(View())
      modifies this
      ensures View() == AddReasoning(old(View()), piece) && Sane(View())
    {
      if piece == "" {
        return;
      }
      if !open || !content[|content| - 1].ThinkingBlock? {
        OpenBlock(ThinkingBlock(""));
      }
      var n := |content| - 1;
      content := content[n := ThinkingBlock(content[n].thinking + piece)];
      events := events + [More(ThinkingKind, n, piece)];
    }

    method OnContent(piece: string)
      requires Sane(View())
      modifies this
      ensures View() == AddContent(old(View()), piece) && Sane(View())
    {
      if piece == "" {
        return;
      }
      if !open || !content[|content| - 1].TextBlock? {
        OpenBlock(TextBlock(""));
      }
      var n := |content| - 1;
      content := content[n := TextBlock(content[n].text + piece)];
      events := events + [More(TextKind, n, piece)];
    }

    method OnToolCall(t: ToolDelta)
      requires Sane(View())
      modifies this
      ensures View() == AddToolCall(old(View()), t) && Sane(View())
    {
      if !open || !content[|content| - 1].ToolBlock?
          || (t.index.Some? && content[|content| - 1].streamIndex != t.index) {
        OpenBlock(ToolBlock(t.id, t.name, "", t.index));
      }
      var n := |content| - 1;
      var b := content[n];
      if b.id == "" {
        b := b.(id := t.id);
      }
      if b.name == "" {
        b := b.(name := t.name);
      }
      b := b.(partialArgs := b.partialArgs + t.arguments);
      content := content[n := b];
      events := events + [More(ToolKind, n, t.arguments)];
    }

    method OnChunk(c: Chunk) returns (ok: bool)
      requires Sane(View())
      modifies this
      ensures ok == !Breaks(c)
      ensures View() == AddChunk(old(View()), c) && Sane(View())
    {
      if c.Choice? {
        OnReasoning(Reasoning(c.delta));
        OnContent(c.delta.content);
        ghost var o := View();
        var ts := c.delta.toolCalls;
        for i := 0 to |ts|
          invariant Sane(View()) && View() == AddToolCalls(o, ts[..i])
        {
          hide AddToolCall;
          assert ts[..i + 1][..i] == ts[..i];
          OnToolCall(ts[i]);
        }
        assert ts[..|ts|] == ts;
        return !c.delta.breaks;
      }
      return true;
    }

    /** Consumes the payloads; stops where one does not parse or breaks off, leaving the open block open. */
    method Consume(payloads: seq<string>, parse: string -> Option<Chunk>) returns (ok: bool)
      requires View() == BLANK
      modifies this
      ensures ok == ParseAll(payloads, parse).complete
      ensures var o := AddChunks(BLANK, ParseAll(payloads, parse).chunks); View() == if ok then Finished(o) else o
    {
      hide AddChunk;
      for i := 0 to |payloads|
        invariant Sane(View()) && ParseAll(payloads[..i], parse).complete
        invariant View() == AddChunks(BLANK, ParseAll(payloads[..i], parse).chunks)
      {
        var data := payloads[i];
        assert payloads[..i + 1][..i] == payloads[..i];
        if data == "" || data == "[DONE]" {
          continue;
        }
        var chunk := parse(data);
        if chunk.None? {
          ParseStops(payloads, i + 1, parse);
          return false;
        }
        ghost var cs := ParseAll(payloads[..i], parse).chunks;
        assert (cs + [chunk.value])[..|cs|] == cs;
        var whole := OnChunk(chunk.value);
        if !whole {
          ParseStops(payloads, i + 1, parse);
          return false;
        }
      }
      assert payloads[..|payloads|] == payloads;
      FinishCurrentBlock();
      return true;
    }
  }

  /** The whole response: bytes off the wire, cut anyhow, to blocks and events. */
  function Streamed(chunks: seq<string>, flush: string, parse: string -> Option<Chunk>): Output {
    var parsed := ParseAll(Payloads(UnixByChunk(chunks), flush), parse);
    var o := AddChunks(BLANK, parsed.chunks);
    if parsed.complete then Finished(o) else o
  }

  method ConsumeOpenAIStream(chunks: seq<string>, flush: string, parse: string -> Option<Chunk>)
    returns (output: Output)
    ensures output == Streamed(chunks, flush, parse)
  {
    var consumer := new StreamConsumer();
    var payloads := ReadSSE(chunks, flush);
    var ok := consumer.Consume(payloads, parse);
    output := Output(consumer.content, consumer.open, consumer.events);
  }

  /** The whole output is independent of how the stream was cut, as long as no cut falls inside a CRLF pair. */
  lemma OutputIndependentOfCuts(chunks: seq<string>, others: seq<string>, flush: string, parse: string -> Option<Chunk>)
    requires Concat(chunks) == Concat(others) && !CutsAPair(chunks) && !CutsAPair(others)
    ensures Streamed(chunks, flush, parse) == Streamed(others, flush, parse)
  {
    CutIndependence(chunks, others, flush);
  }

  /** For LF-only text that is every cut. */
  lemma LinefeedOnlyOutput(chunks: seq<string>, others: seq<string>, flush: string, parse: string -> Option<Chunk>)
    requires Concat(chunks) == Concat(others) && '\r' !in Concat(chunks)
    ensures Streamed(chunks, flush, parse) == Streamed(others, flush, parse)
  {
    LinefeedOnlyIsNeverCut(chunks);
    LinefeedOnlyIsNeverCut(others);
    OutputIndependentOfCuts(chunks, others, flush, parse);
  }

  /** Whatever arrives, the events pushed are well bracketed and tell the content; after a complete stream nothing is
      left open. */
  lemma StreamedIsFaithful(chunks: seq<string>, flush: string, parse: string -> Option<Chunk>)
    ensures var o := Streamed(chunks, flush, parse);
      && ObserveAll(o.events) == Some(Book(Shape(o.content), o.open))
      && (ParseAll(Payloads(UnixByChunk(chunks), flush), parse).complete ==> !o.open)
  {
    StreamIsFaithful(ParseAll(Payloads(UnixByChunk(chunks), flush), parse).chunks);
    BrokenStreamIsFaithful(ParseAll(Payloads(UnixByChunk(chunks), flush), parse).chunks);
  }
}
