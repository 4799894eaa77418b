/** Which piece of a stream ends up in which block, and what each block is made of. */
module BlockHomes {
  import opened DagTypes
  import opened BlockStream

  /** What a chunk brings, piece by piece. */
  datatype Piece = Thought(text: string) | Words(text: string) | Call(delta: ToolDelta)

  /** The first of the strings that is not empty. */
  function FirstFilled(ss: seq<string>): string {
    if ss == [] then "" else if ss[0] != "" then ss[0] else FirstFilled(ss[1..])
  }

  function Concatenated(ss: seq<string>): string {
    if ss == [] then "" else Concatenated(ss[..|ss| - 1]) + ss[|ss| - 1]
  }

  function Calls(ts: seq<ToolDelta>): (r: seq<Piece>)
    ensures |r| == |ts| && forall i :: 0 <= i < |r| ==> r[i] == Call(ts[i])
  {
    seq(|ts|, i requires 0 <= i < |ts| => Call(ts[i]))
  }

  function IfFilled(s: string, p: Piece): seq<Piece> {
    if s == "" then [] else [p]
  }

  /** A chunk brings one thought, from the first reasoning field that is filled, then words, then calls. */
  function PiecesOf(c: Chunk): seq<Piece> {
    match c
    case NoChoice => []
    case Choice(d) =>
      var thought := FirstFilled([d.reasoningContent, d.reasoning, d.reasoningText]);
      IfFilled(thought, Thought(thought)) + IfFilled(d.content, Words(d.content)) + Calls(d.toolCalls)
  }

  function AllPieces(cs: seq<Chunk>): seq<Piece> {
    if cs == [] then [] else AllPieces(cs[..|cs| - 1]) + PiecesOf(cs[|cs| - 1])
  }

  /** The piece belongs with the block: a thought in a thinking block, words in a text block, a call in a tool block
      that it names by its stream index or does not name at all. */
  predicate BelongsIn(b: Block, p: Piece) {
    match p
    case Thought(_) => b.ThinkingBlock?
    case Words(_) => b.TextBlock?
    case Call(d) => b.ToolBlock? && (d.index == None || d.index == b.streamIndex)
  }

  function TextsOf(ps: seq<Piece>): (r: seq<string>)
    ensures |r| == |ps|
    ensures forall i :: 0 <= i < |r| ==> r[i] == if ps[i].Call? then ps[i].delta.arguments else ps[i].text
  {
    seq(|ps|, i requires 0 <= i < |ps| => if ps[i].Call? then ps[i].delta.arguments else ps[i].text)
  }

  function IdsOf(ps: seq<Piece>): (r: seq<string>)
    ensures |r| == |ps| && forall i :: 0 <= i < |r| ==> r[i] == if ps[i].Call? then ps[i].delta.id else ""
  {
    seq(|ps|, i requires 0 <= i < |ps| => if ps[i].Call? then ps[i].delta.id else "")
  }

  function NamesOf(ps: seq<Piece>): (r: seq<string>)
    ensures |r| == |ps| && forall i :: 0 <= i < |r| ==> r[i] == if ps[i].Call? then ps[i].delta.name else ""
  {
    seq(|ps|, i requires 0 <= i < |ps| => if ps[i].Call? then ps[i].delta.name else "")
  }

  /** The block of these pieces: their texts in order; a tool block with the first id and name given and the stream
      index of its first piece. */
  function BlockOf(ps: seq<Piece>): Block
    requires ps != []
  {
    match ps[0]
    case Thought(_) => ThinkingBlock(Concatenated(TextsOf(ps)))
    case Words(_) => TextBlock(Concatenated(TextsOf(ps)))
    case Call(d) => ToolBlock(FirstFilled(IdsOf(ps)), FirstFilled(NamesOf(ps)), Concatenated(TextsOf(ps)), d.index)
  }

  /** The pieces whose home is block b. */
  function Own(pieces: seq<Piece>, home: seq<nat>, b: nat): seq<Piece>
    requires |home| == |pieces|
  {
    if pieces == [] then []
    else
      var last := |pieces| - 1;
      Own(pieces[..last], home[..last], b) + if home[last] == b then [pieces[last]] else []
  }

  /** Every piece has its home: the first opens block 0, each later one stays with the piece before it exactly when it
      belongs in that block and opens the next block otherwise. */
  ghost predicate AtHome(pieces: seq<Piece>, home: seq<nat>, content: seq<Block>) {
    && |home| == |pieces|
    && (pieces == [] <==> content == [])
    && (pieces != [] ==> home[0] == 0 && home[|home| - 1] == |content| - 1)
    && (forall k :: 0 <= k < |home| ==> home[k] < |content| && BelongsIn(content[home[k]], pieces[k]))
    && (forall k, l :: 0 <= k && l == k + 1 && l < |home| ==>
          home[l] == if BelongsIn(content[home[k]], pieces[l]) then home[k] else home[k] + 1)
  }

  /** Every piece has its home, and each block is made of its own pieces. */
  ghost predicate Housed(pieces: seq<Piece>, home: seq<nat>, content: seq<Block>) {
    && AtHome(pieces, home, content)
    && (forall b :: 0 <= b < |content| ==> Own(pieces, home, b) != [] && content[b] == BlockOf(Own(pieces, home, b)))
  }

  // ---------- one piece more ----------

  lemma OwnMore(pieces: seq<Piece>, home: seq<nat>, p: Piece, h: nat, b: nat)
    requires |home| == |pieces|
    ensures Own(pieces + [p], home + [h], b) == Own(pieces, home, b) + if h == b then [p] else []
  {
    assert (pieces + [p])[..|pieces|] == pieces && (home + [h])[..|home|] == home;
  }

  lemma {:induction false} NobodyThere(pieces: seq<Piece>, home: seq<nat>, b: nat)
    requires |home| == |pieces| && forall k :: 0 <= k < |home| ==> home[k] < b
    ensures Own(pieces, home, b) == []
  {
    if pieces != [] {
      NobodyThere(pieces[..|pieces| - 1], home[..|home| - 1], b);
    }
  }

  lemma {:induction false} FirstFilledMore(ss: seq<string>, s: string)
    ensures FirstFilled(ss + [s]) == if FirstFilled(ss) != "" then FirstFilled(ss) else s
  {
    if ss != [] {
      assert (ss + [s])[1..] == ss[1..] + [s];
      FirstFilledMore(ss[1..], s);
    } else {
      assert (ss + [s])[1..] == [];
    }
  }

  lemma ConcatenatedMore(ss: seq<string>, s: string)
    ensures Concatenated(ss + [s]) == Concatenated(ss) + s
  {
    assert (ss + [s])[..|ss|] == ss;
  }

  function TextOf(p: Piece): string {
    if p.Call? then p.delta.arguments else p.text
  }

  /** A block takes one piece more. */
  function Taking(b: Block, p: Piece): Block
    requires BelongsIn(b, p)
  {
    match b
    case ThinkingBlock(t) => ThinkingBlock(t + TextOf(p))
    case TextBlock(t) => TextBlock(t + TextOf(p))
    case ToolBlock(id, name, args, index) =>
      ToolBlock(if id == "" then p.delta.id else id, if name == "" then p.delta.name else name, args + TextOf(p), index)
  }

  lemma BlockTakes(ps: seq<Piece>, p: Piece)
    requires ps != [] && BelongsIn(BlockOf(ps), p)
    ensures BlockOf(ps + [p]) == Taking(BlockOf(ps), p)
  {
    hide FirstFilled, Concatenated;
    assert TextsOf(ps + [p]) == TextsOf(ps) + [TextOf(p)];
    ConcatenatedMore(TextsOf(ps), TextOf(p));
    if ps[0].Call? {
      assert IdsOf(ps + [p]) == IdsOf(ps) + [p.delta.id] && NamesOf(ps + [p]) == NamesOf(ps) + [p.delta.name];
      FirstFilledMore(IdsOf(ps), p.delta.id);
      FirstFilledMore(NamesOf(ps), p.delta.name);
    }
  }

  lemma BlockBegins(p: Piece)
    ensures BlockOf([p]) == match p
      case Thought(t) => ThinkingBlock(t)
      case Words(t) => TextBlock(t)
      case Call(d) => ToolBlock(d.id, d.name, d.arguments, d.index)
  {
    ConcatenatedMore([], TextOf(p));
    FirstFilledMore([], if p.Call? then p.delta.id else "");
    FirstFilledMore([], if p.Call? then p.delta.name else "");
    assert TextsOf([p]) == [] + [TextOf(p)];
    assert IdsOf([p]) == [] + [if p.Call? then p.delta.id else ""];
    assert NamesOf([p]) == [] + [if p.Call? then p.delta.name else ""];
  }

  /** The blocks after one piece more. */
  function Housing(content: seq<Block>, p: Piece): seq<Block> {
    var n := |content|;
    if n > 0 && BelongsIn(content[n - 1], p) then content[n - 1 := Taking(content[n - 1], p)]
    else content + [BlockOf([p])]
  }

  /** The two blocks welcome the same pieces. */
  predicate Alike(a: Block, b: Block) {
    match a
    case ThinkingBlock(_) => b.ThinkingBlock?
    case TextBlock(_) => b.TextBlock?
    case ToolBlock(_, _, _, index) => b.ToolBlock? && b.streamIndex == index
  }

  lemma AlikeWelcomes(a: Block, b: Block, p: Piece)
    requires Alike(a, b)
    ensures BelongsIn(a, p) <==> BelongsIn(b, p)
  {}

  lemma HousingKeepsBlocks(content: seq<Block>, p: Piece)
    ensures var after := Housing(content, p);
      && |content| <= |after| && |after| > 0
      && (forall b :: 0 <= b < |content| ==> Alike(after[b], content[b]))
      && BelongsIn(after[|after| - 1], p)
      && (if |content| > 0 && BelongsIn(content[|content| - 1], p)
          then |after| == |content| else |after| == |content| + 1)
  {
    BeginsAtHome(p);
  }

  lemma OwnersMore(pieces: seq<Piece>, home: seq<nat>, content: seq<Block>, p: Piece, h: nat)
    requires Housed(pieces, home, content) && h == |Housing(content, p)| - 1
    ensures var after, pieces', home' := Housing(content, p), pieces + [p], home + [h];
      forall b :: 0 <= b < |after| ==> Own(pieces', home', b) != [] && after[b] == BlockOf(Own(pieces', home', b))
  {
    var after := Housing(content, p);
    hide Own, BlockOf, Taking, BelongsIn;
    forall b | 0 <= b < |after|
      ensures Own(pieces + [p], home + [h], b) != [] && after[b] == BlockOf(Own(pieces + [p], home + [h], b))
    {
      OwnMore(pieces, home, p, h, b);
      if b == |content| {
        NobodyThere(pieces, home, b);
        assert [] + [p] == [p];
      } else if b == h {
        BlockTakes(Own(pieces, home, b), p);
      } else {
        assert Own(pieces, home, b) + [] == Own(pieces, home, b);
      }
    }
  }

  lemma HousedMore(pieces: seq<Piece>, home: seq<nat>, content: seq<Block>, p: Piece) returns (h: nat)
    requires Housed(pieces, home, content)
    ensures Housed(pieces + [p], home + [h], Housing(content, p))
  {
    HousingKeepsBlocks(content, p);
    hide Own, BlockOf, Taking, BelongsIn, Housing, Alike;
    h := |Housing(content, p)| - 1;
    OwnersMore(pieces, home, content, p, h);
    HomesMore(pieces, home, content, Housing(content, p), p, h);
  }

  lemma BeginsAtHome(p: Piece)
    ensures BelongsIn(BlockOf([p]), p)
  {
    BlockBegins(p);
  }

  /** The homes stay right when the last block takes the piece or the next one opens for it. */
  lemma HomesMore(pieces: seq<Piece>, home: seq<nat>, content: seq<Block>, after: seq<Block>, p: Piece, h: nat)
    requires AtHome(pieces, home, content)
    requires |content| <= |after| && h == |after| - 1
    requires forall b :: 0 <= b < |content| ==> Alike(after[b], content[b])
    requires BelongsIn(after[h], p)
    requires if |content| > 0 && BelongsIn(content[|content| - 1], p)
        then |after| == |content| else |after| == |content| + 1
    ensures AtHome(pieces + [p], home + [h], after)
  {
    hide BelongsIn, Alike;
    var home', pieces', n := home + [h], pieces + [p], |home|;
    forall k | 0 <= k <= n ensures home'[k] < |after| && BelongsIn(after[home'[k]], pieces'[k]) {
      if k < n {
        AlikeWelcomes(after[home[k]], content[home[k]], pieces[k]);
      }
    }
    forall k, l | 0 <= k && l == k + 1 && l <= n
      ensures home'[l] == if BelongsIn(after[home'[k]], pieces'[l]) then home'[k] else home'[k] + 1
    {
      AlikeWelcomes(after[home[k]], content[home[k]], pieces'[l]);
    }
  }

  // ---------- the whole stream ----------

  /** The blocks of a sequence of pieces. */
  function Blocks(content: seq<Block>, pieces: seq<Piece>): seq<Block> {
    if pieces == [] then content else Housing(Blocks(content, pieces[..|pieces| - 1]), pieces[|pieces| - 1])
  }

  lemma BlocksMore(content: seq<Block>, pieces: seq<Piece>, p: Piece)
    ensures Blocks(content, pieces + [p]) == Housing(Blocks(content, pieces), p)
  {
    hide Housing;
    assert (pieces + [p])[..|pieces|] == pieces;
  }

  lemma {:induction false} BlocksConcat(content: seq<Block>, a: seq<Piece>, b: seq<Piece>)
    ensures Blocks(content, a + b) == Blocks(Blocks(content, a), b)
  {
    if b == [] {
      assert a + b == a;
    } else {
      BlocksConcat(content, a, b[..|b| - 1]);
      assert (a + b)[..|a + b| - 1] == a + b[..|b| - 1];
      hide Housing;
    }
  }

  /** While a stream runs, its last block stays open. */
  ghost predicate Running(o: Output) {
    Sane(o) && (o.content != [] ==> o.open)
  }

  lemma CallIsHoused(o: Output, t: ToolDelta)
    requires Running(o)
    ensures Running(AddToolCall(o, t)) && AddToolCall(o, t).content == Housing(o.content, Call(t))
  {
    BlockBegins(Call(t));
  }

  lemma ThoughtIsHoused(o: Output, s: string)
    requires Running(o)
    ensures Running(AddReasoning(o, s)) && AddReasoning(o, s).content == Blocks(o.content, IfFilled(s, Thought(s)))
  {
    BlockBegins(Thought(s));
    assert [Thought(s)][..0] == [];
  }

  lemma WordsAreHoused(o: Output, s: string)
    requires Running(o)
    ensures Running(AddContent(o, s)) && AddContent(o, s).content == Blocks(o.content, IfFilled(s, Words(s)))
  {
    BlockBegins(Words(s));
    assert [Words(s)][..0] == [];
  }

  lemma CallsSnoc(ts: seq<ToolDelta>, t: ToolDelta)
    ensures Calls([]) == [] && Calls(ts + [t]) == Calls(ts) + [Call(t)]
  {}

  lemma NoBlocksMore(content: seq<Block>)
    ensures Blocks(content, []) == content
  {}

  lemma {:induction false} CallsAreHoused(o: Output, ts: seq<ToolDelta>)
    requires Running(o)
    ensures Running(AddToolCalls(o, ts)) && AddToolCalls(o, ts).content == Blocks(o.content, Calls(ts))
  {
    hide AddToolCall, Housing, Blocks, Calls;
    if ts == [] {
      NoBlocksMore(o.content);
      CallsSnoc([], ToolDelta(None, "", "", ""));
    } else {
      var init, t := ts[..|ts| - 1], ts[|ts| - 1];
      assert ts == init + [t];
      CallsAreHoused(o, init);
      hide Running;
      CallIsHoused(AddToolCalls(o, init), t);
      CallsSnoc(init, t);
      BlocksMore(o.content, Calls(init), Call(t));
    }
  }

  lemma FilledBefore(s: string, ss: seq<string>)
    ensures FirstFilled([s] + ss) == if s != "" then s else FirstFilled(ss)
  {
    assert ([s] + ss)[1..] == ss;
  }

  lemma ThoughtOf(d: Delta)
    ensures Reasoning(d) == FirstFilled([d.reasoningContent, d.reasoning, d.reasoningText])
  {
    FilledBefore(d.reasoningText, []);
    FilledBefore(d.reasoning, [d.reasoningText]);
    FilledBefore(d.reasoningContent, [d.reasoning, d.reasoningText]);
    assert FirstFilled([]) == "";
    hide FirstFilled;
    assert [d.reasoningText] + [] == [d.reasoningText];
    assert [d.reasoning] + [d.reasoningText] == [d.reasoning, d.reasoningText];
    assert [d.reasoningContent] + [d.reasoning, d.reasoningText] == [d.reasoningContent, d.reasoning, d.reasoningText];
  }

  lemma ChunkIsHoused(o: Output, c: Chunk)
    requires Running(o)
    ensures Running(AddChunk(o, c)) && AddChunk(o, c).content == Blocks(o.content, PiecesOf(c))
  {
    match c
    case NoChoice =>
    case Choice(d) =>
      hide AddReasoning, AddContent, AddToolCalls, Reasoning, Blocks, IfFilled;
      ThoughtOf(d);
      var thought, words := IfFilled(Reasoning(d), Thought(Reasoning(d))), IfFilled(d.content, Words(d.content));
      ThoughtIsHoused(o, Reasoning(d));
      WordsAreHoused(AddReasoning(o, Reasoning(d)), d.content);
      CallsAreHoused(AddContent(AddReasoning(o, Reasoning(d)), d.content), d.toolCalls);
      BlocksConcat(o.content, thought, words);
      BlocksConcat(o.content, thought + words, Calls(d.toolCalls));
  }

  lemma {:induction false} ChunksAreHoused(cs: seq<Chunk>)
    ensures Running(AddChunks(BLANK, cs)) && AddChunks(BLANK, cs).content == Blocks([], AllPieces(cs))
  {
    if cs != [] {
      hide AddChunk, PiecesOf;
      ChunksAreHoused(cs[..|cs| - 1]);
      ChunkIsHoused(AddChunks(BLANK, cs[..|cs| - 1]), cs[|cs| - 1]);
      BlocksConcat([], AllPieces(cs[..|cs| - 1]), PiecesOf(cs[|cs| - 1]));
    }
  }

  lemma {:induction false} PiecesAreHoused(pieces: seq<Piece>) returns (home: seq<nat>)
    ensures Housed(pieces, home, Blocks([], pieces))
  {
    if pieces == [] {
      home := [];
    } else {
      hide Housed, Housing;
      var last := |pieces| - 1;
      var before := PiecesAreHoused(pieces[..last]);
      var h := HousedMore(pieces[..last], before, Blocks([], pieces[..last]), pieces[last]);
      assert pieces == pieces[..last] + [pieces[last]];
      home := before + [h];
    }
  }

  /** Of every stream: each piece sent has its home among the blocks, and each block is made of its own pieces. */
  lemma StreamIsHoused(cs: seq<Chunk>) returns (home: seq<nat>)
    ensures Housed(AllPieces(cs), home, AddChunks(BLANK, cs).content)
    ensures Finished(AddChunks(BLANK, cs)).content == AddChunks(BLANK, cs).content
  {
    hide Housed, AddChunks, AllPieces;
    ChunksAreHoused(cs);
    home := PiecesAreHoused(AllPieces(cs));
  }

  /** A delta that names a stream index is in a tool block with that index. */
  lemma NamedCallIsHome(pieces: seq<Piece>, home: seq<nat>, content: seq<Block>, k: nat)
    requires Housed(pieces, home, content) && k < |pieces| && pieces[k].Call? && pieces[k].delta.index.Some?
    ensures home[k] < |content| && content[home[k]].ToolBlock? && content[home[k]].streamIndex == pieces[k].delta.index
  {}

  /** Two pieces share a block exactly when every piece up to the later one belongs in the block of the earlier. */
  lemma {:induction false} SharedBlock(pieces: seq<Piece>, home: seq<nat>, content: seq<Block>, j: nat, k: nat)
    requires Housed(pieces, home, content) && j <= k < |pieces|
    ensures home[j] <= home[k] < |content|
    ensures home[j] == home[k] <==> forall m :: j < m <= k ==> BelongsIn(content[home[j]], pieces[m])
    decreases k
  {
    hide Own, BlockOf, BelongsIn;
    if j < k {
      SharedBlock(pieces, home, content, j, k - 1);
    }
  }

  predicate CallFor(p: Piece, i: int) {
    p.Call? && (p.delta.index == Some(i) || p.delta.index == None)
  }

  /** Two deltas for one stream index share a block exactly when nothing but calls for it, or for no index, came
      between. */
  lemma SameCallSameBlock(pieces: seq<Piece>, home: seq<nat>, content: seq<Block>, j: nat, k: nat, i: int)
    requires Housed(pieces, home, content) && j < k < |pieces|
    requires pieces[j].Call? && pieces[j].delta.index == Some(i) && pieces[k].Call? && pieces[k].delta.index == Some(i)
    ensures home[j] == home[k] <==> forall m :: j < m < k ==> CallFor(pieces[m], i)
  {
    hide Own, BlockOf;
    NamedCallIsHome(pieces, home, content, j);
    SharedBlock(pieces, home, content, j, k);
    hide Housed;
    forall m | j < m <= k ensures BelongsIn(content[home[j]], pieces[m]) <==> CallFor(pieces[m], i) {
    }
    hide BelongsIn, CallFor;
    assert CallFor(pieces[k], i) by {
      CallForItself(pieces[k], i);
    }
  }

  lemma CallForItself(p: Piece, i: int)
    requires p.Call? && p.delta.index == Some(i)
    ensures CallFor(p, i)
  {}

  /** Parallel calls stay apart: a delta for another index opens a block of its own. */
  lemma ParallelCallsApart(pieces: seq<Piece>, home: seq<nat>, content: seq<Block>, j: nat, k: nat)
    requires Housed(pieces, home, content) && j < k < |pieces|
    requires pieces[j].Call? && pieces[j].delta.index.Some? && pieces[k].Call? && pieces[k].delta.index.Some?
    requires pieces[j].delta.index != pieces[k].delta.index
    ensures home[j] < home[k]
  {
    SharedBlock(pieces, home, content, j, k);
    NamedCallIsHome(pieces, home, content, j);
    NamedCallIsHome(pieces, home, content, k);
    hide Own, BlockOf;
  }

  // ---------- which payloads count ----------

  /** The payloads that are read: not empty, and not the closing mark. */
  function Read(payloads: seq<string>): seq<string> {
    if payloads == [] then []
    else
      var p := payloads[|payloads| - 1];
      Read(payloads[..|payloads| - 1]) + if p == "" || p == "[DONE]" then [] else [p]
  }

  /** All payloads that are read parse to these chunks, none of which breaks off: then the stream is these chunks. */
  lemma {:induction false} WholeStreamParses(payloads: seq<string>, parse: string -> Option<Chunk>, cs: seq<Chunk>)
    requires |cs| == |Read(payloads)|
    requires forall i :: 0 <= i < |cs| ==> parse(Read(payloads)[i]) == Some(cs[i]) && !Breaks(cs[i])
    ensures ParseAll(payloads, parse) == Parsed(cs, true)
  {
    if payloads != [] {
      var init, p := payloads[..|payloads| - 1], payloads[|payloads| - 1];
      if p == "" || p == "[DONE]" {
        assert Read(payloads) == Read(init);
        WholeStreamParses(init, parse, cs);
      } else {
        assert cs == cs[..|cs| - 1] + [cs[|cs| - 1]];
        assert Read(payloads)[..|cs| - 1] == Read(init);
        assert forall i :: 0 <= i < |cs| - 1 ==> Read(payloads)[i] == Read(init)[i];
        WholeStreamParses(init, parse, cs[..|cs| - 1]);
        hide Breaks;
      }
    }
  }

  /** A payload that is read and does not parse, or parses to a chunk that breaks off, ends the stream there. */
  lemma BrokenPayloadEnds(before: seq<string>, p: string, after: seq<string>, parse: string -> Option<Chunk>)
    requires p != "" && p != "[DONE]" && ParseAll(before, parse).complete
    requires parse(p) == None || Breaks(parse(p).value)
    ensures !ParseAll(before + [p] + after, parse).complete
    ensures ParseAll(before + [p] + after, parse).chunks
         == ParseAll(before, parse).chunks + (if parse(p).Some? then [parse(p).value] else [])
  {
    var all := before + [p] + after;
    assert all[..|before| + 1] == before + [p] && (before + [p])[..|before|] == before;
    assert ParseAll(before, parse).chunks + [] == ParseAll(before, parse).chunks;
    hide Breaks;
    ParseStops(all, |before| + 1, parse);
  }
}
