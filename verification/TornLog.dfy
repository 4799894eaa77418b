/** A process that dies while it appends to the log: what the next opening finds. */
module TornLog {
  import opened DagTypes
  import opened Mutations
  import opened Crc32
  import opened WalFormat
  import opened Recovery

  /** The first k bytes of the log with one entry more. */
  function CutAppend(codec: Codec, log: seq<WalEntry>, e: WalEntry, k: nat): seq<byte>
    requires k <= |EncodeLog(codec, log + [e])|
  {
    EncodeLog(codec, log + [e])[..k]
  }

  lemma AppendGrowsFile(codec: Codec, log: seq<WalEntry>, e: WalEntry)
    ensures EncodeLog(codec, log + [e]) == EncodeLog(codec, log) + FrameOf(codec.marshal(e))
  {
    assert (log + [e])[..|log|] == log;
  }

  lemma FrameEndStep(codec: Codec, es: seq<WalEntry>, n: nat)
    requires n < |es|
    ensures FrameEnd(codec, es, n) <= FrameEnd(codec, es, n + 1)
  {
    hide EncodeLog, FrameOf;
    EncodeStep(codec, es, n);
  }

  lemma {:induction false} FrameEndsAscend(codec: Codec, es: seq<WalEntry>, m: nat, n: nat)
    requires m <= n <= |es|
    ensures FrameEnd(codec, es, m) <= FrameEnd(codec, es, n)
    decreases n
  {
    hide FrameEnd;
    if m < n {
      FrameEndsAscend(codec, es, m, n - 1);
      FrameEndStep(codec, es, n - 1);
    }
  }

  /** A cut behind the whole log leaves the log, or the log with the new entry; in between it is an error. */
  lemma CutAppendReads(codec: Codec, log: seq<WalEntry>, e: WalEntry, k: nat)
    requires AllEncodable(codec, log) && Encodable(codec, e)
    requires |EncodeLog(codec, log)| <= k <= |EncodeLog(codec, log + [e])|
    ensures var r := Decode(codec, CutAppend(codec, log, e, k), 0); var whole := k == |EncodeLog(codec, log + [e])|;
      && r.entries == (if whole then log + [e] else log)
      && (r.error.None? <==> whole || k == |EncodeLog(codec, log)|)
  {
    hide EncodeLog, FrameOf, Decode, Encodable;
    var es := log + [e];
    var n := CutLog(codec, es, k);
    assert es[..|log|] == log && es[..|es|] == es;
    if n < |log| {
      FrameEndsAscend(codec, es, n + 1, |log|);
    }
  }

  /** A process dies while it appends the entry of an accepted command. The next opening can read the log exactly when
      none or all of the frame is there; it then recovers the content before the command, or after it. */
  lemma TornAppendCriterion(codec: Codec, s: System, ideal: DagData, c: Command, t: Times, ceiling: nat, k: nat)
    requires Consistent(s, ideal, ceiling) && s.memory.Some? && Accepts(ideal, c)
    requires AllEncodable(codec, s.log) && Encodable(codec, LogEntry(c, ceiling, t))
    requires |EncodeLog(codec, s.log)| <= k <= |EncodeLog(codec, s.log + [LogEntry(c, ceiling, t)])|
    ensures var r := Decode(codec, CutAppend(codec, s.log, LogEntry(c, ceiling, t), k), 0);
      var whole := k == |EncodeLog(codec, s.log + [LogEntry(c, ceiling, t)])|;
      && (r.error.None? <==> whole || k == |EncodeLog(codec, s.log)|)
      && SameContent(Recovered(Readable(s), r.entries, ceiling),
                     if whole then LiveEffect(ideal, c, ceiling, t) else ideal)
  {
    hide EncodeLog, Decode, Encodable, AllEncodable, LiveEffect, LogEntry, SameContent, Replay, Accepts;
    CutAppendReads(codec, s.log, LogEntry(c, ceiling, t), k);
    SubmitStep(s, ideal, c, t, ceiling);
    SameContentIsBisimulation(s.memory.value, ideal, c, ceiling, t);
  }
}
