/** The write-ahead log: a buffer of entries in front of an append-only file. */
module WriteAheadLog {
  import opened DagTypes
  import opened Mutations
  import opened Crc32
  import opened WalFormat

  datatype WalError = Closed

  /** An entry without a timestamp gets the time of the append. */
  function Stamp(e: WalEntry, now: int): WalEntry {
    if e.timestamp == 0 then e.(timestamp := now) else e
  }

  function Prefixed(entries: seq<WalEntry>, r: ReadResult): ReadResult {
    ReadResult(entries + r.entries, r.error)
  }

  lemma NothingRead(codec: Codec, file: seq<byte>)
    ensures Decode(codec, file, 0) == Prefixed([], Decode(codec, file[0..], 0))
  {
    hide Decode;
    assert file[0..] == file;
  }

  /** What one more frame does to the reading so far. */
  lemma FrameRead(codec: Codec, file: seq<byte>, offset: nat, entries: seq<WalEntry>)
    requires offset <= |file|
    ensures Prefixed(entries, Decode(codec, file[offset..], |entries|)) ==
      match ReadHead(codec, file[offset..], |entries|)
      case EndOfFile => ReadResult(entries, None)
      case Broken(error) => ReadResult(entries, Some(error))
      case Complete(entry, size) => Prefixed(entries + [entry], Decode(codec, file[offset + size..], |entries| + 1))
  {
    hide ReadHead;
    match ReadHead(codec, file[offset..], |entries|)
    case EndOfFile =>
    case Broken(_) =>
    case Complete(entry, size) =>
      assert file[offset..][size..] == file[offset + size..];
      var tail := Decode(codec, file[offset + size..], |entries| + 1);
      assert entries + ([entry] + tail.entries) == entries + [entry] + tail.entries;
  }

  class Wal {
    const codec: Codec
    var file: seq<byte>
    var buffer: seq<WalEntry>
    var timerRunning: bool
    var closed: bool
    /** What has been appended since the file was last truncated. */
    ghost var appended: seq<WalEntry>
    /** How many of the appended entries are in the file. */
    ghost var flushed: nat

    ghost predicate Valid()
      reads this
    {
      && flushed <= |appended|
      && AllEncodable(codec, appended)
      && file == EncodeLog(codec, appended[..flushed])
      && buffer == appended[flushed..]
      && (closed ==> buffer == [])
    }

    /** Opens a log file with any content; a whole one makes the log valid. */
    constructor (codec: Codec, file: seq<byte>)
      ensures this.codec == codec && this.file == file && buffer == [] && !closed
      ensures forall es :: AllEncodable(codec, es) && file == EncodeLog(codec, es) ==> Valid() && appended == es
    {
      hide EncodeLog, Encodable, Decode;
      this.codec, this.file, this.buffer, this.timerRunning, this.closed := codec, file, [], false, false;
      appended, flushed := Decode(codec, file, 0).entries, |Decode(codec, file, 0).entries|;
      new;
      forall es | AllEncodable(codec, es) && file == EncodeLog(codec, es) ensures Valid() && appended == es {
        DecodeWhole(codec, es);
        assert es[..|es|] == es;
      }
    }

    method Append(entry: WalEntry, now: int) returns (r: Outcome<WalError>)
      requires Valid() && Encodable(codec, Stamp(entry, now))
      modifies this
      ensures Valid() && file == old(file) && closed == old(closed) && flushed == old(flushed)
      ensures r.Fail? <==> old(closed)
      ensures appended == if r.Pass? then old(appended) + [Stamp(entry, now)] else old(appended)
      ensures r.Pass? ==> |appended| == |old(appended)| + 1
      ensures r.Pass? ==> appended[|old(appended)|].mutation == entry.mutation
      ensures r.Pass? ==> appended[|old(appended)|].timestamp == if entry.timestamp == 0 then now else entry.timestamp
      ensures timerRunning == (old(timerRunning) || r.Pass?)
    {
      hide EncodeLog, Encodable;
      if closed {
        return Fail(Closed);
      }
      var stamped := entry;
      if stamped.timestamp == 0 {
        stamped := stamped.(timestamp := now);
      }
      buffer := buffer + [stamped];
      appended := appended + [stamped];
      assert appended[..flushed] == old(appended)[..flushed];
      if !timerRunning {
        timerRunning := true;
      }
      return Pass;
    }

    /** Returns with the entry, and everything appended before it, in the file. */
    method AppendSync(entry: WalEntry, now: int) returns (r: Outcome<WalError>)
      requires Valid() && Encodable(codec, Stamp(entry, now))
      modifies this
      ensures Valid() && closed == old(closed)
      ensures r.Fail? <==> old(closed)
      ensures r.Pass? ==> |appended| == |old(appended)| + 1
      ensures r.Pass? ==> appended[|old(appended)|].mutation == entry.mutation
      ensures r.Pass? ==> appended[|old(appended)|].timestamp == if entry.timestamp == 0 then now else entry.timestamp
      ensures r.Pass? ==>
          appended == old(appended) + [Stamp(entry, now)] && buffer == [] && file == EncodeLog(codec, appended)
      ensures r.Fail? ==> appended == old(appended) && file == old(file) && buffer == old(buffer)
    {
      hide EncodeLog, Encodable;
      if closed {
        return Fail(Closed);
      }
      var stamped := entry;
      if stamped.timestamp == 0 {
        stamped := stamped.(timestamp := now);
      }
      buffer := buffer + [stamped];
      appended := appended + [stamped];
      assert appended[..flushed] == old(appended)[..flushed];
      FlushLocked();
      assert appended[..|appended|] == appended;
      return Pass;
    }

    method Flush()
      requires Valid()
      modifies this
      ensures Valid() && closed == old(closed) && appended == old(appended)
      ensures buffer == [] && file == EncodeLog(codec, appended)
    {
      FlushLocked();
      assert appended[..|appended|] == appended;
    }

    method FlushLocked()
      requires Valid()
      modifies this
      ensures Valid() && closed == old(closed) && appended == old(appended)
      ensures buffer == [] && flushed == |appended|
    {
      hide EncodeLog, Encodable, FrameOf;
      if buffer == [] {
        assert flushed == |appended|;
        return;
      }
      timerRunning := false;
      var pending := buffer;
      for i := 0 to |pending|
        invariant appended == old(appended) && buffer == pending && closed == old(closed) && flushed == old(flushed)
        invariant file == EncodeLog(codec, appended[..flushed + i])
      {
        WriteEntry(pending[i]);
        EncodeStep(codec, appended, flushed + i);
      }
      buffer := [];
      flushed := |appended|;
      assert appended[..flushed] == appended[..old(flushed) + |pending|];
    }

    /** Length, payload, checksum: three writes at the end of the file. */
    method WriteEntry(entry: WalEntry)
      modifies this`file
      ensures file == old(file) + FrameOf(codec.marshal(entry))
    {
      hide LengthPrefix, LittleEndian, Number, ChecksumIEEE;
      var payload := codec.marshal(entry);
      file := file + LengthPrefix(|payload|);
      file := file + payload;
      file := file + LittleEndian(Number(ChecksumIEEE(payload)));
    }

    /** Reads one frame at the offset. */
    method ReadFrame(offset: nat, index: nat) returns (h: Head)
      requires offset <= |file|
      ensures h == ReadHead(codec, file[offset..], index)
    {
      hide Number, FromLittleEndian, ChecksumIEEE;
      ghost var rest := file[offset..];
      if offset == |file| {
        return EndOfFile;
      }
      if |file| < offset + 4 {
        return Broken(TruncatedLength);
      }
      assert rest[..4] == file[offset..offset + 4];
      var length := FromLittleEndian(file[offset..offset + 4]);
      if |file| < offset + 4 + length {
        return Broken(TruncatedPayload);
      }
      var payload := file[offset + 4..offset + 4 + length];
      assert payload == rest[4..4 + length];
      if |file| < offset + 8 + length {
        return Broken(TruncatedChecksum);
      }
      var storedChecksum := FromLittleEndian(file[offset + 4 + length..offset + 8 + length]);
      assert file[offset + 4 + length..offset + 8 + length] == rest[4 + length..8 + length];
      if storedChecksum != Number(ChecksumIEEE(payload)) {
        return Broken(ChecksumMismatch(index));
      }
      var entry := codec.unmarshal(payload);
      if entry.None? {
        return Broken(BadEntry(index));
      }
      return Complete(entry.value, 8 + length);
    }

    /** Reads the file from its start. Needs no validity: the file may have been cut or damaged. */
    method Replay() returns (r: ReadResult)
      ensures r == Decode(codec, file, 0)
    {
      hide ReadHead, Decode, Prefixed;
      var entries: seq<WalEntry> := [];
      var offset := 0;
      NothingRead(codec, file);
      while true
        invariant offset <= |file|
        invariant Decode(codec, file, 0) == Prefixed(entries, Decode(codec, file[offset..], |entries|))
        decreases |file| - offset
      {
        var head := ReadFrame(offset, |entries|);
        FrameRead(codec, file, offset, entries);
        match head
        case EndOfFile => return ReadResult(entries, None);
        case Broken(error) => return ReadResult(entries, Some(error));
        case Complete(entry, size) =>
          entries := entries + [entry];
          offset := offset + size;
      }
    }

    /** Empties the file; entries still buffered stay buffered. Whatever the file held, the log is valid afterwards. */
    method Truncate() returns (r: Outcome<WalError>)
      requires AllEncodable(codec, buffer) && (closed ==> buffer == [])
      modifies this
      ensures closed == old(closed) && buffer == old(buffer)
      ensures r.Fail? <==> old(closed)
      ensures r.Pass? ==> Valid() && file == [] && appended == old(buffer)
      ensures r.Fail? ==> file == old(file) && appended == old(appended) && flushed == old(flushed)
    {
      hide Encodable;
      if closed {
        return Fail(Closed);
      }
      file := [];
      appended, flushed := buffer, 0;
      return Pass;
    }

    method Close()
      requires Valid()
      modifies this
      ensures Valid() && closed && appended == old(appended)
      ensures buffer == [] && file == EncodeLog(codec, appended)
    {
      timerRunning := false;
      FlushLocked();
      closed := true;
      assert appended[..|appended|] == appended;
    }

    /** Whatever part of the file survives a crash reads back as the first of the appended entries. */
    lemma SurvivingPart(k: nat) returns (n: nat)
      requires Valid() && k <= |file|
      ensures n <= flushed && Decode(codec, file[..k], 0).entries == appended[..n]
      ensures Decode(codec, file[..k], 0).error.None? <==> k == |EncodeLog(codec, appended[..n])|
      ensures k == |file| ==> n == flushed
    {
      hide EncodeLog, Decode, Encodable;
      n := CutLog(codec, appended[..flushed], k);
      assert appended[..flushed][..n] == appended[..n];
      if k == |file| {
        assert file[..k] == file;
        DecodeWhole(codec, appended[..flushed]);
      }
    }

    /** The decoded file followed by the buffer is what was appended. */
    lemma FileThenBuffer()
      requires Valid()
      ensures Decode(codec, file, 0).error == None
      ensures Decode(codec, file, 0).entries + buffer == appended
    {
      hide EncodeLog, Decode, Encodable;
      DecodeWhole(codec, appended[..flushed]);
    }
  }
}
