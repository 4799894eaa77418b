/** The log file: length, payload and checksum per entry, and a reader that must cope with any cut. */
module WalFormat {
  import opened DagTypes
  import opened Mutations
  import opened Crc32

  /** The JSON codec of log entries, which lives outside the model. */
  datatype Codec = Codec(marshal: WalEntry -> seq<byte>, unmarshal: seq<byte> -> Option<WalEntry>)

  /** The entry survives the codec and its encoding's length fits the prefix. */
  predicate Encodable(codec: Codec, e: WalEntry) {
    codec.unmarshal(codec.marshal(e)) == Some(e) && |codec.marshal(e)| < 0x1_0000_0000
  }

  ghost predicate AllEncodable(codec: Codec, es: seq<WalEntry>) {
    forall k :: 0 <= k < |es| ==> Encodable(codec, es[k])
  }

  function Value(b: byte): nat {
    b as int
  }

  lemma ValueBounds(b: byte)
    ensures Value(b) < 256
  {}

  lemma ValueInjective(a: byte, b: byte)
    ensures Value(a) == Value(b) ==> a == b
  {}

  lemma NextByteValue(b: byte)
    requires b != 255
    ensures Value(b + 1) == Value(b) + 1
  {}

  /** Every number below 256 is the value of a byte. */
  lemma {:induction false} SomeByte(n: nat) returns (b: byte)
    requires n < 256
    ensures Value(b) == n
  {
    if n == 0 {
      b := 0;
    } else {
      var c := SomeByte(n - 1);
      assert Value(255) == 255;
      NextByteValue(c);
      b := c + 1;
    }
  }

  lemma ByteExists(n: nat)
    requires n < 256
    ensures exists b: byte :: Value(b) == n
  {
    var b := SomeByte(n);
  }

  lemma ByteIsUnique(n: nat)
    ensures forall a: byte, b: byte :: Value(a) == n && Value(b) == n ==> a == b
  {
    forall a: byte, b: byte | Value(a) == n && Value(b) == n ensures a == b {
      ValueInjective(a, b);
    }
  }

  /** The byte with this value. */
  function ToByte(n: nat): (b: byte)
    requires n < 256
    ensures Value(b) == n
  {
    ByteExists(n);
    ByteIsUnique(n);
    var b: byte :| Value(b) == n;
    b
  }

  /** The number in four bytes, lowest first. */
  function LittleEndian(n: nat): (r: seq<byte>)
    requires n < 0x1_0000_0000
    ensures |r| == 4
  {
    [ToByte(n % 256), ToByte(n / 256 % 256), ToByte(n / 256 / 256 % 256), ToByte(n / 256 / 256 / 256)]
  }

  function FromLittleEndian(b: seq<byte>): nat
    requires |b| == 4
  {
    Value(b[0]) + 256 * (Value(b[1]) + 256 * (Value(b[2]) + 256 * Value(b[3])))
  }

  lemma LittleEndianRoundTrip(n: nat)
    requires n < 0x1_0000_0000
    ensures FromLittleEndian(LittleEndian(n)) == n
  {
    hide ToByte, Value;
  }

  /** The length prefix keeps the low 32 bits of the length. */
  function LengthPrefix(n: nat): (r: seq<byte>)
    ensures |r| == 4
  {
    LittleEndian(n % 0x1_0000_0000)
  }

  function Number(c: bv32): (n: nat)
    ensures n < 0x1_0000_0000
  {
    c as int
  }

  lemma NumberInjective(c: bv32, d: bv32)
    ensures Number(c) == Number(d) ==> c == d
  {
    assert Number(c) as bv32 == c && Number(d) as bv32 == d;
  }

  lemma LengthRoundTrip(n: nat)
    requires n < 0x1_0000_0000
    ensures FromLittleEndian(LengthPrefix(n)) == n
  {
    hide LittleEndian, FromLittleEndian;
    LittleEndianRoundTrip(n);
  }

  function FrameOf(payload: seq<byte>): seq<byte> {
    LengthPrefix(|payload|) + payload + LittleEndian(Number(ChecksumIEEE(payload)))
  }

  function EncodeLog(codec: Codec, es: seq<WalEntry>): seq<byte> {
    if es == [] then [] else EncodeLog(codec, es[..|es| - 1]) + FrameOf(codec.marshal(es[|es| - 1]))
  }

  datatype ReadError =
    | TruncatedLength
    | TruncatedPayload
    | TruncatedChecksum
    | ChecksumMismatch(index: nat)
    | BadEntry(index: nat)

  datatype ReadResult = ReadResult(entries: seq<WalEntry>, error: Option<ReadError>)

  /** What the head of the remaining bytes holds. */
  datatype Head = EndOfFile | Broken(error: ReadError) | Complete(entry: WalEntry, size: nat)

  function ReadHead(codec: Codec, bytes: seq<byte>, index: nat): (h: Head)
    ensures h.Complete? ==> 8 <= h.size <= |bytes|
  {
    if bytes == [] then EndOfFile
    else if |bytes| < 4 then Broken(TruncatedLength)
    else
      var length := FromLittleEndian(bytes[..4]);
      if |bytes| < 4 + length then Broken(TruncatedPayload)
      else if |bytes| < 4 + length + 4 then Broken(TruncatedChecksum)
      else
        var payload := bytes[4..4 + length];
        if FromLittleEndian(bytes[4 + length..8 + length]) != Number(ChecksumIEEE(payload))
            then Broken(ChecksumMismatch(index))
        else match codec.unmarshal(payload)
             case None => Broken(BadEntry(index))
             case Some(entry) => Complete(entry, 8 + length)
  }

  /** Reads frames until the end of the file or the first broken one. */
  function Decode(codec: Codec, bytes: seq<byte>, index: nat): ReadResult
    decreases |bytes|
  {
    match ReadHead(codec, bytes, index)
    case EndOfFile => ReadResult([], None)
    case Broken(error) => ReadResult([], Some(error))
    case Complete(entry, size) =>
      var rest := Decode(codec, bytes[size..], index + 1);
      ReadResult([entry] + rest.entries, rest.error)
  }

  // ---------- complete frames ----------

  lemma FrameLayout(payload: seq<byte>, rest: seq<byte>)
    requires |payload| < 0x1_0000_0000
    ensures var f := FrameOf(payload) + rest;
      && |FrameOf(payload)| == 8 + |payload|
      && f[..4] == LengthPrefix(|payload|)
      && FromLittleEndian(f[..4]) == |payload|
      && f[4..4 + |payload|] == payload
      && f[4 + |payload|..8 + |payload|] == LittleEndian(Number(ChecksumIEEE(payload)))
      && f[8 + |payload|..] == rest
  {
    hide Number, LittleEndian, FromLittleEndian, ChecksumIEEE;
    LengthRoundTrip(|payload|);
  }

  lemma HeadOfFrame(codec: Codec, e: WalEntry, rest: seq<byte>, index: nat)
    requires Encodable(codec, e)
    ensures ReadHead(codec, FrameOf(codec.marshal(e)) + rest, index) == Complete(e, |FrameOf(codec.marshal(e))|)
  {
    hide Number, LittleEndian, FromLittleEndian, ChecksumIEEE;
    var payload := codec.marshal(e);
    FrameLayout(payload, rest);
    LittleEndianRoundTrip(Number(ChecksumIEEE(payload)));
  }

  lemma DecodeNothing(codec: Codec, index: nat)
    ensures Decode(codec, [], index) == ReadResult([], None)
  {}

  /** Reading past one whole frame. */
  lemma DecodeFrame(codec: Codec, e: WalEntry, rest: seq<byte>, index: nat)
    requires Encodable(codec, e)
    ensures var r := Decode(codec, rest, index + 1);
      Decode(codec, FrameOf(codec.marshal(e)) + rest, index) == ReadResult([e] + r.entries, r.error)
  {
    hide Number, LittleEndian, FromLittleEndian, ChecksumIEEE, FrameOf, ReadHead;
    HeadOfFrame(codec, e, rest, index);
    var f := FrameOf(codec.marshal(e));
    assert (f + rest)[|f|..] == rest;
  }

  /** Reading past any number of whole frames. */
  lemma {:induction false} DecodeLog(codec: Codec, es: seq<WalEntry>, rest: seq<byte>, index: nat)
    requires AllEncodable(codec, es)
    ensures var r := Decode(codec, rest, index + |es|);
      Decode(codec, EncodeLog(codec, es) + rest, index) == ReadResult(es + r.entries, r.error)
    decreases |es|
  {
    hide FrameOf, Decode;
    if es == [] {
      assert EncodeLog(codec, es) + rest == rest;
    } else {
      var init, e := es[..|es| - 1], es[|es| - 1];
      var frame := FrameOf(codec.marshal(e));
      DecodeLog(codec, init, frame + rest, index);
      DecodeFrame(codec, e, rest, index + |init|);
      assert EncodeLog(codec, es) + rest == EncodeLog(codec, init) + (frame + rest);
      var r := Decode(codec, rest, index + |es|);
      assert init + ([e] + r.entries) == es + r.entries;
    }
  }

  /** Round trip: the whole file decodes to the entries written. */
  lemma DecodeWhole(codec: Codec, es: seq<WalEntry>)
    requires AllEncodable(codec, es)
    ensures Decode(codec, EncodeLog(codec, es), 0) == ReadResult(es, None)
  {
    hide FrameOf, Decode;
    DecodeLog(codec, es, [], 0);
    DecodeNothing(codec, |es|);
    assert EncodeLog(codec, es) + [] == EncodeLog(codec, es);
  }

  // ---------- cuts ----------

  /** A proper, nonempty part of a frame is an error. */
  lemma CutFrame(codec: Codec, e: WalEntry, k: nat, index: nat)
    requires Encodable(codec, e) && 0 < k < |FrameOf(codec.marshal(e))|
    ensures Decode(codec, FrameOf(codec.marshal(e))[..k], index).entries == []
    ensures Decode(codec, FrameOf(codec.marshal(e))[..k], index).error ==
      Some(if k < 4 then TruncatedLength else if k < 4 + |codec.marshal(e)|
          then TruncatedPayload else TruncatedChecksum)
  {
    hide Number, LittleEndian, FromLittleEndian, ChecksumIEEE;
    var payload := codec.marshal(e);
    FrameLayout(payload, []);
    var frame := FrameOf(payload);
    assert frame + [] == frame;
    if k >= 4 {
      assert frame[..k][..4] == frame[..4];
    }
  }

  /** Where the first n frames end. */
  function FrameEnd(codec: Codec, es: seq<WalEntry>, n: nat): nat
    requires n <= |es|
  {
    |EncodeLog(codec, es[..n])|
  }

  lemma EncodeStep(codec: Codec, es: seq<WalEntry>, n: nat)
    requires n < |es|
    ensures EncodeLog(codec, es[..n + 1]) == EncodeLog(codec, es[..n]) + FrameOf(codec.marshal(es[n]))
  {
    hide FrameOf;
    assert es[..n + 1][..n] == es[..n];
  }

  lemma {:induction false} EncodeConcat(codec: Codec, a: seq<WalEntry>, b: seq<WalEntry>)
    ensures EncodeLog(codec, a + b) == EncodeLog(codec, a) + EncodeLog(codec, b)
    decreases |b|
  {
    hide FrameOf;
    if b == [] {
      assert a + b == a;
    } else {
      EncodeConcat(codec, a, b[..|b| - 1]);
      assert (a + b)[..|a + b| - 1] == a + b[..|b| - 1];
    }
  }

  lemma {:induction false} LocateCut(codec: Codec, es: seq<WalEntry>, k: nat) returns (n: nat)
    requires k <= |EncodeLog(codec, es)|
    ensures n <= |es| && FrameEnd(codec, es, n) <= k
    ensures n < |es| ==> k < FrameEnd(codec, es, n + 1)
    decreases |es|
  {
    hide FrameOf;
    if es == [] {
      n := 0;
    } else if k == |EncodeLog(codec, es)| {
      n := |es|;
      assert es[..n] == es;
    } else {
      var last := |es| - 1;
      EncodeStep(codec, es, last);
      assert es[..last + 1] == es;
      if k >= FrameEnd(codec, es, last) {
        n := last;
      } else {
        n := LocateCut(codec, es[..last], k);
        assert es[..last][..n] == es[..n];
        assert n < last ==> es[..last][..n + 1] == es[..n + 1];
      }
    }
  }

  /** A cut inside frame n leaves the frames before it and a part of frame n. */
  lemma CutSplits(codec: Codec, es: seq<WalEntry>, n: nat, j: nat)
    requires n < |es| && j <= |FrameOf(codec.marshal(es[n]))|
    ensures FrameEnd(codec, es, n) + j <= |EncodeLog(codec, es)|
    ensures EncodeLog(codec, es)[..FrameEnd(codec, es, n) + j]
         == EncodeLog(codec, es[..n]) + FrameOf(codec.marshal(es[n]))[..j]
  {
    hide FrameOf, EncodeLog;
    EncodeStep(codec, es, n);
    EncodeConcat(codec, es[..n + 1], es[n + 1..]);
    assert es[..n + 1] + es[n + 1..] == es;
  }

  /** Every prefix of a log reads back as exactly its complete frames, with an error exactly when the cut is inside a
      frame. */
  lemma CutLog(codec: Codec, es: seq<WalEntry>, k: nat) returns (n: nat)
    requires AllEncodable(codec, es) && k <= |EncodeLog(codec, es)|
    ensures n <= |es| && FrameEnd(codec, es, n) <= k && (n < |es| ==> k < FrameEnd(codec, es, n + 1))
    ensures Decode(codec, EncodeLog(codec, es)[..k], 0).entries == es[..n]
    ensures Decode(codec, EncodeLog(codec, es)[..k], 0).error.None? <==> k == FrameEnd(codec, es, n)
  {
    hide FrameOf, EncodeLog, Decode;
    n := LocateCut(codec, es, k);
    DecodeNothing(codec, n);
    if n == |es| {
      assert es[..n] == es;
      DecodeWhole(codec, es);
      assert EncodeLog(codec, es)[..k] == EncodeLog(codec, es);
    } else {
      var j := k - FrameEnd(codec, es, n);
      EncodeStep(codec, es, n);
      CutSplits(codec, es, n, j);
      var part := FrameOf(codec.marshal(es[n]))[..j];
      DecodeLog(codec, es[..n], part, 0);
      if j > 0 {
        CutFrame(codec, es[n], j, n);
      } else {
        assert part == [];
      }
    }
  }

  // ---------- corruption ----------

  /** A payload with up to four consecutive bytes overwritten. */
  ghost predicate BurstError(payload: seq<byte>, damaged: seq<byte>, at: nat, width: nat) {
    && |damaged| == |payload| && at + width <= |payload| && width <= 4
    && damaged != payload
    && damaged[..at] == payload[..at] && damaged[at + width..] == payload[at + width..]
  }

  /** The file in which frame n carries a damaged payload under its old checksum. */
  function Damaged(codec: Codec, es: seq<WalEntry>, n: nat, damaged: seq<byte>): seq<byte>
    requires n < |es|
  {
    var payload := codec.marshal(es[n]);
    EncodeLog(codec, es[..n])
    + (LengthPrefix(|payload|) + damaged + LittleEndian(Number(ChecksumIEEE(payload))) + EncodeLog(codec, es[n + 1..]))
  }

  lemma BurstChangesChecksum(payload: seq<byte>, damaged: seq<byte>, at: nat, width: nat)
    requires BurstError(payload, damaged, at, width)
    ensures ChecksumIEEE(damaged) != ChecksumIEEE(payload)
  {
    hide ChecksumIEEE;
    var before, after := payload[..at], payload[at + width..];
    var x, y := payload[at..at + width], damaged[at..at + width];
    assert payload == before + x + after;
    assert damaged == before + y + after;
    BurstDetected(before, x, y, after);
  }

  lemma DamagedHead(codec: Codec, payload: seq<byte>, damaged: seq<byte>, rest: seq<byte>, index: nat)
    requires |damaged| == |payload| < 0x1_0000_0000 && Number(ChecksumIEEE(damaged)) != Number(ChecksumIEEE(payload))
    ensures ReadHead(codec, LengthPrefix(|payload|) + damaged + LittleEndian(Number(ChecksumIEEE(payload)))
        + rest, index)
         == Broken(ChecksumMismatch(index))
  {
    hide Number, LittleEndian, FromLittleEndian, ChecksumIEEE;
    var p := |payload|;
    var bytes := LengthPrefix(p) + damaged + LittleEndian(Number(ChecksumIEEE(payload))) + rest;
    LengthRoundTrip(p);
    LittleEndianRoundTrip(Number(ChecksumIEEE(payload)));
    assert bytes[..4] == LengthPrefix(p);
    assert bytes[4..4 + p] == damaged;
    assert bytes[4 + p..8 + p] == LittleEndian(Number(ChecksumIEEE(payload)));
  }

  /** Damage to up to four consecutive payload bytes is always noticed, and costs only that frame and what follows
      it. */
  lemma DamageDetected(codec: Codec, es: seq<WalEntry>, n: nat, damaged: seq<byte>, at: nat, width: nat)
    requires AllEncodable(codec, es) && n < |es| && BurstError(codec.marshal(es[n]), damaged, at, width)
    ensures |Damaged(codec, es, n, damaged)| == |EncodeLog(codec, es)|
    ensures Decode(codec, Damaged(codec, es, n, damaged), 0) == ReadResult(es[..n], Some(ChecksumMismatch(n)))
  {
    hide Number, LittleEndian, FromLittleEndian, ChecksumIEEE, EncodeLog, ReadHead;
    var payload := codec.marshal(es[n]);
    var after := EncodeLog(codec, es[n + 1..]);
    BurstChangesChecksum(payload, damaged, at, width);
    NumberInjective(ChecksumIEEE(damaged), ChecksumIEEE(payload));
    DamagedHead(codec, payload, damaged, after, n);
    DecodeLog(codec, es[..n], LengthPrefix(|payload|) + damaged + LittleEndian(Number(ChecksumIEEE(payload)))
        + after, 0);
    EncodeStep(codec, es, n);
    EncodeConcat(codec, es[..n + 1], es[n + 1..]);
    assert es[..n + 1] + es[n + 1..] == es;
  }

  /** The same for the stored checksum: any four other bytes are noticed. */
  lemma ChecksumDamageDetected(codec: Codec, es: seq<WalEntry>, e: WalEntry, stored: seq<byte>, rest: seq<byte>)
    requires AllEncodable(codec, es) && Encodable(codec, e)
    requires |stored| == 4 && stored != LittleEndian(Number(ChecksumIEEE(codec.marshal(e))))
    ensures var p := codec.marshal(e);
      Decode(codec, EncodeLog(codec, es) + (LengthPrefix(|p|) + p + stored + rest), 0)
      == ReadResult(es, Some(ChecksumMismatch(|es|)))
  {
    hide Number, ChecksumIEEE, EncodeLog, ReadHead;
    var p := codec.marshal(e);
    LittleEndianRoundTrip(Number(ChecksumIEEE(p)));
    if FromLittleEndian(stored) == Number(ChecksumIEEE(p)) {
      FromLittleEndianInjective(stored, LittleEndian(Number(ChecksumIEEE(p))));
    }
    hide LittleEndian, FromLittleEndian;
    var bytes := LengthPrefix(|p|) + p + stored + rest;
    assert ReadHead(codec, bytes, |es|) == Broken(ChecksumMismatch(|es|)) by {
      WrongChecksumHead(codec, p, stored, rest, |es|);
    }
    DecodeBroken(codec, bytes, |es|);
    hide Decode;
    DecodeLog(codec, es, bytes, 0);
    assert es + [] == es;
  }

  lemma OneDigit(a: nat, x: nat, b: nat, y: nat)
    requires a < 256 && b < 256 && a + 256 * x == b + 256 * y
    ensures a == b && x == y
  {}

  lemma FromLittleEndianInjective(a: seq<byte>, b: seq<byte>)
    requires |a| == |b| == 4 && FromLittleEndian(a) == FromLittleEndian(b)
    ensures a == b
  {
    hide Value;
    forall i | 0 <= i < 4 ensures Value(a[i]) < 256 && Value(b[i]) < 256 {
      ValueBounds(a[i]);
      ValueBounds(b[i]);
    }
    OneDigit(Value(a[0]), Value(a[1]) + 256 * (Value(a[2]) + 256 * Value(a[3])),
             Value(b[0]), Value(b[1]) + 256 * (Value(b[2]) + 256 * Value(b[3])));
    OneDigit(Value(a[1]), Value(a[2]) + 256 * Value(a[3]), Value(b[1]), Value(b[2]) + 256 * Value(b[3]));
    OneDigit(Value(a[2]), Value(a[3]), Value(b[2]), Value(b[3]));
    hide FromLittleEndian;
    forall i | 0 <= i < 4 ensures a[i] == b[i] {
      ValueInjective(a[i], b[i]);
    }
  }

  lemma WrongChecksumHead(codec: Codec, p: seq<byte>, stored: seq<byte>, rest: seq<byte>, index: nat)
    requires |p| < 0x1_0000_0000 && |stored| == 4 && FromLittleEndian(stored) != Number(ChecksumIEEE(p))
    ensures ReadHead(codec, LengthPrefix(|p|) + p + stored + rest, index) == Broken(ChecksumMismatch(index))
  {
    hide Number, LittleEndian, FromLittleEndian, ChecksumIEEE;
    var bytes := LengthPrefix(|p|) + p + stored + rest;
    LengthRoundTrip(|p|);
    assert bytes[..4] == LengthPrefix(|p|);
    assert bytes[4..4 + |p|] == p;
    assert bytes[4 + |p|..8 + |p|] == stored;
  }

  lemma DecodeBroken(codec: Codec, bytes: seq<byte>, index: nat)
    requires ReadHead(codec, bytes, index).Broken?
    ensures Decode(codec, bytes, index) == ReadResult([], Some(ReadHead(codec, bytes, index).error))
  {
    hide ReadHead;
  }

  lemma ForeignHead(codec: Codec, p: seq<byte>, rest: seq<byte>, index: nat)
    requires |p| < 0x1_0000_0000 && codec.unmarshal(p) == None
    ensures ReadHead(codec, FrameOf(p) + rest, index) == Broken(BadEntry(index))
  {
    hide Number, LittleEndian, FromLittleEndian, ChecksumIEEE;
    FrameLayout(p, rest);
    LittleEndianRoundTrip(Number(ChecksumIEEE(p)));
    hide FrameOf;
  }

  /** A whole frame whose payload is no entry ends the reading behind the entries before it. */
  lemma ForeignFrameReported(codec: Codec, es: seq<WalEntry>, p: seq<byte>, rest: seq<byte>)
    requires AllEncodable(codec, es) && |p| < 0x1_0000_0000 && codec.unmarshal(p) == None
    ensures Decode(codec, EncodeLog(codec, es) + (FrameOf(p) + rest), 0) == ReadResult(es, Some(BadEntry(|es|)))
  {
    hide FrameOf, EncodeLog, Decode;
    ForeignHead(codec, p, rest, |es|);
    DecodeBroken(codec, FrameOf(p) + rest, |es|);
    hide ReadHead;
    DecodeLog(codec, es, FrameOf(p) + rest, 0);
    assert es + [] == es;
  }

  /** The four bytes of a number, lowest first. */
  predicate HoldsNumber(bytes: seq<byte>, at: nat, n: nat)
    requires at + 4 <= |bytes|
  {
    && bytes[at] as int == n % 256
    && bytes[at + 1] as int == n / 256 % 256
    && bytes[at + 2] as int == n / 256 / 256 % 256
    && bytes[at + 3] as int == n / 256 / 256 / 256 % 256
  }

  /** A frame byte by byte: the length lowest byte first, the payload, the checksum lowest byte first. */
  lemma FrameBytes(payload: seq<byte>)
    ensures var f := FrameOf(payload);
      && |f| == 8 + |payload|
      && HoldsNumber(f, 0, |payload|)
      && f[4..4 + |payload|] == payload
      && HoldsNumber(f, 4 + |payload|, ChecksumIEEE(payload) as int)
  {
    hide ChecksumIEEE;
    var f := FrameOf(payload);
    var n, c := |payload| % 0x1_0000_0000, Number(ChecksumIEEE(payload));
    LittleEndianBytes(n);
    LittleEndianBytes(c);
    LowBytes(|payload|);
    hide LittleEndian;
    assert f[..4] == LengthPrefix(|payload|) && f[4 + |payload|..] == LittleEndian(c);
    assert forall k :: 0 <= k < 4 ==> f[k] == LittleEndian(n)[k] && f[4 + |payload| + k] == LittleEndian(c)[k];
  }

  lemma ValueIsInt(b: byte)
    ensures Value(b) == b as int
  {}

  lemma LittleEndianBytes(n: nat)
    requires n < 0x1_0000_0000
    ensures HoldsNumber(LittleEndian(n), 0, n)
  {
    hide ToByte, Value;
    var b := LittleEndian(n);
    ValueIsInt(b[0]);
    ValueIsInt(b[1]);
    ValueIsInt(b[2]);
    ValueIsInt(b[3]);
  }

  /** Cutting off the high bits leaves the four low bytes. */
  lemma LowBytes(n: nat)
    ensures var m := n % 0x1_0000_0000;
      && m % 256 == n % 256 && m / 256 % 256 == n / 256 % 256 && m / 256 / 256 % 256 == n / 256 / 256 % 256
      && m / 256 / 256 / 256 % 256 == n / 256 / 256 / 256 % 256
  {
    var m, q := n % 0x1_0000_0000, n / 0x1_0000_0000;
    LowByteOff(m, q * 0x100_0000);
    LowByteOff(m / 256, q * 0x1_0000);
    LowByteOff(m / 256 / 256, q * 0x100);
    LowByteOff(m / 256 / 256 / 256, q);
  }

  lemma LowByteOff(m: nat, q: nat)
    ensures (m + 256 * q) / 256 == m / 256 + q && (m + 256 * q) % 256 == m % 256
  {}
}
