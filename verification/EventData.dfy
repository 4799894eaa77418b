/** What the reader makes of an event, in words: lines, data lines, trimmed values, and blanks. */
module EventData {
  import opened DagTypes
  import opened Text
  import opened EventStream

  // ---------- lines ----------

  predicate NoBreak(s: string) {
    '\n' !in s
  }

  /** Splitting at line feeds and joining with line feeds undo each other. */
  lemma {:induction false} LinesGlued(s: string)
    ensures Lines(s) != [] && JoinLines(Lines(s)) == s
  {
    if s != "" {
      LinesGlued(s[1..]);
      var rest := Lines(s[1..]);
      assert s == [s[0]] + s[1..];
      if s[0] == '\n' {
        assert ([""] + rest)[1..] == rest;
      } else {
        assert ([[s[0]] + rest[0]] + rest[1..])[1..] == rest[1..];
        if |rest| > 1 {
          assert [s[0]] + (rest[0] + "\n" + JoinLines(rest[1..])) == ([s[0]] + rest[0]) + "\n" + JoinLines(rest[1..]);
        }
      }
    }
  }

  lemma {:induction false} LinesHaveNoBreak(s: string)
    ensures Lines(s) != [] && forall i :: 0 <= i < |Lines(s)| ==> NoBreak(Lines(s)[i])
  {
    if s != "" {
      LinesHaveNoBreak(s[1..]);
      var rest := Lines(s[1..]);
      forall i | 0 <= i < |Lines(s)| ensures NoBreak(Lines(s)[i]) {
        if s[0] == '\n' {
          assert i > 0 ==> Lines(s)[i] == rest[i - 1];
        } else {
          assert i > 0 ==> Lines(s)[i] == rest[i];
          assert i == 0 ==> Lines(s)[i] == [s[0]] + rest[0];
        }
      }
    }
  }

  lemma {:induction false} LinesOfOne(l: string)
    requires NoBreak(l)
    ensures Lines(l) == [l]
  {
    if l != "" {
      LinesOfOne(l[1..]);
      assert [l[0]] + l[1..] == l;
    }
  }

  lemma {:induction false} LinesOfMore(l: string, s: string)
    requires NoBreak(l)
    ensures Lines(l + "\n" + s) == [l] + Lines(s)
  {
    var all := l + "\n" + s;
    if l == "" {
      assert all[0] == '\n' && all[1..] == s;
    } else {
      LinesOfMore(l[1..], s);
      assert all[0] == l[0] && all[1..] == l[1..] + "\n" + s;
      assert [l[0]] + l[1..] == l;
    }
  }

  lemma {:induction false} GluedLines(ls: seq<string>)
    requires ls != [] && forall l :: l in ls ==> NoBreak(l)
    ensures Lines(JoinLines(ls)) == ls
  {
    if |ls| == 1 {
      LinesOfOne(ls[0]);
    } else {
      GluedLines(ls[1..]);
      LinesOfMore(ls[0], JoinLines(ls[1..]));
    }
  }

  // ---------- data lines ----------

  lemma NoDataLines()
    ensures DataLines([]) == []
  {}

  lemma DataLinesFirst(l: string, ls: seq<string>)
    ensures DataLines([l] + ls) == DataLines([l]) + DataLines(ls)
  {
    hide TrimLeft, IsJsSpace;
    assert ([l] + ls)[1..] == ls && [l][1..] == [];
  }

  lemma {:induction false} DataLinesConcat(a: seq<string>, b: seq<string>)
    ensures DataLines(a + b) == DataLines(a) + DataLines(b)
  {
    hide DataLines;
    if a == [] {
      NoDataLines();
      assert a + b == b && [] + DataLines(b) == DataLines(b);
    } else {
      DataLinesConcat(a[1..], b);
      DataLinesFirst(a[0], a[1..]);
      DataLinesFirst(a[0], a[1..] + b);
      assert [a[0]] + a[1..] == a && [a[0]] + (a[1..] + b) == a + b;
    }
  }

  predicate AllBlank(s: string) {
    forall c :: c in s ==> IsJsSpace(c)
  }

  lemma {:induction false} TrimmedValue(blanks: string, v: string)
    requires AllBlank(blanks) && (v == "" || !IsJsSpace(v[0]))
    ensures TrimLeft(blanks + v, IsJsSpace) == v
  {
    if blanks == "" {
      assert blanks + v == v;
    } else {
      TrimmedValue(blanks[1..], v);
      assert (blanks + v)[1..] == blanks[1..] + v;
    }
  }

  /** A data line yields its value without the blanks before it, in its place. */
  lemma DataLineKept(before: seq<string>, blanks: string, v: string, after: seq<string>)
    requires AllBlank(blanks) && (v == "" || !IsJsSpace(v[0]))
    ensures DataLines(before + ["data:" + blanks + v] + after) == DataLines(before) + [v] + DataLines(after)
  {
    var line := "data:" + blanks + v;
    assert line[5..] == blanks + v;
    TrimmedValue(blanks, v);
    assert "data:" <= line;
    assert DataLines([line]) == [v] by {
      assert [line][1..] == [] && [v] + [] == [v];
    }
    DataLinesConcat(before, [line]);
    DataLinesConcat(before + [line], after);
  }

  /** Any other line yields nothing. */
  lemma OtherLineDropped(before: seq<string>, line: string, after: seq<string>)
    requires !("data:" <= line)
    ensures DataLines(before + [line] + after) == DataLines(before) + DataLines(after)
  {
    assert DataLines([line]) == [] by {
      assert [line][1..] == [];
    }
    DataLinesConcat(before, [line]);
    DataLinesConcat(before + [line], after);
    assert DataLines(before) + [] == DataLines(before);
  }

  /** The payload of an event: the values of its data lines, joined by line feeds. */
  lemma DataOfLines(ls: seq<string>)
    requires ls != [] && forall l :: l in ls ==> NoBreak(l)
    ensures DataOf(JoinLines(ls)) == JoinLines(DataLines(ls))
  {
    GluedLines(ls);
  }

  /** A value as a payload: no line feed, and no blank in front. */
  predicate PlainValue(v: string) {
    NoBreak(v) && (v == "" || !IsJsSpace(v[0]))
  }

  lemma OneDataLine(v: string)
    requires PlainValue(v)
    ensures DataLines(["data: " + v]) == [v] && DataLines(["data:" + v]) == [v]
  {
    DataLineKept([], " ", v, []);
    DataLineKept([], "", v, []);
    assert "data:" + " " + v == "data: " + v && "data:" + "" + v == "data:" + v;
    assert [] + ["data: " + v] + [] == ["data: " + v] && [] + ["data:" + v] + [] == ["data:" + v];
    assert [] + [v] + [] == [v];
    hide DataLines;
  }

  /** An event of one data line, with or without a blank behind the colon. */
  lemma OnePayload(v: string)
    requires PlainValue(v)
    ensures DataOf("data: " + v) == v && DataOf("data:" + v) == v
  {
    OneDataLine(v);
    assert NoBreak("data: " + v) && NoBreak("data:" + v);
    LinesOfOne("data: " + v);
    LinesOfOne("data:" + v);
    assert JoinLines([v]) == v;
    hide DataLines, Lines, JoinLines;
  }

  /** An event of two data lines joins their values by a line feed. */
  lemma TwoPayloadLines(v: string, w: string)
    requires PlainValue(v) && PlainValue(w)
    ensures DataOf("data: " + v + "\n" + ("data: " + w)) == v + "\n" + w
  {
    OneDataLine(v);
    OneDataLine(w);
    var a, b := "data: " + v, "data: " + w;
    assert NoBreak(a) && NoBreak(b);
    LinesOfOne(b);
    LinesOfMore(a, b);
    DataLinesConcat([a], [b]);
    assert [a] + [b] == [a, b] && [v] + [w] == [v, w];
    assert JoinLines([v, w]) == v + "\n" + w by {
      assert [v, w][1..] == [w];
    }
    hide DataLines, Lines, JoinLines;
  }

  // ---------- events ----------

  /** A blank line ends an event. */
  lemma EventEnds(event: string, text: string)
    requires forall j :: 0 <= j < |event| && event[j] == '\n' ==> j + 1 < |event| && event[j + 1] != '\n'
    ensures Blocks(event + "\n\n" + text) == [event] + Blocks(text)
  {
    var all := event + "\n\n" + text;
    var n := |event|;
    assert all[..n] == event && all[n] == '\n' && all[n + 1] == '\n' && all[n + 2..] == text;
    forall j | 0 <= j < n ensures !IsBoundary(all, j) {
      assert all[j] == event[j] && (j + 1 < n ==> all[j + 1] == event[j + 1]);
    }
    hide FirstBoundary;
    assert IsBoundary(all, n);
    assert FirstBoundary(all, 0) == Some(n);
  }

  /** A text without a blank line is one unterminated block. */
  lemma NoEventEnds(text: string)
    requires forall j :: 0 <= j < |text| - 1 ==> !(text[j] == '\n' && text[j + 1] == '\n')
    ensures Blocks(text) == [text]
  {
    hide FirstBoundary;
  }

  /** The payloads of a text are those of its blocks, the unterminated last one together with what the decoder held
      back; a block without data yields none. */
  lemma PayloadsOfBlocks(text: string, flush: string)
    ensures var bs := Blocks(text); var last := |bs| - 1;
      && bs != []
      && Payloads(text, flush)
          == DataOfAll(bs[..last]) + (if DataOf(bs[last] + flush) == "" then [] else [DataOf(bs[last] + flush)])
  {
    BlocksPartition(text);
    hide Drain, Blocks, DataOf;
  }

  lemma BlockAmongAll(before: seq<string>, event: string)
    ensures DataOfAll(before + [event]) == DataOfAll(before) + if DataOf(event) == "" then [] else [DataOf(event)]
  {
    if before == [] {
      assert ([] + [event])[0] == event && ([] + [event])[1..] == [];
    } else {
      BlockAmongAll(before[1..], event);
      assert (before + [event])[1..] == before[1..] + [event];
    }
  }

  // ---------- line ends ----------

  /** Text without CRLF pairs stays as it is. */
  lemma {:induction false} NoPairsUnchanged(s: string)
    requires forall i :: 0 <= i < |s| - 1 ==> !(s[i] == '\r' && s[i + 1] == '\n')
    ensures Unix(s) == s
    decreases |s|
  {
    if s != "" {
      assert !(|s| >= 2 && s[0] == '\r' && s[1] == '\n');
      NoPairsUnchanged(s[1..]);
      assert s == [s[0]] + s[1..];
    }
  }

  /** Every CRLF pair becomes one LF. */
  lemma PairBecomesLinefeed(a: string, b: string)
    ensures Unix(a + "\r\n" + b) == Unix(a) + "\n" + Unix(b)
  {
    UnixConcat(a, "\r\n" + b);
    UnixPair(b);
    assert a + "\r\n" + b == a + ("\r\n" + b);
    assert Unix(a) + ("\n" + Unix(b)) == Unix(a) + "\n" + Unix(b);
  }

  // ---------- blanks ----------

  /** The code points Go trims. */
  lemma SpaceCodes(c: char)
    ensures IsSpace(c) <==>
      || (c as int) in {0x9, 0xA, 0xB, 0xC, 0xD, 0x20, 0x85, 0xA0, 0x1680, 0x2028, 0x2029, 0x202F, 0x205F, 0x3000}
      || 0x2000 <= c as int <= 0x200A
  {}

  /** JavaScript trims the byte order mark besides, and keeps the next-line character. */
  lemma JsSpaceCodes(c: char)
    ensures IsJsSpace(c) <==> (IsSpace(c) && c as int != 0x85) || c as int == 0xFEFF
  {}

  /** Trimming cuts blanks off both ends and stops at the first character that is none. */
  lemma TrimMeaning(left: string, v: string, right: string)
    requires (forall c :: c in left || c in right ==> IsSpace(c)) && IsTrimmed(v)
    ensures TrimSpace(left + v + right) == v
  {
    hide IsSpace;
    LeftBlanks(left, v + right);
    assert left + v + right == left + (v + right);
    if v == "" {
      assert v + right == right;
      LeftBlanks(right, "");
      assert right + "" == right;
      assert TrimSpace(left + v + right) == TrimRight(TrimLeft(right, IsSpace), IsSpace);
    } else {
      assert (v + right)[0] == v[0];
      RightBlanks(v, right);
    }
  }

  lemma {:induction false} LeftBlanks(left: string, s: string)
    requires forall c :: c in left ==> IsSpace(c)
    ensures TrimLeft(left + s, IsSpace) == TrimLeft(s, IsSpace)
  {
    hide IsSpace;
    if left == "" {
      assert left + s == s;
    } else {
      LeftBlanks(left[1..], s);
      assert (left + s)[1..] == left[1..] + s;
    }
  }

  lemma {:induction false} RightBlanks(v: string, right: string)
    requires v != "" && !IsSpace(v[|v| - 1]) && forall c :: c in right ==> IsSpace(c)
    ensures TrimRight(v + right, IsSpace) == v
  {
    hide IsSpace;
    if right == "" {
      assert v + right == v;
    } else {
      RightBlanks(v, right[..|right| - 1]);
      assert (v + right)[..|v + right| - 1] == v + right[..|right| - 1];
    }
  }
}
