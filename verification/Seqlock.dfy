/** The shared store region: one writer and any number of readers, interleaved byte by byte. */
module SeqlockStore {
  import opened DagTypes
  import opened Crc32

  const WRAP: nat := 0x1_0000_0000_0000_0000
  const LENGTH_LIMIT: nat := 0x1_0000_0000

  /** The length prefix is one aligned 32-bit word; data is the region behind it. */
  datatype Memory = Memory(length: nat, data: seq<byte>)

  /** pending holds the positions the copy has not reached; a copy may go in any order. */
  datatype Writer = Idle | Writing(payload: seq<byte>, lengthStored: bool, pending: set<nat>)

  datatype ReadOutcome = Data(bytes: seq<byte>) | EmptyDag | ExceedsRegion | Contention

  /** start is the true number of counter steps when the sequence number was loaded. */
  datatype Reader =
    | Spinning(spins: nat)
    | Begun(sequence: nat, ghost start: nat)
    | Copying(sequence: nat, ghost start: nat, length: nat, got: map<nat, byte>)
    | Returned(outcome: ReadOutcome)

  /** ticks counts the counter's increments without wrap-around; committed is the last completed write. */
  datatype System = System(ticks: nat, memory: Memory, writer: Writer, readers: seq<Reader>,
      committed: Option<seq<byte>>)

  /** The 64-bit counter. */
  function Counter(s: System): nat {
    s.ticks % WRAP
  }

  /** The stored length: the low 32 bits of the payload's length. */
  function StoredLength(payload: seq<byte>): nat {
    |payload| % LENGTH_LIMIT
  }

  /** How many payload bytes the copy into the region moves. */
  function CopyLength(payload: seq<byte>, capacity: nat): nat {
    if |payload| < capacity then |payload| else capacity
  }

  function Below(n: nat): (r: set<nat>)
    ensures forall i: nat :: i in r <==> i < n
  {
    if n == 0 then {} else Below(n - 1) + {n - 1}
  }

  datatype Step =
    | WriterLock(payload: seq<byte>)
    | StoreLength
    | StoreByte(i: nat)
    | WriterUnlock
    /** Reader r starts a Read. */
    | ReadStart(r: nat)
    | LoadCounter(r: nat)
    | LoadLength(r: nat)
    | LoadByte(r: nat, i: nat)
    | Validate(r: nat)

  predicate Enabled(s: System, maxSpins: nat, step: Step) {
    match step
    case WriterLock(payload) => s.writer.Idle? && StoredLength(payload) <= |s.memory.data|
    case StoreLength => s.writer.Writing? && !s.writer.lengthStored
    case StoreByte(i) => s.writer.Writing? && s.writer.lengthStored && i in s.writer.pending
                         && i < |s.writer.payload| && i < |s.memory.data|
    case WriterUnlock => s.writer.Writing? && s.writer.lengthStored && s.writer.pending == {}
    case ReadStart(r) => r < |s.readers| && s.readers[r].Returned?
    case LoadCounter(r) => r < |s.readers| && s.readers[r].Spinning?
    case LoadLength(r) => r < |s.readers| && s.readers[r].Begun?
    case LoadByte(r, i) => r < |s.readers| && s.readers[r].Copying? && i < s.readers[r].length && i !in s.readers[r].got
                           && i < |s.memory.data|
    case Validate(r) => r < |s.readers| && s.readers[r].Copying? && forall i :: 0 <= i < s.readers[r].length ==>
        i in s.readers[r].got
  }

  function Collected(length: nat, got: map<nat, byte>): seq<byte>
    requires forall i :: 0 <= i < length ==> i in got
  {
    seq(length, i requires 0 <= i < length => got[i])
  }

  function Next(s: System, maxSpins: nat, step: Step): System
    requires Enabled(s, maxSpins, step)
  {
    match step
    case WriterLock(payload) =>
      s.(ticks := s.ticks + 1,
         writer := Writing(payload, false, Below(CopyLength(payload, |s.memory.data|))))
    case StoreLength =>
      s.(memory := s.memory.(length := StoredLength(s.writer.payload)), writer := s.writer.(lengthStored := true))
    case StoreByte(i) =>
      s.(memory := s.memory.(data := s.memory.data[i := s.writer.payload[i]]),
          writer := s.writer.(pending := s.writer.pending - {i}))
    case WriterUnlock => s.(ticks := s.ticks + 1, writer := Idle, committed := Some(s.writer.payload))
    case ReadStart(r) => s.(readers := s.readers[r := Spinning(0)])
    case LoadCounter(r) =>
      var spins := s.readers[r].spins;
      s.(readers := s.readers[r :=
        if spins >= maxSpins then Returned(Contention)
        else if Counter(s) % 2 == 0 then Begun(Counter(s), s.ticks)
        else Spinning(spins + 1)])
    case LoadLength(r) =>
      var length := s.memory.length;
      s.(readers := s.readers[r :=
        if length > |s.memory.data| then Returned(ExceedsRegion)
        else Copying(s.readers[r].sequence, s.readers[r].start, length, map[])])
    case LoadByte(r, i) => s.(readers := s.readers[r := s.readers[r].(got := s.readers[r].got[i := s.memory.data[i]])])
    case Validate(r) =>
      var reader := s.readers[r];
      s.(readers := s.readers[r :=
        if Counter(s) != reader.sequence then Spinning(0)
        else if reader.length == 0 then Returned(EmptyDag)
        else Returned(Data(Collected(reader.length, reader.got)))])
  }

  // ---------- what a read may return ----------

  /** What a Read of the given write returns: its bytes, as far as the stored length reaches. */
  function Answer(committed: Option<seq<byte>>): ReadOutcome {
    if committed.None? || StoredLength(committed.value) == 0 then EmptyDag
    else Data(committed.value[..StoredLength(committed.value)])
  }

  /** The memory holds exactly this write. */
  ghost predicate Holds(m: Memory, committed: Option<seq<byte>>) {
    match committed
    case None => m.length == 0
    case Some(payload) =>
      && m.length == StoredLength(payload) <= |m.data|
      && m.data[..m.length] == payload[..m.length]
  }

  ghost predicate WriterConsistent(s: System) {
    match s.writer
    case Idle => s.ticks % 2 == 0 && Holds(s.memory, s.committed)
    case Writing(payload, lengthStored, pending) =>
      && s.ticks % 2 == 1
      && StoredLength(payload) <= |s.memory.data|
      && (lengthStored ==> s.memory.length == StoredLength(payload))
      && forall i :: 0 <= i < CopyLength(payload, |s.memory.data|) && i !in pending ==> s.memory.data[i] == payload[i]
  }

  /** As long as the counter has not moved, everything a reader has seen is still there. */
  ghost predicate ReaderConsistent(s: System, reader: Reader) {
    match reader
    case Spinning(_) => true
    case Begun(sequence, start) => start <= s.ticks && start % 2 == 0 && sequence == start % WRAP
    case Copying(sequence, start, length, got) =>
      && start <= s.ticks && start % 2 == 0 && sequence == start % WRAP
      && length <= |s.memory.data|
      && (start == s.ticks ==> length == s.memory.length)
      && (start == s.ticks ==> forall i :: i in got ==> i < |s.memory.data| && got[i] == s.memory.data[i])
    case Returned(outcome) => !outcome.ExceedsRegion?
  }

  ghost predicate Consistent(s: System) {
    && s.memory.length <= |s.memory.data|
    && WriterConsistent(s)
    && forall r :: 0 <= r < |s.readers| ==> ReaderConsistent(s, s.readers[r])
  }

  /** Fewer than 2^64 counter steps pass between a reader's begin and its validation. */
  ghost predicate NotLapped(s: System, step: Step) {
    step.Validate? && step.r < |s.readers| && s.readers[step.r].Copying? ==>
        s.ticks < s.readers[step.r].start + 0x1_0000_0000_0000_0000
  }

  lemma SameCounterSameTicks(start: nat, ticks: nat)
    requires start <= ticks < start + WRAP && start % WRAP == ticks % WRAP
    ensures start == ticks
  {}

  lemma EvenCounter(ticks: nat)
    ensures (ticks % WRAP) % 2 == ticks % 2
  {}

  /** A writer step moves the counter or leaves an odd one: readers that began earlier can no longer validate. */
  lemma WriterStepKeeps(s: System, maxSpins: nat, step: Step)
    requires Consistent(s) && Enabled(s, maxSpins, step)
    requires step.WriterLock? || step.StoreLength? || step.StoreByte? || step.WriterUnlock?
    ensures Consistent(Next(s, maxSpins, step))
  {
    var s' := Next(s, maxSpins, step);
    forall r | 0 <= r < |s'.readers| ensures ReaderConsistent(s', s'.readers[r]) {
      assert ReaderConsistent(s, s.readers[r]);
    }
    match step
    case WriterLock(payload) =>
    case StoreLength =>
    case StoreByte(i) =>
    case WriterUnlock =>
      var payload := s.writer.payload;
      assert s.memory.data[..s.memory.length] == payload[..s.memory.length];
  }

  lemma ReaderStepKeeps(s: System, maxSpins: nat, step: Step)
    requires Consistent(s) && Enabled(s, maxSpins, step) && NotLapped(s, step)
    requires !(step.WriterLock? || step.StoreLength? || step.StoreByte? || step.WriterUnlock?)
    ensures Consistent(Next(s, maxSpins, step))
  {
    var s' := Next(s, maxSpins, step);
    EvenCounter(s.ticks);
    forall r | 0 <= r < |s'.readers| ensures ReaderConsistent(s', s'.readers[r]) {
      assert ReaderConsistent(s, s.readers[r]);
    }
    assert s'.memory == s.memory && s'.writer == s.writer && s'.ticks == s.ticks;
  }

  /** Every step of every interleaving keeps memory, writer and readers consistent; the region check never fires. */
  lemma StepKeepsConsistent(s: System, maxSpins: nat, step: Step)
    requires Consistent(s) && Enabled(s, maxSpins, step) && NotLapped(s, step)
    ensures Consistent(Next(s, maxSpins, step))
  {
    if step.WriterLock? || step.StoreLength? || step.StoreByte? || step.WriterUnlock? {
      WriterStepKeeps(s, maxSpins, step);
    } else {
      ReaderStepKeeps(s, maxSpins, step);
    }
  }

  /** A Read that returns answers with the last write completed at that moment: reads are linearizable. */
  lemma ReadIsCurrent(s: System, maxSpins: nat, r: nat)
    requires Consistent(s) && Enabled(s, maxSpins, Validate(r)) && NotLapped(s, Validate(r))
    ensures var after := Next(s, maxSpins, Validate(r)).readers[r];
      after.Returned? ==> after.outcome == Answer(s.committed)
  {
    var reader := s.readers[r];
    assert ReaderConsistent(s, reader);
    if Counter(s) == reader.sequence {
      SameCounterSameTicks(reader.start, s.ticks);
      assert s.writer.Idle?;
      if reader.length > 0 {
        assert Collected(reader.length, reader.got) == s.memory.data[..reader.length];
      }
    }
  }

  // ---------- runs ----------

  /** The state after the steps; a step that is not enabled cannot happen. */
  function Run(s: System, maxSpins: nat, steps: seq<Step>): System {
    if steps == [] then s
    else
      var before, step := Run(s, maxSpins, steps[..|steps| - 1]), steps[|steps| - 1];
      if Enabled(before, maxSpins, step) then Next(before, maxSpins, step) else before
  }

  /** A region whose last write was complete, with no read under way. */
  ghost predicate Initial(s: System) {
    && s.writer.Idle? && Holds(s.memory, s.committed) && s.memory.length <= |s.memory.data|
    && forall r :: 0 <= r < |s.readers| ==> s.readers[r] == Spinning(0)
  }

  ghost predicate NeverLapped(s: System, maxSpins: nat, steps: seq<Step>) {
    forall k :: 0 <= k < |steps| ==> NotLapped(Run(s, maxSpins, steps[..k]), steps[k])
  }

  /** Every validation in the run that lets a Read return answers with the last completed write. */
  ghost predicate AllReadsCurrent(s: System, maxSpins: nat, steps: seq<Step>) {
    forall k :: 0 <= k < |steps| ==> ReadCurrentAt(Run(s, maxSpins, steps[..k]), maxSpins, steps[k])
  }

  ghost predicate ReadCurrentAt(s: System, maxSpins: nat, step: Step) {
    step.Validate? && Enabled(s, maxSpins, step) ==>
      var after := Next(s, maxSpins, step).readers[step.r];
      after.Returned? ==> after.outcome == Answer(s.committed)
  }

  lemma {:induction false} ReachableIsConsistent(s: System, maxSpins: nat, steps: seq<Step>)
    requires Initial(s) && s.ticks % 2 == 0 && NeverLapped(s, maxSpins, steps)
    ensures Consistent(Run(s, maxSpins, steps))
  {
    if steps != [] {
      hide Enabled, Next, Consistent, NotLapped, Initial;
      var last := |steps| - 1;
      var init := steps[..last];
      forall k | 0 <= k < last ensures NotLapped(Run(s, maxSpins, init[..k]), init[k]) {
        assert init[..k] == steps[..k];
      }
      ReachableIsConsistent(s, maxSpins, init);
      if Enabled(Run(s, maxSpins, init), maxSpins, steps[last]) {
        StepKeepsConsistent(Run(s, maxSpins, init), maxSpins, steps[last]);
      }
    }
  }

  lemma PrefixNeverLapped(s: System, maxSpins: nat, steps: seq<Step>, k: nat)
    requires NeverLapped(s, maxSpins, steps) && k <= |steps|
    ensures NeverLapped(s, maxSpins, steps[..k])
  {
    hide NotLapped, Run;
    var prefix := steps[..k];
    forall j | 0 <= j < k ensures NotLapped(Run(s, maxSpins, prefix[..j]), prefix[j]) {
      assert prefix[..j] == steps[..j];
    }
  }

  /** A reachable step reads what is current. */
  lemma ReachableReadIsCurrent(s: System, maxSpins: nat, steps: seq<Step>, k: nat)
    requires Initial(s) && s.ticks % 2 == 0 && NeverLapped(s, maxSpins, steps) && k < |steps|
    ensures ReadCurrentAt(Run(s, maxSpins, steps[..k]), maxSpins, steps[k])
  {
    hide Run, Initial, Consistent, NotLapped, Next, Enabled;
    PrefixNeverLapped(s, maxSpins, steps, k);
    ReachableIsConsistent(s, maxSpins, steps[..k]);
    var before := Run(s, maxSpins, steps[..k]);
    if steps[k].Validate? && Enabled(before, maxSpins, steps[k]) {
      ReadIsCurrent(before, maxSpins, steps[k].r);
    }
  }

  lemma ConsistentNeverExceeds(s: System)
    requires Consistent(s)
    ensures forall r :: 0 <= r < |s.readers| ==> s.readers[r] != Returned(ExceedsRegion)
  {
    assert forall r :: 0 <= r < |s.readers| ==> ReaderConsistent(s, s.readers[r]);
  }

  /** With an even counter at the start, no interleaving makes a Read return anything but the last completed write. */
  lemma EvenStartIsSafe(s: System, maxSpins: nat, steps: seq<Step>)
    requires Initial(s) && s.ticks % 2 == 0 && NeverLapped(s, maxSpins, steps)
    ensures AllReadsCurrent(s, maxSpins, steps)
    ensures var after := Run(s, maxSpins, steps);
      forall r :: 0 <= r < |after.readers| ==> after.readers[r] != Returned(ExceedsRegion)
  {
    hide Run, ReadCurrentAt, Initial, NeverLapped, Consistent;
    forall k | 0 <= k < |steps| ensures ReadCurrentAt(Run(s, maxSpins, steps[..k]), maxSpins, steps[k]) {
      ReachableReadIsCurrent(s, maxSpins, steps, k);
    }
    ReachableIsConsistent(s, maxSpins, steps);
    ConsistentNeverExceeds(Run(s, maxSpins, steps));
  }

  /** A writer that dies inside a write leaves the counter with the other parity; whole writes leave it as it was. */
  lemma {:induction false} TornWriteFlipsParity(s: System, maxSpins: nat, steps: seq<Step>)
    requires s.writer.Idle?
    ensures var after := Run(s, maxSpins, steps);
      after.writer.Writing? <==> after.ticks % 2 != s.ticks % 2
  {
    if steps != [] {
      TornWriteFlipsParity(s, maxSpins, steps[..|steps| - 1]);
    }
  }

  // ---------- whole writes ----------

  /** What a Read of the last completed write answers: nothing written or an empty write reads as the empty DAG, and any
      other write of less than 2^32 bytes comes back whole. */
  ghost predicate WholeAnswer(committed: Option<seq<byte>>, outcome: ReadOutcome) {
    match committed
    case None => outcome.EmptyDag?
    case Some(p) =>
      && (|p| == 0 ==> outcome.EmptyDag?)
      && (0 < |p| < 0x1_0000_0000 ==> outcome == Data(p))
  }

  lemma AnswerIsWhole(committed: Option<seq<byte>>)
    ensures WholeAnswer(committed, Answer(committed))
  {
    if committed.Some? {
      var p := committed.value;
      assert p[..|p|] == p;
    }
  }

  ghost predicate ReadWholeAt(s: System, maxSpins: nat, step: Step) {
    step.Validate? && Enabled(s, maxSpins, step) ==>
      var after := Next(s, maxSpins, step).readers[step.r];
      after.Returned? ==> WholeAnswer(s.committed, after.outcome)
  }

  lemma CurrentIsWhole(s: System, maxSpins: nat, step: Step)
    requires ReadCurrentAt(s, maxSpins, step)
    ensures ReadWholeAt(s, maxSpins, step)
  {
    AnswerIsWhole(s.committed);
    hide Next, Enabled, Answer, WholeAnswer;
  }

  /** From an even counter, every Read of every run that returns gives back the last completed write as a whole. */
  lemma EvenStartReadsWhole(s: System, maxSpins: nat, steps: seq<Step>)
    requires Initial(s) && s.ticks % 2 == 0 && NeverLapped(s, maxSpins, steps)
    ensures forall k :: 0 <= k < |steps| ==> ReadWholeAt(Run(s, maxSpins, steps[..k]), maxSpins, steps[k])
  {
    hide Run, ReadWholeAt, ReadCurrentAt, NeverLapped, Initial;
    EvenStartIsSafe(s, maxSpins, steps);
    forall k | 0 <= k < |steps| ensures ReadWholeAt(Run(s, maxSpins, steps[..k]), maxSpins, steps[k]) {
      CurrentIsWhole(Run(s, maxSpins, steps[..k]), maxSpins, steps[k]);
    }
  }

  /** A write of less than 2^32 bytes may start exactly when no other is under way and the region holds it. */
  lemma WriteFits(s: System, maxSpins: nat, payload: seq<byte>)
    requires |payload| < 0x1_0000_0000
    ensures Enabled(s, maxSpins, WriterLock(payload)) <==> s.writer.Idle? && |payload| <= |s.memory.data|
  {}

  /** What a write leaves: counted twice, and committed as it was handed over. */
  lemma WriteCommits(s: System, maxSpins: nat)
    requires Enabled(s, maxSpins, WriterUnlock)
    ensures var after := Next(s, maxSpins, WriterUnlock);
      after.committed == Some(s.writer.payload) && after.ticks == s.ticks + 1 && after.memory == s.memory
  {}

  /** A reader that has loaded the counter: it begins at the first even value, and gives up after maxSpins odd ones. */
  ghost predicate SpinsLike(reader: Reader, loads: nat -> nat, maxSpins: nat, loaded: nat) {
    match reader
    case Spinning(k) => k == loaded <= maxSpins && forall j: nat :: j < loaded ==> loads(j) % 2 == 1
    case Begun(sequence, _) =>
      0 < loaded <= maxSpins && sequence == loads(loaded - 1) && FirstEven(loads, loaded - 1)
    case Returned(outcome) => outcome.Contention? && forall j: nat :: j < maxSpins ==> loads(j) % 2 == 1
    case Copying(_, _, _, _) => false
  }

  /** The machine's reader does what ReadBegin does: loads(k) is the counter it sees at its k-th load. */
  lemma SpinStep(s: System, maxSpins: nat, r: nat, loads: nat -> nat, loaded: nat)
    requires Enabled(s, maxSpins, LoadCounter(r)) && SpinsLike(s.readers[r], loads, maxSpins, loaded)
    requires loads(loaded) == s.ticks % 0x1_0000_0000_0000_0000
    ensures SpinsLike(Next(s, maxSpins, LoadCounter(r)).readers[r], loads, maxSpins, loaded + 1)
  {}

  // ---------- an odd start ----------

  lemma {:induction false} RunConcat(s: System, maxSpins: nat, a: seq<Step>, b: seq<Step>)
    ensures Run(s, maxSpins, a + b) == Run(Run(s, maxSpins, a), maxSpins, b)
    decreases |b|
  {
    hide Enabled, Next;
    if b == [] {
      assert a + b == a;
    } else {
      RunConcat(s, maxSpins, a, b[..|b| - 1]);
      assert (a + b)[..|a + b| - 1] == a + b[..|b| - 1];
    }
  }

  /** Three enabled steps in a row. */
  lemma RunThree(maxSpins: nat, s: System, x: Step, y: Step, z: Step)
    requires Enabled(s, maxSpins, x)
    requires Enabled(Next(s, maxSpins, x), maxSpins, y)
    requires Enabled(Next(Next(s, maxSpins, x), maxSpins, y), maxSpins, z)
    ensures Run(s, maxSpins, [x, y, z]) == Next(Next(Next(s, maxSpins, x), maxSpins, y), maxSpins, z)
  {
    hide Enabled, Next;
    assert [x, y, z][..2] == [x, y] && [x, y][..1] == [x] && [x][..0] == [];
    assert Run(s, maxSpins, [x]) == Next(s, maxSpins, x);
    assert Run(s, maxSpins, [x, y]) == Next(Next(s, maxSpins, x), maxSpins, y);
  }

  /** An eager write of one byte, up to before its end. */
  lemma WriteOneByte(s: System, maxSpins: nat, b: byte)
    requires s.writer.Idle? && |s.memory.data| > 0
    ensures Run(s, maxSpins, [WriterLock([b]), StoreLength, StoreByte(0)])
         == s.(ticks := s.ticks + 1, memory := Memory(1, s.memory.data[0 := b]), writer := Writing([b], true, {}))
  {
    assert Below(1) == {0};
    RunThree(maxSpins, s, WriterLock([b]), StoreLength, StoreByte(0));
  }

  /** A whole read of one byte, up to before its validation, while the counter is even. */
  lemma ReadOneByte(s: System, maxSpins: nat)
    requires s.ticks % 2 == 0 && |s.memory.data| > 0 && s.memory.length == 1 && s.readers != []
        && s.readers[0] == Spinning(0) && maxSpins > 0
    ensures Run(s, maxSpins, [LoadCounter(0), LoadLength(0), LoadByte(0, 0)])
         == s.(readers := s.readers[0 := Copying(Counter(s), s.ticks, 1, map[0 := s.memory.data[0]])])
  {
    EvenCounter(s.ticks);
    assert Counter(s) % 2 == 0;
    RunThree(maxSpins, s, LoadCounter(0), LoadLength(0), LoadByte(0, 0));
  }

  /** The writer announces itself with an even counter, so a reader picks up its unfinished write. */
  function EagerRead(b: byte): seq<Step> {
    [WriterLock([b]), StoreLength, StoreByte(0)] + [LoadCounter(0), LoadLength(0), LoadByte(0, 0)]
  }

  lemma OddStartBeforeValidate(s: System, maxSpins: nat, b: byte)
    requires Initial(s) && s.ticks % 2 == 1 && |s.memory.data| > 0 && s.readers != [] && maxSpins > 0
    ensures var t := Run(s, maxSpins, EagerRead(b));
      && t.ticks == s.ticks + 1 && t.committed == s.committed && |t.readers| == |s.readers|
      && t.readers[0] == Copying(Counter(t), t.ticks, 1, map[0 := b])
  {
    hide Run, Counter;
    RunConcat(s, maxSpins, [WriterLock([b]), StoreLength, StoreByte(0)],
        [LoadCounter(0), LoadLength(0), LoadByte(0, 0)]);
    WriteOneByte(s, maxSpins, b);
    ReadOneByte(Run(s, maxSpins, [WriterLock([b]), StoreLength, StoreByte(0)]), maxSpins);
    CounterOfTicks(
      s.(ticks := s.ticks + 1, memory := Memory(1, s.memory.data[0 := b]), writer := Writing([b], true, {})),
      Run(s, maxSpins, EagerRead(b)));
  }

  lemma CounterOfTicks(s: System, t: System)
    requires s.ticks == t.ticks
    ensures Counter(s) == Counter(t)
  {}

  /** From an odd counter, which a process that died while writing leaves behind, some run makes a Read return an
      unfinished write. */
  lemma OddStartIsUnsafe(s: System, maxSpins: nat) returns (steps: seq<Step>)
    requires Initial(s) && s.ticks % 2 == 1 && |s.memory.data| > 0 && s.readers != [] && maxSpins > 0
    ensures NeverLapped(s, maxSpins, steps) && !AllReadsCurrent(s, maxSpins, steps)
  {
    var b: byte := if Answer(s.committed) == Data([0]) then 1 else 0;
    var before := EagerRead(b);
    steps := before + [Validate(0)];
    OddStartBeforeValidate(s, maxSpins, b);
    var t := Run(s, maxSpins, before);
    assert steps[..6] == before;
    forall k | 0 <= k < |steps| ensures NotLapped(Run(s, maxSpins, steps[..k]), steps[k]) {
      if k == 6 {
        assert steps[k] == Validate(0);
      } else {
        assert steps[k] == before[k] && !before[k].Validate?;
      }
    }
    var after := Next(t, maxSpins, Validate(0)).readers[0];
    assert Collected(1, map[0 := b]) == [b];
    assert after == Returned(Data([b]));
    assert !ReadCurrentAt(t, maxSpins, steps[6]);
  }

  /** The protocol is safe exactly for regions whose counter starts even. */
  lemma SafeIffEvenStart(s: System, maxSpins: nat)
    requires Initial(s) && |s.memory.data| > 0 && s.readers != [] && maxSpins > 0
    ensures (forall steps :: NeverLapped(s, maxSpins, steps) ==> AllReadsCurrent(s, maxSpins, steps)) <==>
        s.ticks % 2 == 0
  {
    if s.ticks % 2 == 0 {
      forall steps | NeverLapped(s, maxSpins, steps) ensures AllReadsCurrent(s, maxSpins, steps) {
        EvenStartIsSafe(s, maxSpins, steps);
      }
    } else {
      var steps := OddStartIsUnsafe(s, maxSpins);
    }
  }

  // ---------- the spin loop ----------

  /** Loads the counter, whatever values the writer leaves there, until it is even; loads(k) is what the k-th load
      sees. */
  method ReadBegin(loads: nat -> nat, maxSpins: nat) returns (r: Option<nat>)
    ensures r.Some? ==> exists k :: 0 <= k < maxSpins && r.value == loads(k) && FirstEven(loads, k)
    ensures r.None? ==> forall k: nat :: k < maxSpins ==> loads(k) % 2 == 1
  {
    for i: nat := 0 to maxSpins
      invariant forall k: nat :: k < i ==> loads(k) % 2 == 1
    {
      var sequence := loads(i);
      if sequence % 2 == 0 {
        assert FirstEven(loads, i);
        return Some(sequence);
      }
    }
    return None;
  }

  ghost predicate FirstEven(loads: nat -> nat, k: nat) {
    loads(k) % 2 == 0 && forall j: nat :: j < k ==> loads(j) % 2 == 1
  }
}
