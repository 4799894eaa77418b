/** What the bitwise register computes: the remainder of polynomial division over GF(2). */
module CrcPolynomial {
  import opened Crc32

  /** A polynomial over GF(2), given by its coefficients. */
  type Polynomial = nat -> bool

  /** The generator of section 8 of RFC 1952. */
  const GENERATOR: Polynomial := (i: nat) => i in {32, 26, 23, 22, 16, 12, 11, 10, 8, 7, 5, 4, 2, 1, 0}

  function Add(a: Polynomial, b: Polynomial): Polynomial {
    (i: nat) => a(i) != b(i)
  }

  /** The product with x to the k. */
  function Times(a: Polynomial, k: nat): Polynomial {
    (i: nat) => i >= k && a(i - k)
  }

  /** The sum of the generator's products with these powers of x. */
  function Multiple(shifts: seq<nat>): Polynomial {
    if shifts == [] then (i: nat) => false
    else Add(Multiple(shifts[..|shifts| - 1]), Times(GENERATOR, shifts[|shifts| - 1]))
  }

  ghost predicate Same(a: Polynomial, b: Polynomial) {
    forall i: nat :: a(i) == b(i)
  }

  /** p and r differ by a multiple of the generator, and r is of lower degree. */
  ghost predicate IsRemainder(p: Polynomial, r: Polynomial) {
    (forall i: nat :: r(i) ==> i < 32) && exists shifts :: Same(Add(p, r), Multiple(shifts))
  }

  function Half(c: bv32): bv32 {
    c >> 1
  }

  predicate Odd(c: bv32) {
    c & 1 == 1
  }

  /** The word without its k lowest bits. */
  function Halved(c: bv32, k: nat): bv32 {
    if k == 0 then c else Half(Halved(c, k - 1))
  }

  predicate BitAt(c: bv32, k: nat) {
    Odd(Halved(c, k))
  }

  /** The register read as a polynomial: its lowest bit is the coefficient of x to the 31. */
  function Register(c: bv32): Polynomial {
    (i: nat) => i < 32 && BitAt(c, 31 - i)
  }

  /** A message read as a polynomial: first byte first, and in each byte the lowest bit first. */
  function Message(data: seq<byte>): Polynomial {
    (e: nat) => e < 8 * |data| && BitAt(Widen(data[|data| - 1 - e / 8]), 7 - e % 8)
  }

  /** The message behind the initial register, with room for the remainder. */
  function Dividend(initial: bv32, data: seq<byte>): Polynomial {
    Add(Times(Register(initial), 8 * |data|), Times(Message(data), 32))
  }

  // ---------- bits ----------

  lemma HalfOfXor(a: bv32, b: bv32)
    ensures Half(Xor(a, b)) == Xor(Half(a), Half(b)) && (Odd(Xor(a, b)) <==> Odd(a) != Odd(b))
  {}

  lemma {:induction false} HalvedXor(a: bv32, b: bv32, k: nat)
    ensures Halved(Xor(a, b), k) == Xor(Halved(a, k), Halved(b, k))
  {
    hide Xor, Half, Odd;
    if k > 0 {
      HalvedXor(a, b, k - 1);
      HalfOfXor(Halved(a, k - 1), Halved(b, k - 1));
    }
  }

  lemma BitOfXor(a: bv32, b: bv32, k: nat)
    ensures BitAt(Xor(a, b), k) <==> BitAt(a, k) != BitAt(b, k)
  {
    hide Xor, Half, Odd, Halved;
    HalvedXor(a, b, k);
    HalfOfXor(Halved(a, k), Halved(b, k));
  }

  lemma {:induction false} HalvedOnce(c: bv32, k: nat)
    ensures Halved(Half(c), k) == Halved(c, k + 1)
  {
    hide Half;
    if k > 0 {
      HalvedOnce(c, k - 1);
    }
  }

  lemma EightHalves(c: bv32, k: nat)
    ensures Halved(c, k + 8) == Down8(Halved(c, k))
  {
    var h := Halved(c, k);
    hide Half;
    assert Halved(c, k + 1) == Half(h);
    assert Halved(c, k + 2) == Half(Half(h));
    assert Halved(c, k + 3) == Half(Half(Half(h)));
    assert Halved(c, k + 4) == Half(Half(Half(Half(h))));
    assert Halved(c, k + 5) == Half(Half(Half(Half(Half(h)))));
    assert Halved(c, k + 6) == Half(Half(Half(Half(Half(Half(h))))));
    assert Halved(c, k + 7) == Half(Half(Half(Half(Half(Half(Half(h)))))));
    EightHalvesOf(h);
  }

  lemma EightHalvesOf(h: bv32)
    ensures Half(Half(Half(Half(Half(Half(Half(Half(h)))))))) == Down8(h)
  {}

  lemma NoBitsLeft(c: bv32)
    ensures !BitAt(c, 32)
  {
    EightHalves(c, 0);
    EightHalves(c, 8);
    EightHalves(c, 16);
    EightHalves(c, 24);
    assert Halved(c, 0) == c;
    hide Halved;
    assert Down8(Down8(Down8(Down8(c)))) == 0;
  }

  lemma BitOfByte(b: byte, k: nat)
    ensures k >= 8 ==> !BitAt(Widen(b), k)
  {
    if k >= 8 {
      EightHalves(Widen(b), 0);
      assert Halved(Widen(b), 0) == Widen(b);
      assert Down8(Widen(b)) == 0;
      ZeroStaysZero(Widen(b), k);
    }
  }

  lemma {:induction false} ZeroStaysZero(c: bv32, k: nat)
    requires k >= 8 && Halved(c, 8) == 0
    ensures Halved(c, k) == 0
  {
    if k > 8 {
      ZeroStaysZero(c, k - 1);
      assert Half(0) == 0;
    }
  }

  const POLYNOMIAL: bv32 := 0xEDB8_8320

  lemma CrcBitForm(c: bv32)
    ensures CrcBit(c) == if Odd(c) then Xor(Half(c), POLYNOMIAL) else Half(c)
  {}

  /** The constant of the reflected register holds the generator's lower coefficients. */
  lemma PolynomialBits(i: nat)
    requires i < 32
    ensures BitAt(POLYNOMIAL, 31 - i) <==> GENERATOR(i)
  {
    assert Halved(POLYNOMIAL, 0) == 0xEDB8_8320;
    assert Halved(POLYNOMIAL, 1) == 0x76DC_4190;
    assert Halved(POLYNOMIAL, 2) == 0x3B6E_20C8;
    assert Halved(POLYNOMIAL, 3) == 0x1DB7_1064;
    assert Halved(POLYNOMIAL, 4) == 0x0EDB_8832;
    assert Halved(POLYNOMIAL, 5) == 0x076D_C419;
    assert Halved(POLYNOMIAL, 6) == 0x03B6_E20C;
    assert Halved(POLYNOMIAL, 7) == 0x01DB_7106;
    assert Halved(POLYNOMIAL, 8) == 0x00ED_B883;
    assert Halved(POLYNOMIAL, 9) == 0x0076_DC41;
    assert Halved(POLYNOMIAL, 10) == 0x003B_6E20;
    assert Halved(POLYNOMIAL, 11) == 0x001D_B710;
    assert Halved(POLYNOMIAL, 12) == 0x000E_DB88;
    assert Halved(POLYNOMIAL, 13) == 0x0007_6DC4;
    assert Halved(POLYNOMIAL, 14) == 0x0003_B6E2;
    assert Halved(POLYNOMIAL, 15) == 0x0001_DB71;
    assert Halved(POLYNOMIAL, 16) == 0x0000_EDB8;
    assert Halved(POLYNOMIAL, 17) == 0x0000_76DC;
    assert Halved(POLYNOMIAL, 18) == 0x0000_3B6E;
    assert Halved(POLYNOMIAL, 19) == 0x0000_1DB7;
    assert Halved(POLYNOMIAL, 20) == 0x0000_0EDB;
    assert Halved(POLYNOMIAL, 21) == 0x0000_076D;
    assert Halved(POLYNOMIAL, 22) == 0x0000_03B6;
    assert Halved(POLYNOMIAL, 23) == 0x0000_01DB;
    assert Halved(POLYNOMIAL, 24) == 0x0000_00ED;
    assert Halved(POLYNOMIAL, 25) == 0x0000_0076;
    assert Halved(POLYNOMIAL, 26) == 0x0000_003B;
    assert Halved(POLYNOMIAL, 27) == 0x0000_001D;
    assert Halved(POLYNOMIAL, 28) == 0x0000_000E;
    assert Halved(POLYNOMIAL, 29) == 0x0000_0007;
    assert Halved(POLYNOMIAL, 30) == 0x0000_0003;
    assert Halved(POLYNOMIAL, 31) == 0x0000_0001;
  }

  // ---------- sums ----------

  lemma {:induction false} SumOfMultiples(a: seq<nat>, b: seq<nat>, i: nat)
    ensures Multiple(a + b)(i) <==> Multiple(a)(i) != Multiple(b)(i)
  {
    if b == [] {
      assert a + b == a;
    } else {
      SumOfMultiples(a, b[..|b| - 1], i);
      assert (a + b)[..|a + b| - 1] == a + b[..|b| - 1];
    }
  }

  function Raised(shifts: seq<nat>, k: nat): (r: seq<nat>)
    ensures |r| == |shifts| && forall i :: 0 <= i < |r| ==> r[i] == shifts[i] + k
  {
    seq(|shifts|, i requires 0 <= i < |shifts| => shifts[i] + k)
  }

  lemma {:induction false} TimesMultiple(shifts: seq<nat>, k: nat, i: nat)
    ensures Times(Multiple(shifts), k)(i) <==> Multiple(Raised(shifts, k))(i)
  {
    if shifts != [] {
      TimesMultiple(shifts[..|shifts| - 1], k, i);
      assert Raised(shifts, k)[..|shifts| - 1] == Raised(shifts[..|shifts| - 1], k);
    }
  }

  // ---------- the register divides ----------

  /** One step multiplies by x and subtracts the generator if the degree becomes 32. */
  lemma OneStep(c: bv32, i: nat)
    ensures (Times(Register(c), 1)(i) != Register(CrcBit(c))(i)) <==> BitAt(c, 0) && GENERATOR(i)
  {
    CrcBitForm(c);
    assert Halved(c, 0) == c;
    if i < 32 {
      HalvedOnce(c, 31 - i);
      PolynomialBits(i);
      BitOfXor(Half(c), POLYNOMIAL, 31 - i);
      assert BitAt(Half(c), 31 - i) == BitAt(c, 32 - i);
      assert BitAt(CrcBit(c), 31 - i) <==> (BitAt(c, 32 - i) != (BitAt(c, 0) && GENERATOR(i)));
      if i == 0 {
        NoBitsLeft(c);
      }
    }
    hide BitAt, CrcBit;
  }

  function Stepped(c: bv32, n: nat): bv32 {
    if n == 0 then c else CrcBit(Stepped(c, n - 1))
  }

  /** The quotient of n steps. */
  function Quotient(c: bv32, n: nat): seq<nat> {
    if n == 0 then []
    else Raised(Quotient(c, n - 1), 1) + if BitAt(Stepped(c, n - 1), 0) then [0] else []
  }

  lemma MaybeOne(taken: bool, i: nat)
    ensures Multiple(if taken then [0] else [])(i) <==> taken && GENERATOR(i)
  {
    assert [0][..0] == [];
  }

  lemma TimesNext(a: Polynomial, n: nat, i: nat)
    ensures Times(a, n + 1)(i) <==> i > 0 && Times(a, n)(i - 1)
  {}

  lemma {:induction false} Steps(c: bv32, n: nat, i: nat)
    ensures (Times(Register(c), n)(i) != Register(Stepped(c, n))(i)) <==> Multiple(Quotient(c, n))(i)
  {
    hide CrcBit, BitAt, Register, GENERATOR, Multiple;
    if n == 0 {
      NoMultiple(i);
    } else {
      var q, before := Quotient(c, n - 1), Stepped(c, n - 1);
      OneStep(before, i);
      TimesMultiple(q, 1, i);
      MaybeOne(BitAt(before, 0), i);
      SumOfMultiples(Raised(q, 1), if BitAt(before, 0) then [0] else [], i);
      TimesNext(Register(c), n - 1, i);
      TimesNext(Register(before), 0, i);
      TimesNext(Multiple(q), 0, i);
      if i > 0 {
        Steps(c, n - 1, i - 1);
        TimesNone(Register(before), i - 1);
        TimesNone(Multiple(q), i - 1);
      }
      hide Times, Add;
    }
  }

  lemma NoMultiple(i: nat)
    ensures !Multiple([])(i)
  {}

  lemma TimesNone(a: Polynomial, i: nat)
    ensures Times(a, 0)(i) <==> a(i)
  {}

  lemma EightSteps(c: bv32)
    ensures CrcBit8(c) == Stepped(c, 8)
  {
    hide CrcBit;
    assert Stepped(c, 1) == CrcBit(c);
    assert Stepped(c, 2) == CrcBit2(c);
    assert Stepped(c, 3) == CrcBit(CrcBit2(c));
    assert Stepped(c, 4) == CrcBit4(c);
    assert Stepped(c, 5) == CrcBit(CrcBit4(c));
    assert Stepped(c, 6) == CrcBit2(CrcBit4(c));
    assert Stepped(c, 7) == CrcBit(CrcBit2(CrcBit4(c)));
  }

  /** A byte enters the register as the eight highest coefficients. */
  lemma ByteEnters(r: bv32, b: byte, i: nat)
    ensures Register(Xor(r, Widen(b)))(i) <==> Register(r)(i) != Times(Message([b]), 24)(i)
  {
    if i < 32 {
      BitOfXor(r, Widen(b), 31 - i);
      BitOfByte(b, 31 - i);
    }
    hide BitAt;
  }

  /** One byte more raises the message by eight. */
  lemma MessageGrows(data: seq<byte>, b: byte, e: nat)
    ensures Message(data + [b])(e) <==> Times(Message(data), 8)(e) != Message([b])(e)
  {
    hide BitAt;
    var more := data + [b];
    if e < 8 {
      assert e / 8 == 0 && more[|more| - 1] == b;
    } else if e < 8 * |more| {
      assert (e - 8) / 8 == e / 8 - 1 && (e - 8) % 8 == e % 8;
      assert more[|more| - 1 - e / 8] == data[|data| - 1 - (e - 8) / 8];
    }
  }

  /** What the register has divided out after a message. */
  function QuotientOf(r: bv32, data: seq<byte>): seq<nat> {
    if data == [] then []
    else
      var init, b := data[..|data| - 1], data[|data| - 1];
      Raised(QuotientOf(r, init), 8) + Quotient(Xor(CrcUpdate(r, init), Widen(b)), 8)
  }

  lemma DividendGrows(r: bv32, data: seq<byte>, b: byte, i: nat)
    ensures Dividend(r, data + [b])(i) <==> Times(Dividend(r, data), 8)(i) != Times(Message([b]), 32)(i)
  {
    hide Register, Message;
    if i >= 32 {
      MessageGrows(data, b, i - 32);
    }
  }

  lemma ByteEntersHigh(r: bv32, b: byte, i: nat)
    ensures Times(Register(Xor(r, Widen(b))), 8)(i) <==> Times(Register(r), 8)(i) != Times(Message([b]), 32)(i)
  {
    hide Register, Message;
    if i >= 8 {
      ByteEnters(r, b, i - 8);
    }
  }

  /** A division so far, raised by eight. */
  lemma RaisedDivision(d: Polynomial, r: Polynomial, m: Polynomial, i: nat)
    requires i >= 8 ==> ((d(i - 8) != r(i - 8)) <==> m(i - 8))
    ensures (Times(d, 8)(i) != Times(r, 8)(i)) <==> Times(m, 8)(i)
  {}

  /** The division of one byte more. */
  lemma ByteDivides(before: bv32, b: byte, i: nat)
    ensures var entered := Xor(before, Widen(b));
      (Times(Register(before), 8)(i) != Times(Message([b]), 32)(i)) != Register(CrcByte(before, b))(i)
      <==> Multiple(Quotient(entered, 8))(i)
  {
    hide CrcBit8, Register, Multiple, Quotient, Message, Xor, Widen, Stepped;
    ByteEntersHigh(before, b, i);
    EightSteps(Xor(before, Widen(b)));
    Steps(Xor(before, Widen(b)), 8, i);
    hide Times;
  }

  lemma {:induction false} UpdateDivides(r: bv32, data: seq<byte>, i: nat)
    ensures (Dividend(r, data)(i) != Register(CrcUpdate(r, data))(i)) <==> Multiple(QuotientOf(r, data))(i)
  {
    if data == [] {
      NothingDivided(r, i);
    } else {
      hide CrcByte, Register, Multiple, Quotient, Message, Dividend, Times;
      var init, b := data[..|data| - 1], data[|data| - 1];
      assert data == init + [b];
      var before := CrcUpdate(r, init);
      if i >= 8 {
        UpdateDivides(r, init, i - 8);
      }
      RaisedDivision(Dividend(r, init), Register(before), Multiple(QuotientOf(r, init)), i);
      TimesMultiple(QuotientOf(r, init), 8, i);
      SumOfMultiples(Raised(QuotientOf(r, init), 8), Quotient(Xor(before, Widen(b)), 8), i);
      DividendGrows(r, init, b, i);
      ByteDivides(before, b, i);
      assert QuotientOf(r, data) == Raised(QuotientOf(r, init), 8) + Quotient(Xor(before, Widen(b)), 8);
      hide QuotientOf, Xor, Widen;
    }
  }

  lemma NothingDivided(r: bv32, i: nat)
    ensures Dividend(r, [])(i) <==> Register(CrcUpdate(r, []))(i)
    ensures !Multiple(QuotientOf(r, []))(i)
  {
    hide BitAt;
  }

  /** The register is the remainder of the message behind its initial value, divided by the generator. */
  lemma RegisterIsRemainder(r: bv32, data: seq<byte>)
    ensures IsRemainder(Dividend(r, data), Register(CrcUpdate(r, data)))
  {
    forall i: nat
      ensures Add(Dividend(r, data), Register(CrcUpdate(r, data)))(i) <==> Multiple(QuotientOf(r, data))(i)
    {
      UpdateDivides(r, data, i);
    }
    hide Dividend, CrcUpdate, Multiple, QuotientOf, BitAt;
    assert Same(Add(Dividend(r, data), Register(CrcUpdate(r, data))), Multiple(QuotientOf(r, data)));
  }

  /** The checksum is the complement of the remainder for an initial register of ones. */
  lemma ChecksumIsRemainder(data: seq<byte>)
    ensures IsRemainder(Dividend(0xFFFF_FFFF, data), Register(Xor(ChecksumIEEE(data), 0xFFFF_FFFF)))
  {
    RegisterIsRemainder(0xFFFF_FFFF, data);
    var c := CrcUpdate(0xFFFF_FFFF, data);
    assert Xor(Xor(c, 0xFFFF_FFFF), 0xFFFF_FFFF) == c;
  }

  // ---------- remainders are unique ----------

  ghost predicate Zero(p: Polynomial) {
    forall i: nat :: !p(i)
  }

  /** Of degree 32 or more. */
  ghost predicate High(p: Polynomial) {
    exists i: nat :: i >= 32 && p(i)
  }

  lemma SameDegree(p: Polynomial, q: Polynomial)
    requires Same(p, q)
    ensures (Zero(p) <==> Zero(q)) && (High(p) <==> High(q))
  {
    if i: nat :| i >= 32 && p(i) {
      assert q(i);
    }
    if i: nat :| i >= 32 && q(i) {
      assert p(i);
    }
  }

  /** A nonzero multiple of the generator has degree 32 or more. */
  lemma {:induction false} MultipleIsLarge(shifts: seq<nat>)
    ensures Zero(Multiple(shifts)) || High(Multiple(shifts))
    decreases |shifts|
  {
    if shifts != [] {
      var m := Largest(shifts);
      var before, after := shifts[..m], shifts[m + 1..];
      assert shifts == before + [shifts[m]] + after;
      if shifts[m] in before || shifts[m] in after {
        var less := WithoutPair(shifts, m);
        hide Multiple, Zero, High;
        MultipleIsLarge(less);
        SameDegree(Multiple(less), Multiple(shifts));
      } else {
        var top := shifts[m] + 32;
        TopIsFree(before, shifts[m]);
        TopIsFree(after, shifts[m]);
        SumOfMultiples(before, [shifts[m]], top);
        SumOfMultiples(before + [shifts[m]], after, top);
        OneMultiple(shifts[m], top);
        hide Multiple;
        assert Multiple(shifts)(top);
      }
    }
  }

  lemma OneMultiple(m: nat, i: nat)
    ensures Multiple([m])(i) <==> i >= m && GENERATOR(i - m)
  {
    assert [m][..0] == [];
  }

  lemma {:induction false} Largest(shifts: seq<nat>) returns (m: nat)
    requires shifts != []
    ensures m < |shifts| && forall i :: 0 <= i < |shifts| ==> shifts[i] <= shifts[m]
  {
    m := 0;
    for k := 1 to |shifts|
      invariant m < |shifts| && forall i :: 0 <= i < k ==> shifts[i] <= shifts[m]
    {
      if shifts[k] > shifts[m] {
        m := k;
      }
    }
  }

  lemma {:induction false} TopIsFree(shifts: seq<nat>, m: nat)
    requires forall i :: 0 <= i < |shifts| ==> shifts[i] < m
    ensures !Multiple(shifts)(m + 32)
  {
    if shifts != [] {
      TopIsFree(shifts[..|shifts| - 1], m);
    }
  }

  /** Two equal powers cancel. */
  lemma WithoutPair(shifts: seq<nat>, m: nat) returns (less: seq<nat>)
    requires m < |shifts| && (shifts[m] in shifts[..m] || shifts[m] in shifts[m + 1..])
    ensures |less| < |shifts| && Same(Multiple(less), Multiple(shifts))
  {
    var x := shifts[m];
    var j, k;
    if x in shifts[..m] {
      j, k :| 0 <= j < m && k == m && shifts[j] == x;
    } else {
      var l :| 0 <= l < |shifts[m + 1..]| && shifts[m + 1..][l] == x;
      j, k := m, m + 1 + l;
    }
    var a, b, c := shifts[..j], shifts[j + 1..k], shifts[k + 1..];
    assert shifts == a + [x] + b + [x] + c;
    less := a + b + c;
    forall i: nat ensures Multiple(less)(i) == Multiple(shifts)(i) {
      hide Multiple;
      SumOfMultiples(a, b, i);
      SumOfMultiples(a + b, c, i);
      SumOfMultiples(a, [x], i);
      SumOfMultiples(a + [x], b, i);
      SumOfMultiples(a + [x] + b, [x], i);
      SumOfMultiples(a + [x] + b + [x], c, i);
    }
  }

  /** A polynomial has one remainder. */
  lemma RemainderIsUnique(p: Polynomial, r: Polynomial, s: Polynomial)
    requires IsRemainder(p, r) && IsRemainder(p, s)
    ensures Same(r, s)
  {
    var a :| Same(Add(p, r), Multiple(a));
    var b :| Same(Add(p, s), Multiple(b));
    forall i: nat ensures Multiple(a + b)(i) <==> r(i) != s(i) {
      SumOfMultiples(a, b, i);
      assert Add(p, r)(i) == Multiple(a)(i) && Add(p, s)(i) == Multiple(b)(i);
    }
    MultipleIsLarge(a + b);
    hide Multiple;
    forall i: nat ensures r(i) == s(i) {
      assert !Multiple(a + b)(i);
    }
  }

  // ---------- the check value ----------

  const DIGITS: seq<byte> := [0x31, 0x32, 0x33, 0x34, 0x35, 0x36, 0x37, 0x38, 0x39]

  /** The registers between the digits. */
  const REGISTERS: seq<bv32> :=
    [0xFFFF_FFFF, 0x7C23_1048, 0xB0AC_BB32, 0x77B7_9C2D, 0x641C_1F5C, 0x340A_C5E3, 0xF68D_2C9E, 0xAFFC_9660,
     0x651F_2550, 0x340B_C6D9]

  lemma CheckSteps(k: nat)
    requires k < 9
    ensures CrcByte(REGISTERS[k], DIGITS[k]) == REGISTERS[k + 1]
  {}

  lemma {:induction false} DigitsRead(k: nat)
    requires k <= 9
    ensures CrcUpdate(0xFFFF_FFFF, DIGITS[..k]) == REGISTERS[k]
  {
    if k > 0 {
      hide CrcByte;
      DigitsRead(k - 1);
      CheckSteps(k - 1);
      UpdateOne(0xFFFF_FFFF, DIGITS, k - 1);
    }
  }

  /** The checksum of the nine bytes of "123456789". */
  lemma CheckValue()
    ensures ChecksumIEEE(DIGITS) == 0xCBF4_3926
  {
    DigitsRead(9);
    hide CrcUpdate;
    assert DIGITS[..9] == DIGITS;
  }
}
