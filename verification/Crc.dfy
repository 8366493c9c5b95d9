/** The transcription CRC of a debug token: polynomial x^16 + x^12 + x^5 + 1 of ITU-T V.41, section 2.
    Registers and bytes are natural numbers, as in the Python source; `<< n`, `& mask` and `^` on them are
    multiplication, remainder or quotient, and `Xor`. */
module Crc {
  import opened Basics

  type word = x: nat | x < 65536

  const INITIAL: word := 0xFFFF
  const POLYNOMIAL: word := 0x1021

  // ---- exclusive or on natural numbers -------------------------------------------

  function Xor(a: nat, b: nat): nat
    decreases a + b
  {
    if a == 0 && b == 0 then 0 else 2 * Xor(a / 2, b / 2) + (a % 2 + b % 2) % 2
  }

  function Pow2(k: nat): (p: nat)
    ensures p > 0
  {
    if k == 0 then 1 else 2 * Pow2(k - 1)
  }

  lemma {:induction false} XorZero(a: nat)
    ensures Xor(a, 0) == a && Xor(0, a) == a
  {
    if a > 0 { XorZero(a / 2); }
  }

  lemma {:induction false} XorCommutes(a: nat, b: nat)
    ensures Xor(a, b) == Xor(b, a)
    decreases a + b
  {
    if a + b > 0 { XorCommutes(a / 2, b / 2); }
  }

  lemma XorBits(a: nat, s: nat, b: nat, t: nat)
    requires s < 2 && t < 2
    ensures Xor(2 * a + s, 2 * b + t) == 2 * Xor(a, b) + if s == t then 0 else 1
  {
    assert (2 * a + s) / 2 == a && (2 * b + t) / 2 == b;
  }

  lemma {:induction false} XorAssociates(a: nat, b: nat, c: nat)
    ensures Xor(Xor(a, b), c) == Xor(a, Xor(b, c))
    decreases a + b + c
  {
    hide Xor;
    if a + b + c == 0 {
      XorZero(0);
    } else {
      var a', s, b', t, c', u := a / 2, a % 2, b / 2, b % 2, c / 2, c % 2;
      XorAssociates(a', b', c');
      XorBits(a', s, b', t);
      XorBits(b', t, c', u);
      XorBits(Xor(a', b'), if s == t then 0 else 1, c', u);
      XorBits(a', s, Xor(b', c'), if t == u then 0 else 1);
    }
  }

  lemma {:induction false} XorIsZero(a: nat, b: nat)
    ensures Xor(a, b) == 0 <==> a == b
    decreases a + b
  {
    if a + b > 0 { XorIsZero(a / 2, b / 2); }
  }

  lemma XorSwaps(a: nat, b: nat, c: nat, d: nat)
    ensures Xor(Xor(a, b), Xor(c, d)) == Xor(Xor(a, c), Xor(b, d))
  {
    XorAssociates(a, b, Xor(c, d));
    XorAssociates(b, c, d);
    XorCommutes(b, c);
    XorAssociates(c, b, d);
    XorAssociates(a, c, Xor(b, d));
  }

  lemma XorDoubles(a: nat, b: nat)
    ensures Xor(2 * a, 2 * b) == 2 * Xor(a, b)
  {
  }

  lemma {:induction false} XorFits(k: nat, x: nat, y: nat)
    requires x < Pow2(k) && y < Pow2(k)
    ensures Xor(x, y) < Pow2(k)
  {
    hide Xor;
    XorZero(x);
    XorZero(y);
    if k == 0 {
      XorBits(0, 1, 0, 0);
      XorBits(0, 1, 0, 1);
      XorZero(0);
    } else {
      XorFits(k - 1, x / 2, y / 2);
      XorBits(x / 2, x % 2, y / 2, y % 2);
    }
  }

  /** A bit above both numbers passes through exclusive or. */
  lemma {:induction false} XorPasses(k: nat, x: nat, y: nat)
    requires x < Pow2(k) && y < Pow2(k)
    ensures Xor(Pow2(k) + x, y) == Pow2(k) + Xor(x, y)
  {
    hide Xor;
    XorZero(x);
    XorZero(y);
    if k == 0 {
      XorBits(0, 1, 0, 0);
      XorBits(0, 1, 0, 1);
      XorZero(0);
    } else {
      XorPasses(k - 1, x / 2, y / 2);
      XorBits(x / 2, x % 2, y / 2, y % 2);
      XorBits(Pow2(k - 1) + x / 2, x % 2, y / 2, y % 2);
    }
  }

  /** The same bit above both numbers cancels. */
  lemma {:induction false} XorCancels(k: nat, x: nat, y: nat)
    requires x < Pow2(k) && y < Pow2(k)
    ensures Xor(Pow2(k) + x, Pow2(k) + y) == Xor(x, y)
  {
    hide Xor;
    XorZero(x);
    XorZero(y);
    if k == 0 {
      XorBits(0, 1, 0, 0);
      XorBits(0, 1, 0, 1);
      XorZero(0);
    } else {
      XorCancels(k - 1, x / 2, y / 2);
      XorBits(x / 2, x % 2, y / 2, y % 2);
      XorBits(Pow2(k - 1) + x / 2, x % 2, Pow2(k - 1) + y / 2, y % 2);
    }
  }

  lemma PowerTable()
    ensures Pow2(14) == 0x4000 && Pow2(15) == 0x8000 && Pow2(16) == 65536
  {
    assert Pow2(4) == 16;
    assert Pow2(8) == 256;
    assert Pow2(12) == 4096;
  }

  // ---- the register ------------------------------------------------------------------

  function Shift(crc: word): word {
    if (crc / 0x8000) % 2 != 0 then Xor(2 * crc, POLYNOMIAL) % 65536 else (2 * crc) % 65536
  }

  function Shifts(crc: word, n: nat): word
    decreases n
  {
    if n == 0 then crc else Shifts(Shift(crc), n - 1)
  }

  function XorWord(a: word, b: word): (r: word)
    ensures r == Xor(a, b)
  {
    PowerTable();
    XorFits(16, a, b);
    Xor(a, b)
  }

  function High(b: byte): word {
    var w: int := b;
    w * 256
  }

  function Seal(high: byte, low: byte): word {
    var h: int := high;
    h * 256 + low
  }

  function Crc(crc: word, data: seq<byte>): word
    decreases |data|
  {
    if data == [] then crc else Crc(Shifts(XorWord(crc, High(data[0])), 8), data[1..])
  }

  lemma {:induction false} CrcConcat(crc: word, a: seq<byte>, b: seq<byte>)
    ensures Crc(crc, a + b) == Crc(Crc(crc, a), b)
    decreases |a|
  {
    if a == [] {
      assert a + b == b;
    } else {
      assert (a + b)[1..] == a[1..] + b;
      CrcConcat(Shifts(XorWord(crc, High(a[0])), 8), a[1..], b);
    }
  }

  lemma CrcSnoc(crc: word, a: seq<byte>, b: byte)
    ensures Crc(crc, a + [b]) == Shifts(XorWord(Crc(crc, a), High(b)), 8)
  {
    CrcConcat(crc, a, [b]);
    assert [b][1..] == [];
  }

  lemma {:induction false} ShiftsSnoc(crc: word, n: nat)
    ensures Shifts(crc, n + 1) == Shift(Shifts(crc, n))
    decreases n
  {
    if n > 0 { ShiftsSnoc(Shift(crc), n - 1); }
  }

  method Crc16(data: seq<byte>) returns (crc: word)
    ensures crc == Crc(INITIAL, data)
  {
    crc := 0xFFFF;
    for i := 0 to |data|
      invariant crc == Crc(INITIAL, data[..i])
    {
      assert data[..i + 1] == data[..i] + [data[i]];
      CrcSnoc(INITIAL, data[..i], data[i]);
      crc := XorWord(crc, High(data[i]));
      ghost var start := crc;
      for bit := 0 to 8
        invariant crc == Shifts(start, bit)
      {
        ShiftsSnoc(start, bit);
        crc := if (crc / 0x8000) % 2 != 0 then Xor(2 * crc, 0x1021) % 65536 else (2 * crc) % 65536;
      }
    }
    assert data[..|data|] == data;
  }

  datatype Check = Payload(bytes: seq<byte>) | TooShort | Mismatch

  predicate Accepts(raw: seq<byte>)
    requires |raw| >= 2
  {
    Seal(raw[|raw| - 2], raw[|raw| - 1]) == Crc(INITIAL, raw[..|raw| - 2])
  }

  /** The check of `main`: the last two bytes must be the CRC of the rest, most significant byte first. */
  method CheckToken(raw: seq<byte>) returns (r: Check)
    ensures r.TooShort? <==> |raw| < 4
    ensures |raw| >= 4 ==> (r.Payload? <==> Accepts(raw))
    ensures r.Payload? ==> r.bytes == raw[..|raw| - 2]
  {
    if |raw| < 4 { return TooShort; }
    var payload, supplied := raw[..|raw| - 2], Seal(raw[|raw| - 2], raw[|raw| - 1]);
    var calculated := Crc16(payload);
    if supplied != calculated { return Mismatch; }
    return Payload(payload);
  }

  // ---- the register is linear and never forgets a difference ---------------------------

  function TopBit(crc: word): bool { crc >= 0x8000 }

  function Below(crc: word): (r: nat)
    ensures r < 0x8000
  {
    if TopBit(crc) then crc - 0x8000 else crc
  }

  function Tap(top: bool): word { if top then POLYNOMIAL else 0 }

  lemma TopBitIsMasked(crc: word)
    ensures (crc / 0x8000) % 2 != 0 <==> TopBit(crc)
    ensures (2 * crc) % 65536 == 2 * Below(crc)
  {
  }

  /** One shift doubles the lower bits and adds the polynomial when the top bit falls out. */
  lemma ShiftByParts(crc: word)
    ensures Shift(crc) == Xor(2 * Below(crc), Tap(TopBit(crc)))
  {
    TopBitIsMasked(crc);
    var low := 2 * Below(crc);
    if TopBit(crc) {
      PowerTable();
      XorFits(16, low, POLYNOMIAL);
      XorPasses(16, low, POLYNOMIAL);
      assert Xor(2 * crc, POLYNOMIAL) == 65536 + Xor(low, POLYNOMIAL);
    } else {
      XorZero(low);
    }
  }

  lemma XorByParts(a: word, b: word)
    ensures Below(XorWord(a, b)) == Xor(Below(a), Below(b))
    ensures TopBit(XorWord(a, b)) <==> TopBit(a) != TopBit(b)
  {
    PowerTable();
    var x, y := Below(a), Below(b);
    XorFits(15, x, y);
    if TopBit(a) && TopBit(b) {
      XorCancels(15, x, y);
    } else if TopBit(a) {
      XorPasses(15, x, y);
    } else if TopBit(b) {
      XorPasses(15, y, x);
      XorCommutes(a, b);
      XorCommutes(x, y);
    }
  }

  lemma TapIsLinear(s: bool, t: bool)
    ensures Tap(s != t) == Xor(Tap(s), Tap(t))
  {
    XorZero(POLYNOMIAL);
    XorIsZero(POLYNOMIAL, POLYNOMIAL);
  }

  lemma ShiftIsLinear(a: word, b: word)
    ensures Shift(XorWord(a, b)) == XorWord(Shift(a), Shift(b))
  {
    ShiftByParts(a);
    ShiftByParts(b);
    ShiftByParts(XorWord(a, b));
    XorByParts(a, b);
    TapIsLinear(TopBit(a), TopBit(b));
    XorDoubles(Below(a), Below(b));
    XorSwaps(2 * Below(a), 2 * Below(b), Tap(TopBit(a)), Tap(TopBit(b)));
  }

  lemma {:induction false} ShiftsAreLinear(a: word, b: word, n: nat)
    ensures Shifts(XorWord(a, b), n) == XorWord(Shifts(a, n), Shifts(b, n))
    decreases n
  {
    if n > 0 {
      ShiftIsLinear(a, b);
      ShiftsAreLinear(Shift(a), Shift(b), n - 1);
    }
  }

  lemma ShiftKeepsNonzero(a: word)
    ensures Shift(a) == 0 <==> a == 0
  {
    ShiftByParts(a);
    XorIsZero(2 * Below(a), Tap(TopBit(a)));
  }

  lemma {:induction false} ShiftsKeepNonzero(a: word, n: nat)
    ensures Shifts(a, n) == 0 <==> a == 0
    decreases n
  {
    if n > 0 {
      ShiftKeepsNonzero(a);
      ShiftsKeepNonzero(Shift(a), n - 1);
    }
  }

  lemma {:induction false} ShiftsAdd(a: word, m: nat, n: nat)
    ensures Shifts(Shifts(a, m), n) == Shifts(a, m + n)
    decreases m
  {
    if m > 0 { ShiftsAdd(Shift(a), m - 1, n); }
  }

  // ---- bit by bit --------------------------------------------------------------------------

  function Bit(bit: bool): word { if bit then 0x8000 else 0 }

  /** The register fed one bit at a time, without any notion of bytes. */
  function BitCrc(crc: word, bits: seq<bool>): word
    decreases |bits|
  {
    if bits == [] then crc else BitCrc(Shift(XorWord(crc, Bit(bits[0]))), bits[1..])
  }

  lemma {:induction false} BitCrcConcat(crc: word, a: seq<bool>, b: seq<bool>)
    ensures BitCrc(crc, a + b) == BitCrc(BitCrc(crc, a), b)
    decreases |a|
  {
    if a == [] {
      assert a + b == b;
    } else {
      assert (a + b)[1..] == a[1..] + b;
      BitCrcConcat(Shift(XorWord(crc, Bit(a[0]))), a[1..], b);
    }
  }

  /** Bits as a number, the first one with weight Pow2(k). */
  function Place(bits: seq<bool>, k: nat): (v: nat)
    requires |bits| <= k + 1
    ensures v < 2 * Pow2(k)
    decreases k
  {
    if bits == [] then 0
    else (if bits[0] then Pow2(k) else 0) + (if k == 0 then 0 else Place(bits[1..], k - 1))
  }

  lemma {:induction false} PlaceDoubles(bits: seq<bool>, k: nat)
    requires |bits| <= k + 1
    ensures Place(bits, k + 1) == 2 * Place(bits, k)
    decreases k
  {
    if bits == [] {
    } else if k == 0 {
      assert bits[1..] == [];
    } else {
      PlaceDoubles(bits[1..], k - 1);
    }
  }

  lemma {:induction false} PlaceIsZero(bits: seq<bool>, k: nat)
    requires |bits| <= k + 1
    ensures Place(bits, k) == 0 <==> true !in bits
    decreases k
  {
    if bits != [] && k > 0 {
      PlaceIsZero(bits[1..], k - 1);
      assert bits == [bits[0]] + bits[1..];
    }
  }

  function TopBits(bits: seq<bool>): word
    requires |bits| <= 16
  {
    PowerTable();
    Place(bits, 15)
  }

  /** The first bit of at most sixteen splits off by exclusive or, and the rest shifts into place. */
  lemma TopBitsSplit(bits: seq<bool>)
    requires 1 <= |bits| <= 16
    ensures Place(bits[1..], 14) < 0x8000
    ensures TopBits(bits) == Xor(Bit(bits[0]), Place(bits[1..], 14))
    ensures Shift(Place(bits[1..], 14)) == TopBits(bits[1..])
  {
    hide Xor, Shift, Pow2;
    PowerTable();
    var rest: word := Place(bits[1..], 14);
    ShiftByParts(rest);
    XorZero(2 * rest);
    XorPasses(15, 0, rest);
    XorZero(rest);
    PlaceDoubles(bits[1..], 14);
  }

  lemma {:induction false} BitCrcIsShifts(crc: word, bits: seq<bool>)
    requires |bits| <= 16
    ensures BitCrc(crc, bits) == Shifts(XorWord(crc, TopBits(bits)), |bits|)
    decreases |bits|
  {
    if bits == [] {
      XorZero(crc);
    } else {
      TopBitsSplit(bits);
      var x, rest: word := XorWord(crc, Bit(bits[0])), Place(bits[1..], 14);
      BitCrcIsShifts(Shift(x), bits[1..]);
      ShiftIsLinear(x, rest);
      XorAssociates(crc, Bit(bits[0]), rest);
    }
  }

  // ---- bytes as bits -----------------------------------------------------------------------

  /** The `n` lowest binary digits of a number, most significant first. */
  function Digits(v: nat, n: nat): (r: seq<bool>)
    ensures |r| == n
  {
    if n == 0 then [] else Digits(v / 2, n - 1) + [v % 2 == 1]
  }

  /** The bits of a message in the order the register takes them. */
  function Bits(data: seq<byte>): (r: seq<bool>)
    ensures |r| == 8 * |data|
  {
    if data == [] then [] else Digits(data[0], 8) + Bits(data[1..])
  }

  lemma {:induction false} PlaceSnoc(bits: seq<bool>, last: bool, k: nat)
    requires |bits| <= k
    ensures Place(bits + [last], k) == Place(bits, k) + if last then Pow2(k - |bits|) else 0
    decreases k
  {
    if bits == [] {
      assert [last][1..] == [];
    } else {
      assert (bits + [last])[1..] == bits[1..] + [last];
      PlaceSnoc(bits[1..], last, k - 1);
    }
  }

  lemma SplitProduct(q: nat, bit: nat, p: nat)
    requires bit < 2
    ensures q * (2 * p) + (if bit == 1 then p else 0) == (2 * q + bit) * p
  {
  }

  lemma {:induction false} PlaceOfDigits(v: nat, n: nat, k: nat)
    requires v < Pow2(n) && n <= k + 1
    ensures Place(Digits(v, n), k) == v * Pow2(k + 1 - n)
    decreases n
  {
    if n > 0 {
      PlaceOfDigits(v / 2, n - 1, k);
      PlaceSnoc(Digits(v / 2, n - 1), v % 2 == 1, k);
      SplitProduct(v / 2, v % 2, Pow2(k + 1 - n));
    }
  }

  lemma ByteAtTop(b: byte)
    ensures TopBits(Digits(b, 8)) == High(b)
  {
    assert Pow2(8) == 256;
    PlaceOfDigits(b, 8, 15);
  }

  /** The byte-wise CRC of the program is the bit-wise one. */
  lemma {:induction false} CrcIsBitCrc(crc: word, data: seq<byte>)
    ensures Crc(crc, data) == BitCrc(crc, Bits(data))
    decreases |data|
  {
    if data != [] {
      BitCrcConcat(crc, Digits(data[0], 8), Bits(data[1..]));
      BitCrcIsShifts(crc, Digits(data[0], 8));
      ByteAtTop(data[0]);
      CrcIsBitCrc(Shifts(XorWord(crc, High(data[0])), 8), data[1..]);
    }
  }

  lemma {:induction false} BitsTellApart(a: seq<byte>, b: seq<byte>)
    requires |a| == |b| && Bits(a) == Bits(b)
    ensures a == b
  {
    if a != [] {
      ByteAtTop(a[0]);
      ByteAtTop(b[0]);
      assert Digits(a[0], 8) == Bits(a)[..8] && Digits(b[0], 8) == Bits(b)[..8];
      assert Bits(a[1..]) == Bits(a)[8..] && Bits(b[1..]) == Bits(b)[8..];
      BitsTellApart(a[1..], b[1..]);
    }
  }

  // ---- the code word -------------------------------------------------------------------------

  /** Feeding two bytes is sixteen shifts of the register combined with those bytes. */
  lemma TwoBytes(crc: word, high: byte, low: byte)
    ensures Crc(crc, [high, low]) == Shifts(XorWord(crc, Seal(high, low)), 16)
  {
    var bits := Digits(high, 8) + Digits(low, 8);
    assert [high, low][1..] == [low] && [low][1..] == [];
    assert Bits([low]) == Digits(low, 8) + [] && Bits([high, low]) == bits;
    CrcIsBitCrc(crc, [high, low]);
    BitCrcIsShifts(crc, bits);
    SealAtTop(high, low);
  }

  lemma {:induction false} PlaceConcat(a: seq<bool>, b: seq<bool>, k: nat)
    requires |a| + |b| <= k + 1 && |a| <= k
    ensures Place(a + b, k) == Place(a, k) + Place(b, k - |a|)
    decreases |a|
  {
    if a == [] {
      assert a + b == b;
    } else {
      assert (a + b)[1..] == a[1..] + b;
      PlaceConcat(a[1..], b, k - 1);
    }
  }

  lemma SealAtTop(high: byte, low: byte)
    ensures TopBits(Digits(high, 8) + Digits(low, 8)) == Seal(high, low)
  {
    assert Pow2(8) == 256 && Pow2(0) == 1;
    PlaceConcat(Digits(high, 8), Digits(low, 8), 15);
    PlaceOfDigits(high, 8, 15);
    PlaceOfDigits(low, 8, 7);
  }

  /** A token passes the check exactly when the CRC of all its bytes, the appended CRC included, is zero. */
  lemma AcceptsIsZero(raw: seq<byte>)
    requires |raw| >= 2
    ensures Accepts(raw) <==> Crc(INITIAL, raw) == 0
  {
    var n := |raw| - 2;
    var calculated, supplied := Crc(INITIAL, raw[..n]), Seal(raw[n], raw[n + 1]);
    assert raw == raw[..n] + [raw[n], raw[n + 1]];
    CrcConcat(INITIAL, raw[..n], [raw[n], raw[n + 1]]);
    TwoBytes(calculated, raw[n], raw[n + 1]);
    ShiftsKeepNonzero(XorWord(calculated, supplied), 16);
    XorIsZero(calculated, supplied);
  }

  /** Appending its CRC to any payload, most significant byte first, gives an accepted token. */
  lemma SealedIsAccepted(payload: seq<byte>)
    ensures var crc := Crc(INITIAL, payload); Accepts(payload + [crc / 256, crc % 256])
  {
    var crc := Crc(INITIAL, payload);
    assert (payload + [crc / 256, crc % 256])[..|payload|] == payload;
  }

  // ---- known answers -----------------------------------------------------------------------

  lemma NoShift(crc: word)
    ensures Shifts(crc, 0) == crc
  {
  }

  lemma LowShift(crc: word, k: nat, v: word)
    requires Shifts(crc, k) == v < 0x8000
    ensures Shifts(crc, k + 1) == 2 * v
  {
    hide Xor, Shifts;
    ShiftsSnoc(crc, k);
  }

  /** The register starts with all bits set, so an empty payload is sealed by two bytes of ones; and a last one, fed
      into an empty register, leaves the polynomial. */
  lemma KnownRegisters()
    ensures Crc(INITIAL, []) == 0xFFFF && Accepts([0xFF, 0xFF])
    ensures Crc(0, [1]) == 0x1021
  {
    hide Xor, Shifts;
    assert [0xFF, 0xFF][..0] == [];
    XorZero(High(1));
    XorZero(POLYNOMIAL);
    NoShift(0x100);
    LowShift(0x100, 0, 0x100);
    LowShift(0x100, 1, 0x200);
    LowShift(0x100, 2, 0x400);
    LowShift(0x100, 3, 0x800);
    LowShift(0x100, 4, 0x1000);
    LowShift(0x100, 5, 0x2000);
    LowShift(0x100, 6, 0x4000);
    ShiftsSnoc(0x100, 7);
    ShiftByParts(0x8000);
    assert Crc(0, [1]) == Shifts(0x100, 8) by {
      assert [1][1..] == [];
      assert Crc(Shifts(XorWord(0, High(1)), 8), []) == Shifts(0x100, 8);
    }
  }

  // ---- error detection ---------------------------------------------------------------------------

  lemma XorInjective(a: word, b: word, c: word)
    requires Xor(a, c) == Xor(b, c)
    ensures a == b
  {
    XorAssociates(a, c, c);
    XorAssociates(b, c, c);
    XorIsZero(c, c);
    XorZero(a);
    XorZero(b);
  }

  lemma {:induction false} ShiftsInjective(a: word, b: word, n: nat)
    requires Shifts(a, n) == Shifts(b, n)
    ensures a == b
  {
    ShiftsAreLinear(a, b, n);
    XorIsZero(Shifts(a, n), Shifts(b, n));
    ShiftsKeepNonzero(XorWord(a, b), n);
    XorIsZero(a, b);
  }

  /** The register never forgets: different registers stay different on the same bits. */
  lemma {:induction false} BitCrcRemembers(a: word, b: word, bits: seq<bool>)
    requires BitCrc(a, bits) == BitCrc(b, bits)
    ensures a == b
    decreases |bits|
  {
    if bits != [] {
      var x, y := XorWord(a, Bit(bits[0])), XorWord(b, Bit(bits[0]));
      BitCrcRemembers(Shift(x), Shift(y), bits[1..]);
      ShiftsInjective(x, y, 1);
      XorInjective(a, b, Bit(bits[0]));
    }
  }

  lemma {:induction false} PlaceInjective(x: seq<bool>, y: seq<bool>, k: nat)
    requires |x| == |y| <= k + 1 && Place(x, k) == Place(y, k)
    ensures x == y
    decreases k
  {
    if x != [] {
      if k > 0 {
        PlaceInjective(x[1..], y[1..], k - 1);
      }
      assert x == [x[0]] + x[1..] && y == [y[0]] + y[1..];
    }
  }

  /** CRC strength, bit by bit: two messages that differ only within sixteen consecutive bits, at any
      position and alignment, leave different registers. */
  lemma BurstChangesRegister(crc: word, before: seq<bool>, x: seq<bool>, y: seq<bool>, after: seq<bool>)
    requires |x| == |y| <= 16 && x != y
    ensures BitCrc(crc, before + x + after) != BitCrc(crc, before + y + after)
  {
    var r := BitCrc(crc, before);
    BitCrcConcat(crc, before + x, after);
    BitCrcConcat(crc, before, x);
    BitCrcConcat(crc, before + y, after);
    BitCrcConcat(crc, before, y);
    if BitCrc(crc, before + x + after) == BitCrc(crc, before + y + after) {
      BitCrcRemembers(BitCrc(r, x), BitCrc(r, y), after);
      BitCrcIsShifts(r, x);
      BitCrcIsShifts(r, y);
      ShiftsInjective(XorWord(r, TopBits(x)), XorWord(r, TopBits(y)), |x|);
      XorCommutes(r, TopBits(x));
      XorCommutes(r, TopBits(y));
      XorInjective(TopBits(x), TopBits(y), r);
      PlaceInjective(x, y, 15);
    }
  }

  /** Any change confined to sixteen consecutive bits of an accepted token is detected. */
  lemma BurstDetected(a: seq<byte>, b: seq<byte>, before: seq<bool>, x: seq<bool>, y: seq<bool>, after: seq<bool>)
    requires |a| >= 2 && |b| >= 2 && |x| == |y| <= 16 && x != y
    ensures Bits(a) == before + x + after && Bits(b) == before + y + after ==> !(Accepts(a) && Accepts(b))
  {
    BurstChangesRegister(INITIAL, before, x, y, after);
    CrcIsBitCrc(INITIAL, a);
    CrcIsBitCrc(INITIAL, b);
    AcceptsIsZero(a);
    AcceptsIsZero(b);
  }

  lemma {:induction false} BitsConcat(a: seq<byte>, b: seq<byte>)
    ensures Bits(a + b) == Bits(a) + Bits(b)
  {
    if a == [] {
      assert a + b == b;
    } else {
      assert (a + b)[1..] == a[1..] + b;
      BitsConcat(a[1..], b);
    }
  }

  /** Any change confined to one byte or to two adjacent bytes, the CRC bytes included, is detected. */
  lemma AdjacentBytesDetected(head: seq<byte>, middle: seq<byte>, middle': seq<byte>, tail: seq<byte>)
    requires |head + middle + tail| >= 2
    requires |middle| == |middle'| <= 2 && middle != middle'
    ensures !(Accepts(head + middle + tail) && Accepts(head + middle' + tail))
  {
    BitsConcat(head + middle, tail);
    BitsConcat(head, middle);
    BitsConcat(head + middle', tail);
    BitsConcat(head, middle');
    if Bits(middle) == Bits(middle') { BitsTellApart(middle, middle'); }
    BurstDetected(head + middle + tail, head + middle' + tail, Bits(head), Bits(middle), Bits(middle'), Bits(tail));
  }

  // ---- parity --------------------------------------------------------------------------------------

  /** Where two bit strings of one length differ. */
  function Difference(x: seq<bool>, y: seq<bool>): seq<bool>
    requires |x| == |y|
  {
    if x == [] then [] else [x[0] != y[0]] + Difference(x[1..], y[1..])
  }

  /** Whether a number has an odd number of binary ones. */
  function Odd(v: nat): bool {
    if v == 0 then false else Odd(v / 2) != (v % 2 == 1)
  }

  function OddBits(bits: seq<bool>): bool {
    if bits == [] then false else bits[0] != OddBits(bits[1..])
  }

  lemma {:induction false} OddOfXor(a: nat, b: nat)
    ensures Odd(Xor(a, b)) == (Odd(a) != Odd(b))
    decreases a + b
  {
    hide Xor, Odd;
    if a + b > 0 {
      OddOfXor(a / 2, b / 2);
      XorBits(a / 2, a % 2, b / 2, b % 2);
      OddStep(a / 2, a % 2);
      OddStep(b / 2, b % 2);
      OddStep(Xor(a / 2, b / 2), if a % 2 == b % 2 then 0 else 1);
    } else {
      XorZero(0);
      OddOfZero();
    }
  }

  lemma OddStep(v: nat, bit: nat)
    requires bit < 2
    ensures Odd(2 * v + bit) == (Odd(v) != (bit == 1))
  {
    assert (2 * v + bit) / 2 == v;
  }

  lemma OddOfTaps()
    ensures Odd(POLYNOMIAL) && Odd(0x8000)
  {
    assert Odd(1) && Odd(2) && Odd(4) && Odd(0x10) && Odd(0x100) && Odd(0x1000);
    assert !Odd(0x81) && !Odd(0x102) && !Odd(0x204) && !Odd(0x408) && !Odd(0x810);
  }

  lemma OddByParts(crc: word)
    ensures Odd(crc) == (TopBit(crc) != Odd(Below(crc)))
  {
    if TopBit(crc) {
      PowerTable();
      XorPasses(15, 0, Below(crc));
      XorZero(Below(crc));
      OddOfXor(0x8000, Below(crc));
      OddOfTaps();
    }
  }

  lemma OddOfDouble(v: nat)
    ensures Odd(2 * v) == Odd(v)
  {
    assert 2 * v / 2 == v;
  }

  /** The polynomial has an even number of terms, so a shift keeps the parity of the register. */
  lemma ShiftKeepsParity(crc: word)
    ensures Odd(Shift(crc)) == Odd(crc)
  {
    hide Odd, Xor, Shift;
    ShiftByParts(crc);
    OddByParts(crc);
    OddOfXor(2 * Below(crc), Tap(TopBit(crc)));
    OddOfDouble(Below(crc));
    OddOfTaps();
    OddOfZero();
  }

  lemma OddOfZero()
    ensures !Odd(0)
  {
  }

  lemma {:induction false} ParityOfBitCrc(crc: word, bits: seq<bool>)
    ensures Odd(BitCrc(crc, bits)) == (Odd(crc) != OddBits(bits))
    decreases |bits|
  {
    if bits != [] {
      var x := XorWord(crc, Bit(bits[0]));
      OddOfTaps();
      OddOfXor(crc, Bit(bits[0]));
      ShiftKeepsParity(x);
      ParityOfBitCrc(Shift(x), bits[1..]);
    }
  }

  lemma {:induction false} OddDifference(x: seq<bool>, y: seq<bool>)
    requires |x| == |y|
    ensures OddBits(Difference(x, y)) == (OddBits(x) != OddBits(y))
  {
    if x != [] {
      assert Difference(x, y)[1..] == Difference(x[1..], y[1..]);
      OddDifference(x[1..], y[1..]);
    }
  }

  /** Any change of an odd number of bits, however far apart, is detected. */
  lemma OddChangeDetected(a: seq<byte>, b: seq<byte>)
    requires |a| == |b| >= 2
    ensures OddBits(Difference(Bits(a), Bits(b))) ==> !(Accepts(a) && Accepts(b))
  {
    AcceptsIsZero(a);
    AcceptsIsZero(b);
    CrcIsBitCrc(INITIAL, a);
    CrcIsBitCrc(INITIAL, b);
    ParityOfBitCrc(INITIAL, Bits(a));
    ParityOfBitCrc(INITIAL, Bits(b));
    OddDifference(Bits(a), Bits(b));
  }
}
