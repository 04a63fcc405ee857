/** `cdb_hash` (dba/libcdb/cdb.c:67-79) in the operators of the source: shifts and
    exclusive ors of 32-bit words, and sums modulo 2^32. */
module CdbHash {
  import opened CdbFormat

  // ---- words and their binary digits

  function Digit(n: nat): bv32 {
    if n % 2 == 1 then 1 else 0
  }

  /** The 32-bit word with the binary digits of `n`; further digits are cut off. */
  function Bits(n: nat): bv32 {
    if n == 0 then 0 else (Bits(n / 2) << 1) | Digit(n)
  }

  /** The number of the lowest `k` digits of a word. */
  function LowDigits(w: bv32, k: nat): (n: nat)
    ensures n < Power2(k)
  {
    if k == 0 then 0 else (if w & 1 == 1 then 1 else 0) + 2 * LowDigits(w >> 1, k - 1)
  }

  /** The number whose binary digits stand in a word. */
  function Number(w: bv32): Uint32 {
    Powers();
    LowDigits(w, 32)
  }

  lemma Powers()
    ensures Power2(5) == 32 && Power2(8) == 0x100 && Power2(24) == 0x100_0000
    ensures Power2(31) == 0x8000_0000 && Power2(32) == WORD
  {
    assert Power2(8) == 0x100;
    assert Power2(16) == 0x1_0000;
    assert Power2(24) == 0x100_0000;
  }

  function Shifted(w: bv32, k: nat): bv32 {
    if k == 0 then w else Shifted(w, k - 1) << 1
  }

  lemma {:induction false} BitsUnfold(n: nat)
    ensures Bits(n) == (Bits(n / 2) << 1) | Digit(n)
  {
  }

  lemma ShiftedDigit(x: bv32, d: bv32, b: bv32)
    requires x & b == 0 && d <= 1
    ensures ((x << 1) | d) & (b << 1) == 0
  {
  }

  /** A number of `k` digits leaves the next one free. */
  lemma {:induction false} NextDigitFree(n: nat, k: nat)
    requires n < Power2(k)
    ensures Bits(n) & Shifted(1, k) == 0
  {
    if k > 0 {
      NextDigitFree(n / 2, k - 1);
      BitsUnfold(n);
      ShiftedDigit(Bits(n / 2), Digit(n), Shifted(1, k - 1));
    }
  }

  lemma DropDigit(x: bv32, d: bv32)
    requires d <= 1 && x & 0x8000_0000 == 0
    ensures ((x << 1) | d) >> 1 == x
  {
  }

  lemma KeepDigit(x: bv32, d: bv32)
    requires d <= 1
    ensures ((x << 1) | d) & 1 == d
  {
  }

  lemma TopDigit()
    ensures Shifted(1, 31) == 0x8000_0000
  {
    assert Shifted(1, 8) == 0x100;
    assert Shifted(1, 16) == 0x1_0000;
    assert Shifted(1, 24) == 0x100_0000;
  }

  lemma {:induction false} TopDigitFree(n: nat)
    requires n < 0x8000_0000
    ensures Bits(n) & 0x8000_0000 == 0
  {
    Powers();
    TopDigit();
    NextDigitFree(n, 31);
  }

  lemma {:induction false} RestOfBits(n: nat)
    requires n < WORD
    ensures Bits(n) >> 1 == Bits(n / 2)
  {
    TopDigitFree(n / 2);
    DropDigit(Bits(n / 2), Digit(n));
    BitsUnfold(n);
  }

  lemma {:induction false} LastDigit(n: nat)
    ensures Bits(n) & 1 == Digit(n)
  {
    KeepDigit(Bits(n / 2), Digit(n));
    BitsUnfold(n);
  }

  lemma {:induction false} LowDigitsOfBits(n: nat, k: nat)
    requires n < Power2(k) && n < WORD
    ensures LowDigits(Bits(n), k) == n
  {
    if k > 0 {
      RestOfBits(n);
      LastDigit(n);
      LowDigitsOfBits(n / 2, k - 1);
    }
  }

  /** A word of the C program and its digits determine each other. */
  lemma {:induction false} NumberOfBits(n: Uint32)
    ensures Number(Bits(n)) == n
  {
    Powers();
    LowDigitsOfBits(n, 32);
  }

  // ---- the operators

  lemma JoinedDigit(x: bv32, y: bv32, d: bv32)
    ensures ((x | y) << 1) | d == (x << 1) | ((y << 1) | d)
  {
  }

  lemma Halves(n: nat, q: nat, p: nat, r: nat)
    requires n == q * (2 * p) + r && r < 2 * p
    ensures n / 2 == q * p + r / 2 && n % 2 == r % 2 && r / 2 < p
  {
    assert q * (2 * p) == 2 * (q * p);
  }

  lemma {:induction false} JoinedUnfold(n: nat, r: nat, x: bv32)
    requires Bits(n / 2) == x | Bits(r / 2) && n % 2 == r % 2
    ensures Bits(n) == (x << 1) | Bits(r)
  {
    BitsUnfold(n);
    BitsUnfold(r);
    JoinedDigit(x, Bits(r / 2), Digit(r));
  }

  lemma JoinedStep(n: nat, r: nat, w: bv32, k: nat)
    requires Bits(n / 2) == Shifted(w, k) | Bits(r / 2) && n % 2 == r % 2
    ensures Bits(n) == Shifted(w, k + 1) | Bits(r)
  {
    JoinedUnfold(n, r, Shifted(w, k));
  }

  lemma {:induction false} JoinedWithNothing(w: bv32)
    ensures Shifted(w, 0) | Bits(0) == w
  {
  }

  lemma {:induction false} BitsOfJoined(n: nat, q: nat, r: nat, w: bv32, k: nat)
    requires n == q * Power2(k) + r && r < Power2(k) && w == Bits(q)
    ensures Bits(n) == Shifted(w, k) | Bits(r)
    decreases k, 1
  {
    if k == 0 {
      JoinedWithNothing(w);
    } else {
      Halves(n, q, Power2(k - 1), r);
      NextJoined(n, q, r, w, k - 1);
    }
  }

  lemma {:induction false} NextJoined(n: nat, q: nat, r: nat, w: bv32, k: nat)
    requires n / 2 == q * Power2(k) + r / 2 && r / 2 < Power2(k) && n % 2 == r % 2 && w == Bits(q)
    ensures Bits(n) == Shifted(w, k + 1) | Bits(r)
    decreases k, 2
  {
    BitsOfJoined(n / 2, q, r / 2, w, k);
    JoinedStep(n, r, w, k);
  }

  lemma TwoShifts(w: bv32, k: nat)
    ensures Shifted(w, k + 2) == Shifted(w, k) << 2
  {
  }

  lemma FourShifts(w: bv32, k: nat)
    ensures Shifted(w, k + 4) == Shifted(w, k) << 4
  {
    TwoShifts(w, k);
    TwoShifts(w, k + 2);
  }

  lemma EightShifts(w: bv32, k: nat)
    ensures Shifted(w, k + 8) == Shifted(w, k) << 8
  {
    FourShifts(w, k);
    FourShifts(w, k + 4);
  }

  lemma {:induction false} ShiftedOut(w: bv32)
    ensures Shifted(w, 32) == 0
  {
    EightShifts(w, 0);
    EightShifts(w, 8);
    EightShifts(w, 16);
    EightShifts(w, 24);
  }

  lemma {:induction false} ShiftedByFive(w: bv32)
    ensures Shifted(w, 5) == w << 5
  {
    FourShifts(w, 0);
  }

  /** Digits beyond the 32nd do not count. */
  lemma {:induction false} BitsModulo(n: nat)
    ensures Bits(n) == Bits(n % WORD)
  {
    Powers();
    ShiftedOut(Bits(n / WORD));
    BitsOfJoined(n, n / WORD, n % WORD, Bits(n / WORD), 32);
  }

  /** Shifting by five is multiplying by 32. */
  lemma {:induction false} BitsOfShift(h: nat)
    ensures Bits(32 * h) == Bits(h) << 5
  {
    Powers();
    ShiftedByFive(Bits(h));
    BitsOfJoined(32 * h, h, 0, Bits(h), 5);
  }

  /** `h << 5`. */
  function ShiftFive(h: Uint32): Uint32 {
    Number(Bits(h) << 5)
  }

  lemma ShiftFiveMultiplies(h: Uint32)
    ensures ShiftFive(h) == 32 * h % WORD
  {
    BitsOfShift(h);
    BitsModulo(32 * h);
    NumberOfBits(32 * h % WORD);
  }

  /** `a ^ b`. */
  function XorWords(a: Uint32, b: Uint32): Uint32 {
    Number(Bits(a) ^ Bits(b))
  }

  lemma XorDigit(x: bv32, y: bv32, i: bv32, j: bv32)
    requires i <= 1 && j <= 1
    ensures ((x << 1) | i) ^ ((y << 1) | j) == ((x ^ y) << 1) | (i ^ j)
  {
  }

  lemma XorOfDigits(n: nat, a: nat, b: nat)
    requires n % 2 == (a + b) % 2
    ensures Digit(n) == Digit(a) ^ Digit(b)
  {
  }

  lemma XorJoined(x: bv32, y: bv32, n: nat, a: nat, b: nat)
    requires n % 2 == (a + b) % 2
    ensures ((x << 1) | Digit(a)) ^ ((y << 1) | Digit(b)) == ((x ^ y) << 1) | Digit(n)
  {
    XorDigit(x, y, Digit(a), Digit(b));
    XorOfDigits(n, a, b);
  }

  lemma {:induction false} XorUnfold(n: nat, a: nat, b: nat)
    requires Bits(n / 2) == Bits(a / 2) ^ Bits(b / 2) && n % 2 == (a + b) % 2
    ensures Bits(n) == Bits(a) ^ Bits(b)
  {
    XorJoined(Bits(a / 2), Bits(b / 2), n, a, b);
    BitsUnfold(n);
    BitsUnfold(a);
    BitsUnfold(b);
  }

  lemma {:induction false} BitsOfXor(a: nat, b: nat, k: nat)
    requires a < Power2(k) && b < Power2(k)
    ensures Bits(XorBits(a, b, k)) == Bits(a) ^ Bits(b)
  {
    if k > 0 {
      BitsOfXor(a / 2, b / 2, k - 1);
      XorUnfold(XorBits(a, b, k), a, b);
    }
  }

  lemma {:induction false} XorWithZero(a: nat, k: nat)
    requires a < Power2(k)
    ensures XorBits(a, 0, k) == a
  {
    if k > 0 {
      XorWithZero(a / 2, k - 1);
    }
  }

  /** A short number meets the lowest digits only. */
  lemma {:induction false} XorOfParts(n: nat, high: nat, low: nat, b: nat, k: nat, m: nat)
    requires n == high * Power2(k) + low && low < Power2(k) && b < Power2(k) && high < Power2(m)
    ensures XorBits(n, b, k + m) == high * Power2(k) + XorBits(low, b, k)
    decreases k, 1
  {
    if k == 0 {
      assert Power2(k) == 1 && n == high && b == 0;
      XorWithZero(high, m);
    } else {
      Halves(n, high, Power2(k - 1), low);
      Doubled(high, Power2(k - 1));
      NextParts(n, high * Power2(k - 1), high, low, b, k - 1, m);
    }
  }

  lemma {:induction false} NextParts(n: nat, half: nat, high: nat, low: nat, b: nat, k: nat, m: nat)
    requires half == high * Power2(k) && n / 2 == half + low / 2 && n % 2 == low % 2
    requires low / 2 < Power2(k) && b / 2 < Power2(k) && high < Power2(m)
    ensures XorBits(n, b, k + 1 + m) == 2 * half + XorBits(low, b, k + 1)
    decreases k, 2
  {
    XorOfParts(n / 2, high, low / 2, b / 2, k, m);
    XorCarry(n, low, b, k + m, k, half);
  }

  lemma {:induction false} XorCarry(n: nat, low: nat, b: nat, j: nat, k: nat, half: nat)
    requires n % 2 == low % 2
    requires XorBits(n / 2, b / 2, j) == half + XorBits(low / 2, b / 2, k)
    ensures XorBits(n, b, j + 1) == 2 * half + XorBits(low, b, k + 1)
  {
    SameParity(n, low, b);
  }

  lemma SameParity(n: nat, low: nat, b: nat)
    requires n % 2 == low % 2
    ensures (n + b) % 2 == (low + b) % 2
  {
  }

  lemma Doubled(a: nat, b: nat)
    ensures a * (2 * b) == 2 * (a * b)
  {
  }

  lemma HashStepOfDigits(g: Uint32, c: Byte)
    ensures HashStep(g, c) == XorBits(g, c, 32)
  {
    Powers();
    XorOfParts(g, g / 256, g % 256, c, 8, 24);
  }

  lemma HashStepIsXor(g: Uint32, c: Byte)
    ensures HashStep(g, c) == XorWords(g, c)
  {
    HashStepOfDigits(g, c);
    XorOfWords(g, c, HashStep(g, c));
  }

  lemma XorOfWords(g: Uint32, c: Uint32, x: Uint32)
    requires x == XorBits(g, c, 32)
    ensures x == XorWords(g, c)
  {
    Powers();
    BitsOfXor(g, c, 32);
    NumberOfBits(x);
  }

  /** The loop of `cdb_hash`. */
  function HashLoop(h: Uint32, key: seq<Byte>): Uint32
    decreases |key|
  {
    if key == [] then h else HashLoop(XorWords((h + ShiftFive(h)) % WORD, key[0]), key[1..])
  }

  lemma TimesThirtyThree(h: Uint32, s: Uint32)
    requires s == 32 * h % WORD
    ensures (h + s) % WORD == 33 * h % WORD
  {
    var q := 32 * h / WORD;
    assert 33 * h == WORD * q + (h + s);
  }

  lemma HashRound(h: Uint32, c: Byte)
    ensures HashStep(33 * h % WORD, c) == XorWords((h + ShiftFive(h)) % WORD, c)
  {
    ShiftFiveMultiplies(h);
    TimesThirtyThree(h, ShiftFive(h));
    HashStepIsXor(33 * h % WORD, c);
  }

  lemma {:induction false} HashFromIsLoop(h: Uint32, key: seq<Byte>)
    ensures HashFrom(h, key) == HashLoop(h, key)
    decreases |key|
  {
    if key != [] {
      HashRound(h, key[0]);
      HashFromIsLoop(HashStep(33 * h % WORD, key[0]), key[1..]);
    }
  }

  /** The hash of the file format is what that loop computes from its start value. */
  lemma {:induction false} HashIsLoop(key: seq<Byte>)
    ensures Hash(key) == HashLoop(5381, key)
  {
    HashFromIsLoop(5381, key);
  }

  /** Known hashes, of "1" and of "one". */
  lemma KnownHashes()
    ensures Hash([0x31]) == 177556
    ensures Hash([0x6f, 0x6e, 0x65]) == 193420161
  {
    HashOf1(5381, 0x31, []);
    HashOfO(5381, 0x6f, [0x6e, 0x65]);
    HashOfOn(177610, 0x6e, [0x65]);
    HashOfOne(5861220, 0x65, []);
    assert [0x6f as Byte, 0x6e, 0x65] == [0x6f] + [0x6e, 0x65] && [0x6e as Byte, 0x65] == [0x6e] + [0x65];
    assert [0x31 as Byte] == [0x31] + [] && [0x65 as Byte] == [0x65] + [];
  }

  lemma HashOfOneByte(key: seq<Byte>)
    requires |key| == 1 && key[0] == 0x31
    ensures Hash(key) == 177556
  {
    HashOf1(5381, 0x31, []);
    assert key == [0x31] + [];
  }

  lemma {:induction false} HashOf1(h: Uint32, c: Byte, rest: seq<Byte>)
    requires h == 5381 && c == 0x31
    ensures HashFrom(h, [c] + rest) == HashFrom(177556, rest)
  {
    var g := 33 * h % WORD;
    var low := g % 256;
    Xora531(low, c);
    Round(h, c, g, 0x94, 177556, rest);
  }

  lemma {:induction false} HashOfO(h: Uint32, c: Byte, rest: seq<Byte>)
    requires h == 5381 && c == 0x6f
    ensures HashFrom(h, [c] + rest) == HashFrom(177610, rest)
  {
    var g := 33 * h % WORD;
    var low := g % 256;
    Xora56f(low, c);
    Round(h, c, g, 0xca, 177610, rest);
  }

  lemma {:induction false} HashOfOn(h: Uint32, c: Byte, rest: seq<Byte>)
    requires h == 177610 && c == 0x6e
    ensures HashFrom(h, [c] + rest) == HashFrom(5861220, rest)
  {
    var g := 33 * h % WORD;
    var low := g % 256;
    Xor0a6e(low, c);
    Round(h, c, g, 0x64, 5861220, rest);
  }

  lemma {:induction false} HashOfOne(h: Uint32, c: Byte, rest: seq<Byte>)
    requires h == 5861220 && c == 0x65
    ensures HashFrom(h, [c] + rest) == HashFrom(193420161, rest)
  {
    var g := 33 * h % WORD;
    var low := g % 256;
    Xore465(low, c);
    Round(h, c, g, 0x81, 193420161, rest);
  }

  lemma {:induction false} Round(h: Uint32, c: Byte, g: Uint32, x: Byte, next: Uint32, rest: seq<Byte>)
    requires g == 33 * h % WORD && x == Xor(g % 256, c) && next == g / 256 * 256 + x
    ensures HashFrom(h, [c] + rest) == HashFrom(next, rest)
  {
    assert ([c] + rest)[1..] == rest;
  }

  lemma Xora531(a: nat, b: nat)
    requires a == 0xa5 && b == 0x31
    ensures Xor(a, b) == 0x94
  {
    assert XorBits(0x1, 0x0, 1) == 0x1 && XorBits(0x2, 0x0, 2) == 0x2;
    assert XorBits(0x5, 0x1, 3) == 0x4 && XorBits(0xa, 0x3, 4) == 0x9;
    assert XorBits(0x14, 0x6, 5) == 0x12 && XorBits(0x29, 0xc, 6) == 0x25;
    assert XorBits(0x52, 0x18, 7) == 0x4a;
  }

  lemma Xora56f(a: nat, b: nat)
    requires a == 0xa5 && b == 0x6f
    ensures Xor(a, b) == 0xca
  {
    assert XorBits(0x1, 0x0, 1) == 0x1 && XorBits(0x2, 0x1, 2) == 0x3;
    assert XorBits(0x5, 0x3, 3) == 0x6 && XorBits(0xa, 0x6, 4) == 0xc;
    assert XorBits(0x14, 0xd, 5) == 0x19 && XorBits(0x29, 0x1b, 6) == 0x32;
    assert XorBits(0x52, 0x37, 7) == 0x65;
  }

  lemma Xor0a6e(a: nat, b: nat)
    requires a == 0x0a && b == 0x6e
    ensures Xor(a, b) == 0x64
  {
    assert XorBits(0x0, 0x0, 1) == 0x0 && XorBits(0x0, 0x1, 2) == 0x1;
    assert XorBits(0x0, 0x3, 3) == 0x3 && XorBits(0x0, 0x6, 4) == 0x6;
    assert XorBits(0x1, 0xd, 5) == 0xc && XorBits(0x2, 0x1b, 6) == 0x19;
    assert XorBits(0x5, 0x37, 7) == 0x32;
  }

  lemma Xore465(a: nat, b: nat)
    requires a == 0xe4 && b == 0x65
    ensures Xor(a, b) == 0x81
  {
    assert XorBits(0x1, 0x0, 1) == 0x1 && XorBits(0x3, 0x1, 2) == 0x2;
    assert XorBits(0x7, 0x3, 3) == 0x4 && XorBits(0xe, 0x6, 4) == 0x8;
    assert XorBits(0x1c, 0xc, 5) == 0x10 && XorBits(0x39, 0x19, 6) == 0x20;
    assert XorBits(0x72, 0x32, 7) == 0x40;
  }
}
