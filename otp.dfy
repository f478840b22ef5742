// One-time passwords: HOTP (RFC 4226) and TOTP (RFC 6238) over HMAC-SHA-1.
//
// The methods follow the library's hotp/totp step by step; the functions
// HotpValue and TimeCounter state what the two RFCs define, and the lemmas
// connect the two, including where they part ways (see Digits10).

module Otp {
  import opened Bytes
  import opened Sha1

  const TWO_TO_THE_32: int := 0x1_0000_0000

  /** The library's default HMAC: HMAC-SHA-1 with SHA-1's 64-byte block. */
  method HmacSha1_64(key: seq<byte>, msg: seq<byte>) returns (mac: seq<byte>)
    ensures mac == HmacSha1Spec(key, msg, 64)
    ensures |mac| == 20
  {
    mac := HmacSha1(key, msg, 64);
  }

  // ---------------------------------------------------------------------
  // Powers of ten, exact and as a wrapping 32-bit unsigned integer
  // ---------------------------------------------------------------------

  /** 10^n, the modulus RFC 4226 section 5.3 reduces the truncated value by. */
  function Pow10(n: nat): (p: nat)
    ensures p >= 1
  {
    if n == 0 then 1 else Pow10(n - 1) * 10
  }

  /**
   * The value the library's uint32 `digits10` holds after multiplying 1 by
   * ten n times: every product wraps modulo 2^32.
   */
  function Digits10(n: nat): (d: nat)
    ensures d < TWO_TO_THE_32
  {
    if n == 0 then 1 else (Digits10(n - 1) * 10) % TWO_TO_THE_32
  }

  /** The wrapping product is 10^n reduced modulo 2^32. */
  lemma {:induction false} Digits10Wraps(n: nat)
    ensures Digits10(n) == Pow10(n) % TWO_TO_THE_32
  {
    if n > 0 {
      Digits10Wraps(n - 1);
      MulMod(Pow10(n - 1), 10, TWO_TO_THE_32);
    }
  }

  /** Up to nine digits nothing wraps, so digits10 is exactly 10^n. */
  lemma Digits10Exact(n: nat)
    requires n <= 9
    ensures Digits10(n) == Pow10(n)
  {
    Digits10Wraps(n);
    Pow10Small(n);
    ModUnique(Pow10(n), 0, TWO_TO_THE_32, Pow10(n));
  }

  /**
   * digits10 is zero, and the library's final `%` divides by zero,
   * exactly when at least 32 digits are asked for.
   */
  lemma Digits10Vanishes(n: nat)
    ensures Digits10(n) == 0 <==> n >= 32
  {
    if n < 32 {
      DigitsLowBit(n);
      ModUnique(0, 0, Pow2(n + 1), 0);
    } else {
      Digits10Past(n);
    }
  }

  lemma {:induction false} Digits10Past(n: nat)
    requires n >= 32
    ensures Digits10(n) == 0
  {
    if n == 32 {
      DigitsLowBit(31);
      Pow2Word();
      assert Pow2(31) == 0x8000_0000;
      ModUnique(Digits10(31), 0, TWO_TO_THE_32, Digits10(31));
      assert Digits10(31) == 0x8000_0000;
      ModUnique(0x8000_0000 * 10, 5, TWO_TO_THE_32, 0);
    } else {
      Digits10Past(n - 1);
      ModUnique(0, 0, TWO_TO_THE_32, 0);
    }
  }

  /** For n < 32, digits10 is 2^n times an odd number below 2^(32-n). */
  lemma {:induction false} DigitsLowBit(n: nat)
    requires n < 32
    ensures Digits10(n) % Pow2(n + 1) == Pow2(n)
  {
    if n > 0 {
      var p := Pow2(n - 1);
      assert Pow2(n) == 2 * p;
      assert Pow2(n + 1) == 4 * p;
      DigitsLowBit(n - 1);
      LowBitStep(Digits10(n - 1), p);
      Pow2Split(n + 1, 31 - n);
      Pow2Word();
      ModOfMod(Digits10(n - 1) * 10, 4 * p, Pow2(31 - n));
    }
  }

  lemma {:induction false} Pow10Small(n: nat)
    requires n <= 9
    ensures Pow10(n) <= 1_000_000_000
    decreases 9 - n
  {
    if n < 9 {
      Pow10Small(n + 1);
    } else {
      assert Pow10(9) == 1_000_000_000;
    }
  }

  function Pow2(n: nat): (p: nat)
    ensures p >= 1
  {
    if n == 0 then 1 else 2 * Pow2(n - 1)
  }

  lemma {:induction false} Pow2Split(a: nat, b: nat)
    ensures Pow2(a + b) == Pow2(a) * Pow2(b)
  {
    if a > 0 {
      Pow2Split(a - 1, b);
    }
  }

  lemma Pow2Word()
    ensures Pow2(32) == TWO_TO_THE_32
  {
    assert Pow2(2) == 4;
    Pow2Split(2, 2);
    Pow2Split(4, 4);
    Pow2Split(8, 8);
    Pow2Split(16, 16);
  }

  lemma MulAtLeast(k: int, m: int)
    requires k >= 1 && m > 0
    ensures k * m >= m
  {
    assert (k - 1) * m >= 0;
  }

  /** The remainder is the unique r in [0, m) with x == q * m + r. */
  lemma ModUnique(x: int, q: int, m: int, r: int)
    requires m > 0 && 0 <= r < m && x == q * m + r
    ensures x % m == r
  {
    var q2 := x / m;
    var r2 := x % m;
    assert x == q2 * m + r2;
    assert (q - q2) * m == r2 - r;
    if q > q2 {
      MulAtLeast(q - q2, m);
    } else if q < q2 {
      MulAtLeast(q2 - q, m);
    }
  }

  lemma ModOfMod(x: int, a: int, b: int)
    requires a > 0 && b > 0
    ensures (x % (a * b)) % a == x % a
  {
    var y := x % (a * b);
    var q := x / (a * b);
    assert x == q * (a * b) + y;
    var s := y / a;
    assert y == s * a + y % a;
    assert x == (q * b + s) * a + y % a;
    ModUnique(x, q * b + s, a, y % a);
  }

  lemma MulMod(a: nat, b: nat, m: int)
    requires m > 0
    ensures ((a % m) * b) % m == (a * b) % m
  {
    var q := a / m;
    var r := a % m;
    assert a == q * m + r;
    var s := (r * b) / m;
    var t := (r * b) % m;
    assert r * b == s * m + t;
    assert a * b == (q * b + s) * m + t;
    ModUnique(a * b, q * b + s, m, t);
  }

  lemma LowBitStep(d: int, p: int)
    requires p > 0 && d >= 0 && d % (2 * p) == p
    ensures (d * 10) % (4 * p) == 2 * p
  {
    var q := d / (2 * p);
    assert d == q * (2 * p) + p;
    assert d * 10 == (5 * q + 2) * (4 * p) + 2 * p;
    ModUnique(d * 10, 5 * q + 2, 4 * p, 2 * p);
  }

  // ---------------------------------------------------------------------
  // Dynamic truncation (RFC 4226 section 5.3)
  // ---------------------------------------------------------------------

  /**
   * DT: the low nibble of the last byte selects four bytes, read big-endian
   * with the top bit cleared (the 31-bit value Snum).
   */
  function DynamicTruncation(hs: seq<byte>): (sbits: bv32)
    requires |hs| == 20
    ensures sbits < 0x8000_0000
  {
    var offset := (hs[19] & 0x0f) as int;
    ClearTopBit(BeWord(hs[offset], hs[offset + 1], hs[offset + 2], hs[offset + 3]))
  }

  /** Snipping off the most significant bit of a word: the result fits in
      31 bits and, with the top bit of `w` put back, is `w`. */
  function ClearTopBit(w: bv32): (r: bv32)
    ensures r < 0x8000_0000
    ensures r | (w & 0x8000_0000) == w
  {
    w & 0x7fff_ffff
  }

  /** RFC 4226 writes the mask on the first byte: `(hs[offset] & 0x7f) << 24`. */
  lemma TruncationMasksFirstByte(hs: seq<byte>)
    requires |hs| == 20
    ensures var offset := (hs[19] & 0x0f) as int;
      DynamicTruncation(hs) == BeWord(hs[offset] & 0x7f, hs[offset + 1], hs[offset + 2], hs[offset + 3])
  {
    var offset := (hs[19] & 0x0f) as int;
    ClearedTopBit(hs[offset], hs[offset + 1], hs[offset + 2], hs[offset + 3]);
  }

  lemma ClearedTopBit(b0: byte, b1: byte, b2: byte, b3: byte)
    ensures ClearTopBit(BeWord(b0, b1, b2, b3)) == BeWord(b0 & 0x7f, b1, b2, b3)
  {
  }

  /** The four bytes at the selected offset, masked as a word, are DT's value. */
  lemma FourWordTruncates(hs: seq<byte>, fourWord: seq<byte>)
    requires |hs| == 20
    requires var offset := (hs[19] & 0x0f) as int; fourWord == hs[offset..offset + 4]
    ensures ClearTopBit(BeWord(fourWord[0], fourWord[1], fourWord[2], fourWord[3]))
         == DynamicTruncation(hs)
  {
  }

  /** The truncated value reduced modulo `modulus`. */
  function Truncate(hs: seq<byte>, modulus: nat): (code: nat)
    requires |hs| == 20 && modulus > 0
    ensures code < modulus
  {
    (DynamicTruncation(hs) as int) % modulus
  }

  /** HOTP(K, C) = Truncate(HMAC-SHA-1(K, C)) mod 10^Digit, RFC 4226 section 5.3. */
  function HotpValue(key: seq<byte>, counter: bv64, digits: nat): (code: nat)
    ensures code < Pow10(digits)
  {
    Truncate(HmacSha1Spec(key, U64beToByteString(counter), 64), Pow10(digits))
  }

  /** What the library's hotp returns: the same truncation, reduced by the wrapped digits10. */
  function HotpAsWritten(key: seq<byte>, counter: bv64, digitCount: nat): (code: nat)
    requires Digits10(digitCount) != 0
    ensures code < Digits10(digitCount)
  {
    Truncate(HmacSha1Spec(key, U64beToByteString(counter), 64), Digits10(digitCount))
  }

  /** Up to nine digits the library computes RFC 4226's HOTP value. */
  lemma HotpFollowsRfc(key: seq<byte>, counter: bv64, digitCount: nat)
    requires digitCount <= 9
    ensures Digits10(digitCount) != 0
    ensures HotpAsWritten(key, counter, digitCount) == HotpValue(key, counter, digitCount)
  {
    Digits10Exact(digitCount);
  }

  /** Ten digits is the first count at which digits10 wraps. */
  lemma TenDigitsWrap()
    ensures Digits10(9) == Pow10(9) && Pow10(10) == 10_000_000_000
    ensures Digits10(10) == 1_410_065_408
  {
    assert Pow10(9) == 1_000_000_000;
    Digits10Exact(9);
  }

  /** With ten digits the library reduces by 1410065408 where RFC 4226 reduces by 10^10. */
  lemma HotpTenDigits(key: seq<byte>, counter: bv64)
    ensures Digits10(10) != 0
    ensures var mac := HmacSha1Spec(key, U64beToByteString(counter), 64);
      HotpAsWritten(key, counter, 10) == Truncate(mac, 1_410_065_408)
      && HotpValue(key, counter, 10) == Truncate(mac, 10_000_000_000)
  {
    TenDigitsWrap();
  }

  /**
   * A digest whose truncated value is 2^31 - 1: with ten digits the library
   * reduces it to 737418239, while RFC 4226 keeps all of 2147483647.
   */
  lemma TenDigitCodeDiffers()
    ensures var hs: seq<byte> := [0x7f, 0xff, 0xff, 0xff, 0, 0, 0, 0, 0, 0, 0, 0, 0, 0, 0, 0, 0, 0, 0, 0];
      DynamicTruncation(hs) == 0x7fff_ffff
      && Truncate(hs, 1_410_065_408) == 737_418_239
      && Truncate(hs, 10_000_000_000) == 2_147_483_647
  {
  }

  /** The loop of the library's hotp that multiplies a uint32 by ten digitCount times. */
  method PowerOfTen(digitCount: nat) returns (digits10: nat)
    ensures digits10 == Digits10(digitCount)
  {
    digits10 := 1;
    var i := 0;
    while i < digitCount
      invariant i <= digitCount
      invariant digits10 == Digits10(i)
    {
      digits10 := (digits10 * 10) % TWO_TO_THE_32;
      i := i + 1;
    }
  }

  /**
   * The tail of the library's hotp: the offset from the last nibble, the
   * four bytes from there as a big-endian word, its top bit snipped off,
   * and the remainder modulo digits10.
   */
  method TruncateDigest(hmac: seq<byte>, digits10: nat) returns (code: nat)
    requires |hmac| == 20 && digits10 > 0
    ensures code == Truncate(hmac, digits10)
  {
    var offset := hmac[|hmac| - 1] & 0x0f;
    var fourWord := hmac[offset..offset + 4];
    var ret := BeWord(fourWord[0], fourWord[1], fourWord[2], fourWord[3]);
    FourWordTruncates(hmac, fourWord);
    code := ClearTopBit(ret) as int % digits10;
  }

  /**
   * The library's hotp with the default HMAC-SHA-1: the counter as eight
   * big-endian bytes, then HMAC, then the truncation reduced by digits10.
   */
  method Hotp(key: seq<byte>, counter: bv64, digitCount: nat) returns (code: nat)
    requires Digits10(digitCount) != 0
    ensures code == HotpAsWritten(key, counter, digitCount)
    ensures digitCount <= 9 ==> code == HotpValue(key, counter, digitCount)
  {
    var msg := U64beToByteString(counter);
    var hmac := HmacSha1_64(key, msg);

    var digits10 := PowerOfTen(digitCount);
    code := TruncateDigest(hmac, digits10);

    if digitCount <= 9 {
      HotpFollowsRfc(key, counter, digitCount);
    }
  }

  // ---------------------------------------------------------------------
  // TOTP (RFC 6238)
  // ---------------------------------------------------------------------

  /**
   * The counter hotp receives from totp: uint64 subtraction (wrapping
   * modulo 2^64 when the start lies after now) divided by the step.
   */
  function TimeCounter(now: int, start: int, step: int): (t: int)
    requires 0 <= now < TWO_TO_THE_64 && 0 <= start < TWO_TO_THE_64
    requires 0 < step < TWO_TO_THE_64
    ensures 0 <= t < TWO_TO_THE_64
  {
    ((now - start) % TWO_TO_THE_64) / step
  }

  /** From the start time on, T = floor((now - T0) / X), RFC 6238 section 4.2. */
  lemma TimeCounterFollowsRfc(now: int, start: int, step: int)
    requires 0 <= start <= now < TWO_TO_THE_64
    requires 0 < step < TWO_TO_THE_64
    ensures TimeCounter(now, start, step) == (now - start) / step
  {
    ModUnique(now - start, 0, TWO_TO_THE_64, now - start);
  }

  /** Before the start time the difference wraps around 2^64. */
  lemma TimeCounterWraps(now: int, start: int, step: int)
    requires 0 <= now < start < TWO_TO_THE_64
    requires 0 < step < TWO_TO_THE_64
    ensures TimeCounter(now, start, step) == (now - start + TWO_TO_THE_64) / step
  {
    ModUnique(now - start, -1, TWO_TO_THE_64, now - start + TWO_TO_THE_64);
  }

  /** The counter never goes back while time moves forward from the start. */
  lemma TimeCounterMonotone(now1: int, now2: int, start: int, step: int)
    requires 0 <= start <= now1 <= now2 < TWO_TO_THE_64
    requires 0 < step < TWO_TO_THE_64
    ensures TimeCounter(now1, start, step) <= TimeCounter(now2, start, step)
  {
    TimeCounterFollowsRfc(now1, start, step);
    TimeCounterFollowsRfc(now2, start, step);
    DivMonotone(now1 - start, now2 - start, step);
  }

  lemma DivMonotone(x: int, y: int, d: int)
    requires 0 <= x <= y && d > 0
    ensures x / d <= y / d
  {
    var qx := x / d;
    var qy := y / d;
    assert qx * d + x % d == x;
    assert qy * d + y % d == y;
    if qx > qy {
      MulAtLeast(qx - qy, d);
    }
  }

  /** The library's totp: the time-step counter handed to hotp. */
  method Totp(key: seq<byte>, timeNow: int, timeStart: int, timeStep: int, digitCount: nat)
    returns (code: nat)
    requires 0 <= timeNow < TWO_TO_THE_64 && 0 <= timeStart < TWO_TO_THE_64
    requires 0 < timeStep < TWO_TO_THE_64
    requires Digits10(digitCount) != 0
    ensures code == HotpAsWritten(key, TimeCounter(timeNow, timeStart, timeStep) as bv64, digitCount)
    ensures digitCount <= 9 ==>
      code == HotpValue(key, TimeCounter(timeNow, timeStart, timeStep) as bv64, digitCount)
  {
    var timeValue := ((timeNow - timeStart) % TWO_TO_THE_64) / timeStep;
    code := Hotp(key, timeValue as bv64, digitCount);
  }

  // ---------------------------------------------------------------------
  // RFC test values
  // ---------------------------------------------------------------------

  /*
   * RFC 4226 Appendix D: for the key "12345678901234567890" the HMAC-SHA-1
   * values listed there for counters 0 to 9 truncate to the six-digit HOTP
   * values listed there (10^6 = 1000000), one lemma per counter.
   */

  lemma HotpVectorCounter0()
    ensures Truncate([0xcc, 0x93, 0xcf, 0x18, 0x50, 0x8d, 0x94, 0x93, 0x4c, 0x64,
                      0xb6, 0x5d, 0x8b, 0xa7, 0x66, 0x7f, 0xb7, 0xcd, 0xe4, 0xb0], 1_000_000) == 755224
  {
  }

  lemma HotpVectorCounter1()
    ensures Truncate([0x75, 0xa4, 0x8a, 0x19, 0xd4, 0xcb, 0xe1, 0x00, 0x64, 0x4e,
                      0x8a, 0xc1, 0x39, 0x7e, 0xea, 0x74, 0x7a, 0x2d, 0x33, 0xab], 1_000_000) == 287082
  {
  }

  lemma HotpVectorCounter2()
    ensures Truncate([0x0b, 0xac, 0xb7, 0xfa, 0x08, 0x2f, 0xef, 0x30, 0x78, 0x22,
                      0x11, 0x93, 0x8b, 0xc1, 0xc5, 0xe7, 0x04, 0x16, 0xff, 0x44], 1_000_000) == 359152
  {
  }

  lemma HotpVectorCounter3()
    ensures Truncate([0x66, 0xc2, 0x82, 0x27, 0xd0, 0x3a, 0x2d, 0x55, 0x29, 0x26,
                      0x2f, 0xf0, 0x16, 0xa1, 0xe6, 0xef, 0x76, 0x55, 0x7e, 0xce], 1_000_000) == 969429
  {
  }

  lemma HotpVectorCounter4()
    ensures Truncate([0xa9, 0x04, 0xc9, 0x00, 0xa6, 0x4b, 0x35, 0x90, 0x98, 0x74,
                      0xb3, 0x3e, 0x61, 0xc5, 0x93, 0x8a, 0x8e, 0x15, 0xed, 0x1c], 1_000_000) == 338314
  {
  }

  lemma HotpVectorCounter5()
    ensures Truncate([0xa3, 0x7e, 0x78, 0x3d, 0x7b, 0x72, 0x33, 0xc0, 0x83, 0xd4,
                      0xf6, 0x29, 0x26, 0xc7, 0xa2, 0x5f, 0x23, 0x8d, 0x03, 0x16], 1_000_000) == 254676
  {
  }

  lemma HotpVectorCounter6()
    ensures Truncate([0xbc, 0x9c, 0xd2, 0x85, 0x61, 0x04, 0x2c, 0x83, 0xf2, 0x19,
                      0x32, 0x4d, 0x3c, 0x60, 0x72, 0x56, 0xc0, 0x32, 0x72, 0xae], 1_000_000) == 287922
  {
  }

  lemma HotpVectorCounter7()
    ensures Truncate([0xa4, 0xfb, 0x96, 0x0c, 0x0b, 0xc0, 0x6e, 0x1e, 0xab, 0xb8,
                      0x04, 0xe5, 0xb3, 0x97, 0xcd, 0xc4, 0xb4, 0x55, 0x96, 0xfa], 1_000_000) == 162583
  {
  }

  lemma HotpVectorCounter8()
    ensures Truncate([0x1b, 0x3c, 0x89, 0xf6, 0x5e, 0x6c, 0x9e, 0x88, 0x30, 0x12,
                      0x05, 0x28, 0x23, 0x44, 0x3f, 0x04, 0x8b, 0x43, 0x32, 0xdb], 1_000_000) == 399871
  {
  }

  lemma HotpVectorCounter9()
    ensures Truncate([0x16, 0x37, 0x40, 0x98, 0x09, 0xa6, 0x79, 0xdc, 0x69, 0x82,
                      0x07, 0x31, 0x0c, 0x8c, 0x7f, 0xc0, 0x72, 0x90, 0xd9, 0xe5], 1_000_000) == 520489
  {
  }

  /**
   * RFC 6238 Appendix B with T0 = 0 and X = 30: the times listed there give
   * the listed counters T.
   */
  lemma TotpCounterVectors()
    ensures TimeCounter(59, 0, 30) == 0x1
    ensures TimeCounter(1111111109, 0, 30) == 0x23523EC
    ensures TimeCounter(1111111111, 0, 30) == 0x23523ED
    ensures TimeCounter(1234567890, 0, 30) == 0x273EF07
    ensures TimeCounter(2000000000, 0, 30) == 0x3F940AA
    ensures TimeCounter(20000000000, 0, 30) == 0x27BC86AA
  {
  }
}
