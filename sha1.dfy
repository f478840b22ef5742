/** SHA-1 as sha1.cpp computes it, next to the hash of FIPS 180-4 (padding
    of section 5.1.1, schedule and rounds of section 6.1.2), and HMAC-SHA-1
    as RFC 2104 defines it. */
module Sha1 {
  import opened Bytes

  /** A 32-bit word: `uint32_t`, with its wrap-around addition. */
  type word = bv32

  // ---------------------------------------------------------------------
  // Rotation and the round functions
  // ---------------------------------------------------------------------

  /** `lrot32`: the two shifts of the source, which together rotate `num`
      left by `rotcount` bits (a count of 0 or 32 would shift by 32). For
      the counts `sha1` uses it is the circular left shift ROTL of FIPS
      180-4 section 3.2. */
  function Lrot32(num: word, rotcount: bv8): (r: word)
    requires 1 <= rotcount <= 31
    ensures rotcount == 1 ==> r == num.RotateLeft(1)
    ensures rotcount == 2 ==> r == num.RotateLeft(2)
    ensures rotcount == 5 ==> r == num.RotateLeft(5)
    ensures rotcount == 30 ==> r == num.RotateLeft(30)
  {
    (num << rotcount) | (num >> (32 - rotcount))
  }

  /** The function of rounds 0 to 19, with OR as RFC 3174 (section 5)
      writes it. */
  function Ch(x: word, y: word, z: word): word {
    (x & y) | ((!x) & z)
  }

  /** The function of rounds 20 to 39 and 60 to 79. */
  function Parity(x: word, y: word, z: word): word {
    x ^ y ^ z
  }

  /** The function of rounds 40 to 59, with OR as RFC 3174 (section 5)
      writes it. */
  function Maj(x: word, y: word, z: word): word {
    (x & y) | (x & z) | (y & z)
  }

  /** The function of round `t`. */
  function F(t: nat, x: word, y: word, z: word): word
    requires t < 80
  {
    if t < 20 then Ch(x, y, z)
    else if t < 40 then Parity(x, y, z)
    else if t < 60 then Maj(x, y, z)
    else Parity(x, y, z)
  }

  /** The constant of round `t` (FIPS 180-4 section 4.2.1). */
  function K(t: nat): word
    requires t < 80
  {
    if t < 20 then 0x5A827999
    else if t < 40 then 0x6ED9EBA1
    else if t < 60 then 0x8F1BBCDC
    else 0xCA62C1D6
  }

  /** The OR form of Ch is the Ch of FIPS 180-4 section 4.1.1, written with
      XOR: the two halves never share a bit. */
  lemma ChIsFipsCh(x: word, y: word, z: word)
    ensures Ch(x, y, z) == (x & y) ^ (!x & z)
  {
  }

  /** The OR form of Maj is the Maj of FIPS 180-4 section 4.1.1, written
      with XOR: either form sets a bit exactly when at least two of the
      three words have it set. */
  lemma MajIsFipsMaj(x: word, y: word, z: word)
    ensures Maj(x, y, z) == (x & y) ^ (x & z) ^ (y & z)
  {
  }

  // ---------------------------------------------------------------------
  // The message schedule
  // ---------------------------------------------------------------------

  /** The next word of a schedule of at least sixteen words (FIPS 180-4
      section 6.1.2): the one-bit rotation of the XOR of the words 3, 8,
      14 and 16 places back. */
  function NextWord(w: seq<word>): word
    requires |w| >= 16
  {
    Mix(w[|w| - 3], w[|w| - 8], w[|w| - 14], w[|w| - 16])
  }

  /** The one-bit rotation of the XOR of four words. */
  function Mix(x3: word, x8: word, x14: word, x16: word): word {
    (x3 ^ x8 ^ x14 ^ x16).RotateLeft(1)
  }

  /** The two-bit rotation of the XOR of four words. */
  function Mix2(x6: word, x16: word, x28: word, x32: word): word {
    (x6 ^ x16 ^ x28 ^ x32).RotateLeft(2)
  }

  /** The XOR of four words, the operand of `lrot32` in the schedule loops
      of `sha1`. */
  function Xor4(w: word, x: word, y: word, z: word): word {
    w ^ x ^ y ^ z
  }

  /** A partial schedule extended word by word up to 80 words. */
  function Expand(w: seq<word>): (r: seq<word>)
    requires 16 <= |w| <= 80
    ensures |r| == 80 && r[..|w|] == w
    decreases 80 - |w|
  {
    if |w| == 80 then w else Expand(w + [NextWord(w)])
  }

  /** The 80 words of the message schedule of a block of sixteen words. */
  function Schedule(m: seq<word>): (w: seq<word>)
    requires |m| == 16
    ensures |w| == 80 && w[..16] == m
  {
    Expand(m)
  }

  /** Every word an extension adds is the next word of the words before
      it. */
  lemma {:induction false} ExpandWord(w: seq<word>, t: nat)
    requires 16 <= |w| <= t < 80
    ensures Expand(w)[t] == NextWord(Expand(w)[..t])
    decreases 80 - |w|
  {
    var w' := w + [NextWord(w)];
    assert Expand(w) == Expand(w');
    if t == |w| {
      assert Expand(w')[..|w'|] == w';
      assert Expand(w')[t] == w'[t];
      assert Expand(w)[..t] == Expand(w')[..|w'|][..t];
    } else {
      ExpandWord(w', t);
    }
  }

  /** Word `t` of the schedule, from word 16 on, by the recurrence of
      FIPS 180-4 section 6.1.2; `i3` to `i16` name the indices 3, 8, 14
      and 16 back. */
  lemma ScheduleWord(m: seq<word>, t: nat, i3: nat, i8: nat, i14: nat, i16: nat)
    requires |m| == 16 && 16 <= t < 80
    requires i3 == t - 3 && i8 == t - 8 && i14 == t - 14 && i16 == t - 16
    ensures var s := Schedule(m);
      s[t] == Mix(s[i3], s[i8], s[i14], s[i16])
  {
    ExpandWord(m, t);
  }

  /** The sixteen big-endian words of a 64-byte block. */
  function BlockWords(block: seq<byte>): (m: seq<word>)
    requires |block| == 64
    ensures |m| == 16
  {
    seq(16, j requires 0 <= j < 16 =>
      BeWord(block[4 * j], block[4 * j + 1], block[4 * j + 2], block[4 * j + 3]))
  }

  /** Four words that the one-bit recurrence defines from ten earlier ones
      (the words 6, 11, 16, 17, 19, 22, 24, 28, 30 and 32 back) combine
      into a two-bit rotation of four of them: the other six cancel in
      pairs. */
  lemma XorOfExpansions(w6: word, w11: word, w16: word, w17: word, w19: word,
                        w22: word, w24: word, w28: word, w30: word, w32: word)
    ensures Mix(Mix(w6, w11, w17, w19), Mix(w11, w16, w22, w24),
                Mix(w17, w22, w28, w30), Mix(w19, w24, w30, w32))
            == (w6 ^ w16 ^ w28 ^ w32).RotateLeft(2)
  {
    MixOfExpansions(w6, w11, w16, w17, w19, w22, w24, w28, w30, w32);
  }

  /** The outer Mix of `XorOfExpansions` taken of the expansions of the
      four inner words, from which the rotations and XORs cancel. */
  lemma MixOfExpansions(w6: word, w11: word, w16: word, w17: word, w19: word,
                        w22: word, w24: word, w28: word, w30: word, w32: word)
    ensures Mix(Mix(w6, w11, w17, w19), Mix(w11, w16, w22, w24),
                Mix(w17, w22, w28, w30), Mix(w19, w24, w30, w32))
         == Mix((w6 ^ w11 ^ w17 ^ w19).RotateLeft(1), (w11 ^ w16 ^ w22 ^ w24).RotateLeft(1),
                (w17 ^ w22 ^ w28 ^ w30).RotateLeft(1), (w19 ^ w24 ^ w30 ^ w32).RotateLeft(1))
  {
  }

  /** From word 32 on, the recurrence of the source (a two-bit rotation of
      the words 6, 16, 28 and 32 back) gives the word of the standard
      recurrence. */
  lemma ScheduleFarBack(m: seq<word>, t: nat, i6: nat, i16: nat, i28: nat, i32: nat)
    requires |m| == 16 && 32 <= t < 80
    requires i6 == t - 6 && i16 == t - 16 && i28 == t - 28 && i32 == t - 32
    ensures var s := Schedule(m);
      s[t] == Mix2(s[i6], s[i16], s[i28], s[i32])
  {
    ScheduleFive(m, t);
    FarBackSeq(Schedule(m), t);
  }

  /** `FarBack` for the words of a sequence. */
  lemma FarBackSeq(s: seq<word>, t: nat)
    requires |s| == 80 && 32 <= t < 80
    requires s[t] == Mix(s[t - 3], s[t - 8], s[t - 14], s[t - 16])
    requires s[t - 3] == Mix(s[t - 6], s[t - 11], s[t - 17], s[t - 19])
    requires s[t - 8] == Mix(s[t - 11], s[t - 16], s[t - 22], s[t - 24])
    requires s[t - 14] == Mix(s[t - 17], s[t - 22], s[t - 28], s[t - 30])
    requires s[t - 16] == Mix(s[t - 19], s[t - 24], s[t - 30], s[t - 32])
    ensures s[t] == Mix2(s[t - 6], s[t - 16], s[t - 28], s[t - 32])
  {
    FarBack(s[t], s[t - 3], s[t - 8], s[t - 14], s[t - 16],
            s[t - 6], s[t - 11], s[t - 17], s[t - 19], s[t - 22],
            s[t - 24], s[t - 28], s[t - 30], s[t - 32]);
  }

  /** Word `t` of the schedule and its four operands, each by the one-bit
      recurrence. */
  lemma ScheduleFive(m: seq<word>, t: nat)
    requires |m| == 16 && 32 <= t < 80
    ensures var s := Schedule(m);
      s[t] == Mix(s[t - 3], s[t - 8], s[t - 14], s[t - 16]) &&
      s[t - 3] == Mix(s[t - 6], s[t - 11], s[t - 17], s[t - 19]) &&
      s[t - 8] == Mix(s[t - 11], s[t - 16], s[t - 22], s[t - 24]) &&
      s[t - 14] == Mix(s[t - 17], s[t - 22], s[t - 28], s[t - 30]) &&
      s[t - 16] == Mix(s[t - 19], s[t - 24], s[t - 30], s[t - 32])
  {
    ScheduleWord(m, t, t - 3, t - 8, t - 14, t - 16);
    ScheduleWord(m, t - 3, t - 6, t - 11, t - 17, t - 19);
    ScheduleWord(m, t - 8, t - 11, t - 16, t - 22, t - 24);
    ScheduleWord(m, t - 14, t - 17, t - 22, t - 28, t - 30);
    ScheduleWord(m, t - 16, t - 19, t - 24, t - 30, t - 32);
  }

  /** A word whose four operands of the one-bit recurrence are themselves
      given by it is the two-bit rotation of the words 6, 16, 28 and 32
      back (`x16` is both the word 16 back and an operand). */
  lemma FarBack(x0: word, x3: word, x8: word, x14: word, x16: word,
                w6: word, w11: word, w17: word, w19: word, w22: word,
                w24: word, w28: word, w30: word, w32: word)
    requires x0 == Mix(x3, x8, x14, x16)
    requires x3 == Mix(w6, w11, w17, w19) && x8 == Mix(w11, x16, w22, w24)
    requires x14 == Mix(w17, w22, w28, w30) && x16 == Mix(w19, w24, w30, w32)
    ensures x0 == Mix2(w6, x16, w28, w32)
  {
    XorOfExpansions(w6, w11, x16, w17, w19, w22, w24, w28, w30, w32);
  }

  // ---------------------------------------------------------------------
  // Rounds, blocks and the digest
  // ---------------------------------------------------------------------

  /** The five working words `a` to `e`, or the five hash words `h0` to
      `h4`. */
  datatype State = State(a: word, b: word, c: word, d: word, e: word)

  /** The initial hash value of FIPS 180-4 section 5.3.1. */
  const H0: State := State(0x67452301, 0xEFCDAB89, 0x98BADCFE, 0x10325476, 0xC3D2E1F0)

  /** Round `t` with schedule word `wt`. */
  function Round(s: State, t: nat, wt: word): State
    requires t < 80
  {
    Shift(s, Temp(s, t, wt))
  }

  /** The new word `a` of round `t`: `tmp` of the source, T of FIPS 180-4. */
  function Temp(s: State, t: nat, wt: word): word
    requires t < 80
  {
    Sum5(s.a.RotateLeft(5), F(t, s.b, s.c, s.d), s.e, K(t), wt)
  }

  /** The state after a round that computed `tmp`: the words move down by
      one and `b` is rotated by 30 on its way to `c`. */
  function Shift(s: State, tmp: word): State {
    State(tmp, s.a, s.b.RotateLeft(30), s.c, s.d)
  }

  /** The sum modulo 2^32 of five words, the `tmp` of a round. */
  function Sum5(v: word, w: word, x: word, y: word, z: word): word {
    v + w + x + y + z
  }

  /** The state after the first `n` rounds over the schedule `w`. */
  function Rounds(w: seq<word>, s: State, n: nat): State
    requires |w| == 80 && n <= 80
  {
    if n == 0 then s else Round(Rounds(w, s, n - 1), n - 1, w[n - 1])
  }

  /** The word-wise sum, modulo 2^32, of two states. */
  function Add(h: State, s: State): State {
    State(Add32(h.a, s.a), Add32(h.b, s.b), Add32(h.c, s.c), Add32(h.d, s.d), Add32(h.e, s.e))
  }

  /** The sum modulo 2^32 of two words. */
  function Add32(x: word, y: word): word {
    x + y
  }

  /** `Add32` is the `+` of `uint32_t`. */
  lemma Add32Adds(x: word, y: word)
    ensures Add32(x, y) == x + y
  {
  }

  /** The hash value after one more block. */
  function Compress(h: State, block: seq<byte>): State
    requires |block| == 64
  {
    Add(h, Rounds(Schedule(BlockWords(block)), h, 80))
  }

  /** The hash value after the blocks of `m`, in order. */
  function HashBlocks(h: State, m: seq<byte>): State
    requires |m| % 64 == 0
    decreases |m|
  {
    if m == [] then h else HashBlocks(Compress(h, m[..64]), m[64..])
  }

  /** Hashing blocks one after another: the hash value after `a + b` is the
      hash value after `b`, starting from the one after `a`. */
  lemma {:induction false} HashBlocksAppend(h: State, a: seq<byte>, b: seq<byte>)
    requires |a| % 64 == 0 && |b| % 64 == 0
    ensures |a + b| % 64 == 0
    ensures HashBlocks(h, a + b) == HashBlocks(HashBlocks(h, a), b)
    decreases |a|
  {
    if a == [] {
      assert a + b == b;
    } else {
      var ab := a + b;
      assert ab[..64] == a[..64];
      assert ab[64..] == a[64..] + b;
      HashBlocksFront(h, ab);
      HashBlocksFront(h, a);
      HashBlocksAppend(Compress(h, a[..64]), a[64..], b);
    }
  }

  /** The first block of a non-empty run of blocks is hashed first. */
  lemma HashBlocksFront(h: State, m: seq<byte>)
    requires |m| % 64 == 0 && m != []
    ensures |m| >= 64 && |m[64..]| % 64 == 0
    ensures HashBlocks(h, m) == HashBlocks(Compress(h, m[..64]), m[64..])
  {
  }

  /** The 20-byte digest: the five hash words, each big-endian. */
  function Digest(h: State): (d: seq<byte>)
    ensures |d| == 20
  {
    U32beToByteString(h.a) + U32beToByteString(h.b) + U32beToByteString(h.c) +
    U32beToByteString(h.d) + U32beToByteString(h.e)
  }

  // ---------------------------------------------------------------------
  // Padding
  // ---------------------------------------------------------------------

  /** The number of zero bytes after the `0x80` of a message of `n` bytes:
      the one count below 64, and so the fewest, that leaves the length 56
      modulo 64. */
  function ZeroPadCount(n: nat): (k: nat)
    ensures k < 64 && (n + 1 + k) % 64 == 56
  {
    (119 - n % 64) % 64
  }

  /** 2^64: `uint64_t` arithmetic is modulo this. */
  const TWO_TO_THE_64: int := 0x1_0000_0000_0000_0000

  /** `size_bits`: the length in bits of a message of `n` bytes, as the
      64-bit product `size_bytes * 8` holds it. */
  function BitLength(n: nat): bv64 {
    ((n * 8) % TWO_TO_THE_64) as bv64
  }

  /** The padded message of FIPS 180-4 section 5.1.1: the message, a one
      bit, zero bits up to 448 modulo 512, and the 64-bit length. */
  function PadMessage(msg: seq<byte>): (p: seq<byte>)
    ensures |p| % 64 == 0
    ensures |msg| + 9 <= |p| < |msg| + 73
  {
    PaddedLength(|msg|);
    msg + [0x80] + Zeros(ZeroPadCount(|msg|)) + U64beToByteString(BitLength(|msg|))
  }

  /** The length of a padded message of `n` bytes. */
  lemma PaddedLength(n: nat)
    ensures (n + 1 + ZeroPadCount(n) + 8) % 64 == 0
    ensures n + 9 <= n + 1 + ZeroPadCount(n) + 8 < n + 73
  {
  }

  /** The parts of the padded message. */
  lemma PadMessageParts(msg: seq<byte>)
    ensures var p := PadMessage(msg);
      var n := |msg|;
      p[..n] == msg && p[n] == 0x80 &&
      (forall i :: n < i < |p| - 8 ==> p[i] == 0) &&
      p[|p| - 8..] == U64beToByteString(BitLength(n))
  {
    var p := PadMessage(msg);
    var n := |msg|;
    var z := Zeros(ZeroPadCount(n));
    assert p == msg + [0x80] + z + U64beToByteString(BitLength(n));
    forall i | n < i < |p| - 8
      ensures p[i] == 0
    {
      assert p[i] == z[i - n - 1];
    }
  }

  /** `sha1` as a function: the digest of the hash of the padded message. */
  function Sha1Hash(msg: seq<byte>): (d: seq<byte>)
    ensures |d| == 20
  {
    Digest(HashBlocks(H0, PadMessage(msg)))
  }

  // ---------------------------------------------------------------------
  // `sha1`, step by step
  // ---------------------------------------------------------------------

  /** The padding of `sha1`: `0x80`, then zero bytes until the length is 56
      modulo 64, then the 64-bit bit length. */
  method AppendPadding(msg: seq<byte>) returns (bstr: seq<byte>)
    ensures bstr == PadMessage(msg)
  {
    var n := |msg|;
    bstr := msg + [0x80];
    assert bstr == msg + [0x80] + Zeros(0);
    while |bstr| % 64 != 56
      invariant n + 1 <= |bstr| <= n + 1 + ZeroPadCount(n)
      invariant bstr == msg + [0x80] + Zeros(|bstr| - n - 1)
      decreases n + 1 + ZeroPadCount(n) - |bstr|
    {
      ZeroPadBound(n, |bstr|);
      assert Zeros(|bstr| - n - 1) + [0x00] == Zeros(|bstr| + 1 - n - 1);
      bstr := bstr + [0x00];
    }
    ZeroPadBound(n, |bstr|);
    bstr := bstr + U64beToByteString(BitLength(n));
  }

  /** Between `n + 1` and `n + 1 + ZeroPadCount(n)`, only the upper end is
      56 modulo 64. */
  lemma ZeroPadBound(n: nat, m: nat)
    requires n + 1 <= m <= n + 1 + ZeroPadCount(n)
    ensures m % 64 == 56 <==> m == n + 1 + ZeroPadCount(n)
  {
  }

  /** The message schedule of one 64-byte chunk, filled as `sha1` fills its
      array `words`: the sixteen big-endian words, then the one-bit
      recurrence up to word 31, then the two-bit recurrence of the words 6,
      16, 28 and 32 back. */
  method MessageSchedule(chunk: seq<byte>) returns (words: array<word>)
    requires |chunk| == 64
    ensures fresh(words)
    ensures words[..] == Schedule(BlockWords(chunk))
  {
    words := new word[80];
    ghost var m := BlockWords(chunk);
    ghost var s := Schedule(m);
    var j := 0;
    while j < 16
      invariant 0 <= j <= 16
      invariant forall t :: 0 <= t < j ==> words[t] == s[t]
    {
      BlockWord(chunk, j);
      words[j] := BeWord(chunk[4 * j + 0], chunk[4 * j + 1], chunk[4 * j + 2], chunk[4 * j + 3]);
      j := j + 1;
    }
    while j < 32
      invariant 16 <= j <= 32
      invariant forall t :: 0 <= t < j ==> words[t] == s[t]
    {
      NearStep(m, j, words[j - 3], words[j - 8], words[j - 14], words[j - 16]);
      words[j] := Lrot32(Xor4(words[j - 3], words[j - 8], words[j - 14], words[j - 16]), 1);
      j := j + 1;
    }
    while j < 80
      invariant 32 <= j <= 80
      invariant forall t :: 0 <= t < j ==> words[t] == s[t]
    {
      FarStep(m, j, words[j - 6], words[j - 16], words[j - 28], words[j - 32]);
      words[j] := Lrot32(Xor4(words[j - 6], words[j - 16], words[j - 28], words[j - 32]), 2);
      j := j + 1;
    }
  }

  /** The first sixteen words of the schedule are the big-endian words of
      the chunk. */
  lemma BlockWord(chunk: seq<byte>, t: nat)
    requires |chunk| == 64 && t < 16
    ensures Schedule(BlockWords(chunk))[t]
         == BeWord(chunk[4 * t + 0], chunk[4 * t + 1], chunk[4 * t + 2], chunk[4 * t + 3])
  {
    var s := Schedule(BlockWords(chunk));
    assert s[t] == s[..16][t];
  }

  /** A word of the one-bit recurrence, computed with `lrot32` from the
      words 3, 8, 14 and 16 back, is the word of the schedule. */
  lemma NearStep(m: seq<word>, t: nat, x3: word, x8: word, x14: word, x16: word)
    requires |m| == 16 && 16 <= t < 80
    requires var s := Schedule(m);
      x3 == s[t - 3] && x8 == s[t - 8] && x14 == s[t - 14] && x16 == s[t - 16]
    ensures Lrot32(Xor4(x3, x8, x14, x16), 1) == Schedule(m)[t]
  {
    ScheduleWord(m, t, t - 3, t - 8, t - 14, t - 16);
    assert Schedule(m)[t] == Mix(x3, x8, x14, x16);
  }

  /** A word of the two-bit recurrence, computed with `lrot32` from the
      words 6, 16, 28 and 32 back, is the word of the schedule. */
  lemma FarStep(m: seq<word>, t: nat, x6: word, x16: word, x28: word, x32: word)
    requires |m| == 16 && 32 <= t < 80
    requires var s := Schedule(m);
      x6 == s[t - 6] && x16 == s[t - 16] && x28 == s[t - 28] && x32 == s[t - 32]
    ensures Lrot32(Xor4(x6, x16, x28, x32), 2) == Schedule(m)[t]
  {
    ScheduleFarBack(m, t, t - 6, t - 16, t - 28, t - 32);
    assert Schedule(m)[t] == Mix2(x6, x16, x28, x32);
  }

  /** The `f` and `k` of round `j`, with `f` in the OR forms of the source:
      the round function and constant of FIPS 180-4. */
  method RoundFunction(j: nat, b: word, c: word, d: word) returns (f: word, k: word)
    requires j < 80
    ensures f == F(j, b, c, d) && k == K(j)
  {
    f, k := 0, 0;
    if j < 20 {
      f := Ch(b, c, d);
      k := 0x5A827999;
    } else if j < 40 {
      f := b ^ c ^ d;
      k := 0x6ED9EBA1;
    } else if j < 60 {
      f := Maj(b, c, d);
      k := 0x8F1BBCDC;
    } else if j < 80 {
      f := b ^ c ^ d;
      k := 0xCA62C1D6;
    } else {
      assert false;
    }
  }

  /** The 80 rounds over one chunk's schedule, from the hash words so far. */
  method RunRounds(words: array<word>, h0: word, h1: word, h2: word, h3: word, h4: word)
    returns (a: word, b: word, c: word, d: word, e: word)
    requires words.Length == 80
    ensures State(a, b, c, d, e) == Rounds(words[..], State(h0, h1, h2, h3, h4), 80)
  {
    a, b, c, d, e := h0, h1, h2, h3, h4;
    var j := 0;
    while j < 80
      invariant 0 <= j <= 80
      invariant State(a, b, c, d, e) == Rounds(words[..], State(h0, h1, h2, h3, h4), j)
    {
      var f, k := RoundFunction(j, b, c, d);
      RoundStep(words[..], State(h0, h1, h2, h3, h4), j, a, b, c, d, e, f, k);
      var tmp := Sum5(Lrot32(a, 5), f, e, k, words[j]);
      e := d;
      d := c;
      c := Lrot32(b, 30);
      b := a;
      a := tmp;
      j := j + 1;
    }
  }

  /** One round as the loop of `sha1` computes it, from the state after
      the rounds before it, is the next round of FIPS 180-4. */
  lemma RoundStep(w: seq<word>, h: State, j: nat, a: word, b: word, c: word, d: word, e: word,
                  f: word, k: word)
    requires |w| == 80 && j < 80
    requires State(a, b, c, d, e) == Rounds(w, h, j)
    requires f == F(j, b, c, d) && k == K(j)
    ensures State(Sum5(Lrot32(a, 5), f, e, k, w[j]), a, Lrot32(b, 30), c, d) == Rounds(w, h, j + 1)
  {
  }

  /** `sha1`: pads the message, runs each 64-byte chunk through the schedule
      and the rounds, adds the result into the hash words, and returns them
      big-endian. */
  method Sha1(msg: seq<byte>) returns (digest: seq<byte>)
    ensures digest == Sha1Hash(msg)
  {
    var bstr := AppendPadding(msg);
    var h0: word, h1: word, h2: word, h3: word, h4: word :=
      0x67452301, 0xEFCDAB89, 0x98BADCFE, 0x10325476, 0xC3D2E1F0;
    var blocks := |bstr| / 64;
    WholeBlocks(|bstr|);
    BlockTail(|bstr|, 0);
    var i := 0;
    while i < blocks
      invariant 0 <= i <= blocks
      invariant HashBlocks(State(h0, h1, h2, h3, h4), bstr[i * 64..]) == HashBlocks(H0, bstr)
    {
      NextBlock(bstr, i);
      var chunk := bstr[i * 64..(i + 1) * 64];
      var words := MessageSchedule(chunk);
      var a, b, c, d, e := RunRounds(words, h0, h1, h2, h3, h4);
      Add32Adds(h0, a);
      Add32Adds(h1, b);
      Add32Adds(h2, c);
      Add32Adds(h3, d);
      Add32Adds(h4, e);
      h0, h1, h2, h3, h4 := h0 + a, h1 + b, h2 + c, h3 + d, h4 + e;
      i := i + 1;
    }
    assert bstr[blocks * 64..] == [];
    var first := U32beToByteString(h0);
    var second := U32beToByteString(h1);
    var third := U32beToByteString(h2);
    var fourth := U32beToByteString(h3);
    var fifth := U32beToByteString(h4);
    digest := first + second + third + fourth + fifth;
  }

  /** What is left after whole blocks of a whole number of blocks is a whole
      number of blocks. */
  lemma BlockTail(n: nat, i: nat)
    requires n % 64 == 0 && i * 64 <= n
    ensures (n - i * 64) % 64 == 0
  {
  }

  /** Block `i` of a whole number of blocks, and the blocks after it. */
  lemma NextBlock(m: seq<byte>, i: nat)
    requires |m| % 64 == 0 && (i + 1) * 64 <= |m|
    ensures |m[i * 64..]| % 64 == 0 && |m[(i + 1) * 64..]| % 64 == 0
    ensures m[i * 64..][..64] == m[i * 64..(i + 1) * 64]
    ensures m[i * 64..][64..] == m[(i + 1) * 64..]
  {
    BlockTail(|m|, i);
    BlockTail(|m|, i + 1);
  }

  /** A length that is a multiple of 64 is a whole number of blocks. */
  lemma WholeBlocks(n: nat)
    requires n % 64 == 0
    ensures n == n / 64 * 64
  {
  }

  // ---------------------------------------------------------------------
  // HMAC-SHA-1
  // ---------------------------------------------------------------------

  /** The key that `hmacSha1` pads: a key longer than the block is replaced
      by its 20-byte hash, and a key shorter than the block is extended with
      zero bytes to the block size. */
  function HmacKey(key: seq<byte>, blockSize: nat): (k: seq<byte>)
    ensures |k| == if |key| <= blockSize || 20 <= blockSize then blockSize else 20
  {
    var short := if |key| > blockSize then Sha1Hash(key) else key;
    if |short| < blockSize then short + Zeros(blockSize - |short|) else short
  }

  /** Every byte of `k` XORed with `pad`. */
  function XorPad(k: seq<byte>, pad: byte): (r: seq<byte>)
    ensures |r| == |k|
    ensures forall i :: 0 <= i < |k| ==> r[i] == k[i] ^ pad
  {
    seq(|k|, i requires 0 <= i < |k| => k[i] ^ pad)
  }

  /** The inner pad `0x36` of RFC 2104, section 2. */
  const IPAD: byte := 0x36

  /** The outer pad `0x5c` of RFC 2104, section 2. */
  const OPAD: byte := 0x5c

  /** HMAC-SHA-1 of RFC 2104 with block size `blockSize`:
      H(K XOR opad, H(K XOR ipad, text)). */
  function HmacSha1Spec(key: seq<byte>, msg: seq<byte>, blockSize: nat): (mac: seq<byte>)
    ensures |mac| == 20
  {
    var k := HmacKey(key, blockSize);
    Sha1Hash(XorPad(k, OPAD) + Sha1Hash(XorPad(k, IPAD) + msg))
  }

  /** A key no longer than the block is used as it is, followed by zero
      bytes up to the block size (RFC 2104, section 2, step 1). */
  lemma HmacKeyShort(key: seq<byte>, blockSize: nat)
    requires |key| <= blockSize
    ensures var k := HmacKey(key, blockSize);
      k[..|key|] == key && forall i :: |key| <= i < blockSize ==> k[i] == 0
  {
    var k := HmacKey(key, blockSize);
    if |key| < blockSize {
      assert k == key + Zeros(blockSize - |key|);
      assert k[..|key|] == key;
      forall i | |key| <= i < blockSize
        ensures k[i] == 0
      {
        assert k[i] == Zeros(blockSize - |key|)[i - |key|];
      }
    }
  }

  /** A key longer than a block of at least 20 bytes gives the same MAC as
      its SHA-1 hash (RFC 2104, section 3). */
  lemma HmacLongKey(key: seq<byte>, msg: seq<byte>, blockSize: nat)
    requires 20 <= blockSize < |key|
    ensures HmacSha1Spec(key, msg, blockSize) == HmacSha1Spec(Sha1Hash(key), msg, blockSize)
  {
    assert HmacKey(key, blockSize) == HmacKey(Sha1Hash(key), blockSize);
  }

  /** Zero bytes appended to a key that stays within the block do not
      change the MAC: the key is zero-padded to the block anyway. */
  lemma HmacZeroPadding(key: seq<byte>, n: nat, msg: seq<byte>, blockSize: nat)
    requires |key| + n <= blockSize
    ensures HmacSha1Spec(key + Zeros(n), msg, blockSize) == HmacSha1Spec(key, msg, blockSize)
  {
    PaddedKey(key + Zeros(n), blockSize);
    PaddedKey(key, blockSize);
    assert (key + Zeros(n)) + Zeros(blockSize - |key| - n) == key + Zeros(blockSize - |key|) by {
      assert Zeros(n) + Zeros(blockSize - |key| - n) == Zeros(blockSize - |key|);
    }
  }

  /** A key no longer than the block, zero-padded to the block. */
  lemma PaddedKey(key: seq<byte>, blockSize: nat)
    requires |key| <= blockSize
    ensures HmacKey(key, blockSize) == key + Zeros(blockSize - |key|)
  {
    if |key| == blockSize {
      assert key + Zeros(0) == key;
    }
  }

  /** `hmacSha1`: the key brought to the block size, the two pad keys, then
      the nested hashes. */
  method HmacSha1(key: seq<byte>, msg: seq<byte>, blockSize: nat) returns (mac: seq<byte>)
    ensures mac == HmacSha1Spec(key, msg, blockSize)
  {
    var k := RealKey(key, blockSize);
    var innerPadKey, outerPadKey := PadKeys(k);
    var innerHash := Sha1(innerPadKey + msg);
    mac := Sha1(outerPadKey + innerHash);
  }

  /** The `realKey` of `hmacSha1`: a copy of the key, hashed when longer
      than the block (the hash swapped in and the old copy cleared), then
      zero-padded when shorter than the block. */
  method RealKey(key: seq<byte>, blockSize: nat) returns (k: seq<byte>)
    ensures k == HmacKey(key, blockSize)
  {
    var realKey := new ByteString(key);
    if |realKey.bytes| > blockSize {
      var hashed := Sha1(realKey.bytes);
      var newRealKey := new ByteString(hashed);
      SwizzleByteStrings(realKey, newRealKey);
    }
    if |realKey.bytes| < blockSize {
      realKey.bytes := realKey.bytes + Zeros(blockSize - |realKey.bytes|);
    }
    k := realKey.bytes;
  }

  /** The inner and outer pad keys of `hmacSha1`: copies of the key, XORed
      byte by byte with `0x36` and `0x5c` in one loop. */
  method PadKeys(k: seq<byte>) returns (innerPadKey: seq<byte>, outerPadKey: seq<byte>)
    ensures innerPadKey == XorPad(k, IPAD) && outerPadKey == XorPad(k, OPAD)
  {
    innerPadKey := k;
    outerPadKey := k;
    var i := 0;
    while i < |k|
      invariant 0 <= i <= |k| == |innerPadKey| == |outerPadKey|
      invariant forall t :: 0 <= t < i ==> innerPadKey[t] == k[t] ^ IPAD
      invariant forall t :: i <= t < |k| ==> innerPadKey[t] == k[t]
      invariant forall t :: 0 <= t < i ==> outerPadKey[t] == k[t] ^ OPAD
      invariant forall t :: i <= t < |k| ==> outerPadKey[t] == k[t]
    {
      innerPadKey := innerPadKey[i := innerPadKey[i] ^ IPAD];
      outerPadKey := outerPadKey[i := outerPadKey[i] ^ OPAD];
      i := i + 1;
    }
  }
}
