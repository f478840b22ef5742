/** Byte strings and the byte-level conversions of bytes.cpp: best-effort
    erasure of owned byte strings, lower-case hexadecimal text, and the
    big-endian serialisation of unsigned 32- and 64-bit integers. */
module Bytes {
  import opened Wrappers

  /** `Byte`: an unsigned 8-bit value. */
  type byte = bv8

  /** The byte string of `n` zero bytes. */
  function Zeros(n: nat): (z: seq<byte>)
    ensures |z| == n
  {
    seq(n, _ => 0)
  }

  /** `ByteString`: a byte string owned by its holder. Erasure overwrites it
      in place, so every holder of the same object sees the zeros. */
  class ByteString {
    var bytes: seq<byte>

    constructor (init: seq<byte>)
      ensures bytes == init
    {
      bytes := init;
    }
  }

  /** `clearByteString`: overwrites every byte of `bstr` with zero, one
      element at a time, and keeps its length. */
  method ClearByteString(bstr: ByteString)
    modifies bstr
    ensures bstr.bytes == Zeros(|old(bstr.bytes)|)
  {
    var i := 0;
    while i < |bstr.bytes|
      invariant 0 <= i <= |bstr.bytes| == |old(bstr.bytes)|
      invariant forall k :: 0 <= k < i ==> bstr.bytes[k] == 0
    {
      bstr.bytes := bstr.bytes[i := 0];
      i := i + 1;
    }
    assert bstr.bytes == Zeros(|old(bstr.bytes)|);
  }

  /** `swizzleByteStrings`: erases `target`, gives it the contents of
      `source`, then erases `source`. When both name the same string, the
      string ends up erased. */
  method SwizzleByteStrings(target: ByteString, source: ByteString)
    modifies target, source
    ensures target != source ==> target.bytes == old(source.bytes)
    ensures target != source ==> source.bytes == Zeros(|old(source.bytes)|)
    ensures target == source ==> target.bytes == Zeros(|old(target.bytes)|)
  {
    ClearByteString(target);
    target.bytes := source.bytes;
    ClearByteString(source);
  }

  // ---------------------------------------------------------------------
  // Hexadecimal text
  // ---------------------------------------------------------------------

  /** The characters `hexToNibble` accepts: `[0-9A-Fa-f]`. */
  predicate IsHexDigit(c: char) {
    ('0' <= c <= '9') || ('A' <= c <= 'F') || ('a' <= c <= 'f')
  }

  /** The characters `nibbleToLCHex` produces: `[0-9a-f]`. */
  predicate IsLowerHexDigit(c: char) {
    ('0' <= c <= '9') || ('a' <= c <= 'f')
  }

  /** `hexToNibble`: the value of a hexadecimal digit of either case. The C++
      code asserts that its argument is such a digit. */
  function HexToNibble(c: char): (nib: byte)
    requires IsHexDigit(c)
    ensures nib < 0x10
  {
    if '0' <= c <= '9' then (c as int - '0' as int) as byte
    else if 'A' <= c <= 'F' then (c as int - 'A' as int + 10) as byte
    else (c as int - 'a' as int + 10) as byte
  }

  /** `nibbleToLCHex`: the lower-case digit of a nibble. The C++ code
      asserts that its argument is below 16. */
  function NibbleToLCHex(nib: byte): (c: char)
    requires nib < 0x10
    ensures IsLowerHexDigit(c)
  {
    if nib < 0xa then (nib as int + '0' as int) as char
    else ((nib - 10) as int + 'a' as int) as char
  }

  /** A small integer survives the trip through a byte. */
  lemma SmallByte(n: int)
    requires 0 <= n < 32
    ensures (n as byte) as int == n
  {
  }

  /** A byte survives the trip through an integer. */
  lemma ByteAsInt(b: byte)
    ensures (b as int) as byte == b
  {
  }

  /** The digit of a nibble reads back as that nibble. */
  lemma NibbleDigitReadsBack(nib: byte)
    requires nib < 0x10
    ensures HexToNibble(NibbleToLCHex(nib)) == nib
  {
    ByteAsInt(nib);
    if nib < 0xa {
      assert NibbleToLCHex(nib) as int == nib as int + '0' as int;
    } else {
      assert NibbleToLCHex(nib) as int == nib as int - 10 + 'a' as int;
    }
  }

  /** An upper-case digit `A`-`F` reads as 10 to 15, the same value as its
      lower-case form: `hexToNibble` ignores case. */
  lemma UpperDigitReadsAsLower(c: char)
    requires 'A' <= c <= 'F'
    ensures 10 <= HexToNibble(c) <= 15
    ensures HexToNibble(c) == HexToNibble((c as int - 'A' as int + 'a' as int) as char)
  {
    SmallByte(c as int - 'A' as int + 10);
  }

  /** A lower-case digit is the digit of the nibble it reads as. */
  lemma LowerDigitReadsBack(c: char)
    requires IsLowerHexDigit(c)
    ensures NibbleToLCHex(HexToNibble(c)) == c
  {
    var nib := HexToNibble(c);
    if '0' <= c <= '9' {
      SmallByte(c as int - '0' as int);
      assert nib < 0xa && nib as int + '0' as int == c as int;
    } else {
      SmallByte(c as int - 'a' as int + 10);
      assert nib >= 0xa && (nib - 10) as int + 'a' as int == c as int;
    }
  }

  /** The two nibbles `toHexString` emits for one byte, high nibble first. */
  function HexPair(b: byte): string {
    [NibbleToLCHex((b >> 4) & 0x0F), NibbleToLCHex((b >> 0) & 0x0F)]
  }

  /** The hexadecimal text of `bs`: two digits per byte. */
  function Hex(bs: seq<byte>): (s: string)
    ensures |s| == 2 * |bs|
  {
    if bs == [] then "" else Hex(bs[..|bs| - 1]) + HexPair(bs[|bs| - 1])
  }

  /** The digits of byte `i` sit at `2 * i` and `2 * i + 1`. */
  lemma {:induction false} HexAt(bs: seq<byte>)
    ensures forall i :: 0 <= i < |bs| ==>
      Hex(bs)[2 * i] == HexPair(bs[i])[0] && Hex(bs)[2 * i + 1] == HexPair(bs[i])[1]
  {
    if bs != [] {
      var init := bs[..|bs| - 1];
      HexAt(init);
      assert Hex(bs) == Hex(init) + HexPair(bs[|bs| - 1]);
      forall i | 0 <= i < |init|
        ensures Hex(bs)[2 * i] == HexPair(bs[i])[0] && Hex(bs)[2 * i + 1] == HexPair(bs[i])[1]
      {
        assert bs[i] == init[i];
      }
    }
  }

  /** Every character of the hexadecimal text is a lower-case digit, and the
      digits of byte `i` read back as its high nibble (at `2 * i`) and its
      low nibble (at `2 * i + 1`). */
  lemma HexDigitsRead(bs: seq<byte>)
    ensures forall j :: 0 <= j < |Hex(bs)| ==> IsLowerHexDigit(Hex(bs)[j])
    ensures forall i :: 0 <= i < |bs| ==>
      IsLowerHexDigit(Hex(bs)[2 * i]) && HexToNibble(Hex(bs)[2 * i]) == bs[i] >> 4 &&
      IsLowerHexDigit(Hex(bs)[2 * i + 1]) && HexToNibble(Hex(bs)[2 * i + 1]) == bs[i] & 0x0F
  {
    HexAt(bs);
    forall i | 0 <= i < |bs|
      ensures IsLowerHexDigit(Hex(bs)[2 * i]) && HexToNibble(Hex(bs)[2 * i]) == bs[i] >> 4
      ensures IsLowerHexDigit(Hex(bs)[2 * i + 1]) && HexToNibble(Hex(bs)[2 * i + 1]) == bs[i] & 0x0F
    {
      HexPairReads(bs[i]);
    }
    forall j | 0 <= j < |Hex(bs)|
      ensures IsLowerHexDigit(Hex(bs)[j])
    {
      var i := j / 2;
      HexPairReads(bs[i]);
      if j % 2 == 0 {
        assert j == 2 * i;
      } else {
        assert j == 2 * i + 1;
      }
    }
  }

  /** The two digits of a byte are lower-case digits that read back as its
      high and its low nibble. */
  lemma HexPairReads(b: byte)
    ensures IsLowerHexDigit(HexPair(b)[0]) && HexToNibble(HexPair(b)[0]) == b >> 4
    ensures IsLowerHexDigit(HexPair(b)[1]) && HexToNibble(HexPair(b)[1]) == b & 0x0F
  {
    NibbleOfByte(b);
    NibbleDigitReadsBack(b >> 4);
    NibbleDigitReadsBack(b & 0x0F);
  }

  /** Masking after the shift leaves the nibbles of a byte unchanged. */
  lemma NibbleOfByte(b: byte)
    ensures (b >> 4) & 0x0F == b >> 4 && (b >> 0) & 0x0F == b & 0x0F
  {
  }

  /** Appending one byte appends its two digits. */
  lemma HexAppend(bs: seq<byte>, b: byte)
    ensures Hex(bs + [b]) == Hex(bs) + HexPair(b)
  {
    assert (bs + [b])[..|bs|] == bs;
  }

  /** `toHexString`: appends the two digits of each byte in turn. */
  method ToHexString(bstr: seq<byte>) returns (ret: string)
    ensures ret == Hex(bstr)
  {
    ret := "";
    for i := 0 to |bstr|
      invariant ret == Hex(bstr[..i])
    {
      var b := bstr[i];
      ghost var pre := ret;
      ret := ret + [NibbleToLCHex((b >> 4) & 0x0F)];
      ret := ret + [NibbleToLCHex((b >> 0) & 0x0F)];
      assert ret == pre + HexPair(b);
      assert bstr[..i + 1] == bstr[..i] + [b];
      HexAppend(bstr[..i], b);
    }
    assert bstr[..|bstr|] == bstr;
  }

  /** The hexadecimal digits of `s`, in order, with every other character
      dropped. */
  function HexDigitsOf(s: string): (h: string)
    ensures |h| <= |s|
    ensures forall i :: 0 <= i < |h| ==> IsHexDigit(h[i])
  {
    if s == [] then ""
    else HexDigitsOf(s[..|s| - 1]) + (if IsHexDigit(s[|s| - 1]) then [s[|s| - 1]] else [])
  }

  /** A string made only of hexadecimal digits is its own filtering. */
  lemma {:induction false} HexDigitsOfDigits(s: string)
    requires forall i :: 0 <= i < |s| ==> IsHexDigit(s[i])
    ensures HexDigitsOf(s) == s
  {
    if s != [] {
      HexDigitsOfDigits(s[..|s| - 1]);
    }
  }

  /** The bytes of an even-length run of hexadecimal digits, two digits per
      byte, the first digit giving the high nibble. */
  function HexPairsToBytes(h: string): (bs: seq<byte>)
    requires |h| % 2 == 0
    requires forall i :: 0 <= i < |h| ==> IsHexDigit(h[i])
    ensures |bs| == |h| / 2
  {
    if h == [] then []
    else HexPairsToBytes(h[..|h| - 2]) + [(HexToNibble(h[|h| - 2]) << 4) | HexToNibble(h[|h| - 1])]
  }

  /** Two more digits append the byte they make. */
  lemma HexPairsStep(h: string, i: nat)
    requires i + 2 <= |h| && i % 2 == 0
    requires forall k :: 0 <= k < |h| ==> IsHexDigit(h[k])
    ensures HexPairsToBytes(h[..i + 2]) == HexPairsToBytes(h[..i]) + [(HexToNibble(h[i]) << 4) | HexToNibble(h[i + 1])]
  {
    var next := h[..i + 2];
    assert next[..i] == h[..i] && next[i] == h[i] && next[i + 1] == h[i + 1];
  }

  /** Byte `i` of the decoding has digit `2 * i` as its high nibble and digit
      `2 * i + 1` as its low nibble. */
  lemma {:induction false} HexPairsRead(h: string)
    requires |h| % 2 == 0
    requires forall i :: 0 <= i < |h| ==> IsHexDigit(h[i])
    ensures forall i :: 0 <= i < |h| / 2 ==>
      HexPairsToBytes(h)[i] >> 4 == HexToNibble(h[2 * i]) &&
      HexPairsToBytes(h)[i] & 0x0F == HexToNibble(h[2 * i + 1])
  {
    if h != [] {
      var init := h[..|h| - 2];
      HexPairsRead(init);
      var bs := HexPairsToBytes(h);
      forall i | 0 <= i < |h| / 2
        ensures bs[i] >> 4 == HexToNibble(h[2 * i]) && bs[i] & 0x0F == HexToNibble(h[2 * i + 1])
      {
        if i < |init| / 2 {
          assert bs[i] == HexPairsToBytes(init)[i];
          assert h[2 * i] == init[2 * i] && h[2 * i + 1] == init[2 * i + 1];
        } else {
          NibblesCombine(HexToNibble(h[2 * i]), HexToNibble(h[2 * i + 1]));
        }
      }
    }
  }

  /** Combining two nibbles gives the byte with those nibbles. */
  lemma NibblesCombine(top: byte, btm: byte)
    requires top < 0x10 && btm < 0x10
    ensures ((top << 4) | btm) >> 4 == top && ((top << 4) | btm) & 0x0F == btm
  {
  }

  /** The one error of `fromHexStringSkipUnknown`. */
  datatype HexError = OddHexDigitCount

  /** Hexadecimal decoding that skips every non-digit character and fails
      when an odd number of digits remains. */
  function HexDecode(s: string): Result<seq<byte>, HexError> {
    var h := HexDigitsOf(s);
    if |h| % 2 != 0 then Failure(OddHexDigitCount) else Success(HexPairsToBytes(h))
  }

  /** `fromHexStringSkipUnknown`: collects the digits, rejects an odd count,
      then combines the digits two by two. */
  method FromHexStringSkipUnknown(str: string) returns (r: Result<seq<byte>, HexError>)
    ensures r == HexDecode(str)
  {
    var hstr := CollectHexDigits(str);
    if |hstr| % 2 != 0 {
      return Failure(OddHexDigitCount);
    }
    var ret := CombineHexPairs(hstr);
    r := Success(ret);
  }

  /** The first loop of `fromHexStringSkipUnknown`: keeps the characters in
      `[0-9A-Fa-f]`, in order. */
  method CollectHexDigits(str: string) returns (hstr: string)
    ensures hstr == HexDigitsOf(str)
  {
    hstr := "";
    for i := 0 to |str|
      invariant hstr == HexDigitsOf(str[..i])
    {
      var c := str[i];
      if ('0' <= c <= '9') || ('A' <= c <= 'F') || ('a' <= c <= 'f') {
        hstr := hstr + [c];
      }
      assert str[..i + 1][..i] == str[..i];
    }
    assert str[..|str|] == str;
  }

  /** The second loop of `fromHexStringSkipUnknown`: one byte per pair of
      digits, the first digit giving the high nibble. */
  method CombineHexPairs(hstr: string) returns (ret: seq<byte>)
    requires |hstr| % 2 == 0
    requires forall k :: 0 <= k < |hstr| ==> IsHexDigit(hstr[k])
    ensures ret == HexPairsToBytes(hstr)
  {
    ret := [];
    var i := 0;
    while i < |hstr|
      invariant 0 <= i <= |hstr| && i % 2 == 0
      invariant ret == HexPairsToBytes(hstr[..i])
    {
      var top := HexToNibble(hstr[i + 0]);
      var btm := HexToNibble(hstr[i + 1]);
      ret := ret + [(top << 4) | btm];
      HexPairsStep(hstr, i);
      i := i + 2;
    }
    assert hstr[..|hstr|] == hstr;
  }

  /** Decoding the hexadecimal text of any byte string gives that byte
      string back. */
  lemma {:induction false} HexRoundTrip(bs: seq<byte>)
    ensures HexDecode(Hex(bs)) == Success(bs)
  {
    var h := Hex(bs);
    HexDigitsRead(bs);
    HexDigitsOfDigits(h);
    var back := HexPairsToBytes(h);
    HexPairsRead(h);
    forall i | 0 <= i < |bs|
      ensures back[i] == bs[i]
    {
      NibblesDetermineByte(back[i], bs[i]);
    }
    assert back == bs;
  }

  /** A byte is determined by its two nibbles. */
  lemma NibblesDetermineByte(x: byte, y: byte)
    requires x >> 4 == y >> 4 && x & 0x0F == y & 0x0F
    ensures x == y
  {
  }

  // ---------------------------------------------------------------------
  // Big-endian integers
  // ---------------------------------------------------------------------

  /** The 32-bit value of four bytes read most significant first, assembled
      with shifts and ORs as the SHA-1 message schedule and the HOTP
      truncation do it. */
  function BeWord(b0: byte, b1: byte, b2: byte, b3: byte): bv32 {
    ((b0 as bv32) << 24) | ((b1 as bv32) << 16) | ((b2 as bv32) << 8) | ((b3 as bv32) << 0)
  }

  /** `u32beToByteString`: four bytes, most significant first, that read back
      as `num`. */
  function U32beToByteString(num: bv32): (r: seq<byte>)
    ensures |r| == 4
    ensures BeWord(r[0], r[1], r[2], r[3]) == num
  {
    [((num >> 24) & 0xFF) as byte,
     ((num >> 16) & 0xFF) as byte,
     ((num >>  8) & 0xFF) as byte,
     ((num >>  0) & 0xFF) as byte]
  }

  /** Serialising the value of four bytes gives those four bytes back, so
      `U32beToByteString` and `BeWord` are inverse bijections. */
  lemma BeWordRoundTrip(b0: byte, b1: byte, b2: byte, b3: byte)
    ensures U32beToByteString(BeWord(b0, b1, b2, b3)) == [b0, b1, b2, b3]
  {
  }

  /** `u64beToByteString`: the high 32-bit half, then the low half, eight
      bytes that read back as `num`. */
  function U64beToByteString(num: bv64): (r: seq<byte>)
    ensures |r| == 8
    ensures ((BeWord(r[0], r[1], r[2], r[3]) as bv64) << 32) | (BeWord(r[4], r[5], r[6], r[7]) as bv64) == num
  {
    var left := U32beToByteString(((num >> 32) & 0xFFFF_FFFF) as bv32);
    var right := U32beToByteString(((num >> 0) & 0xFFFF_FFFF) as bv32);
    left + right
  }
}
