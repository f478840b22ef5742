/** The Base32 codec of bytes.cpp (section 6 of RFC 4648): every group of up
    to five bytes becomes one chunk of eight characters from `A`-`Z` and
    `2`-`7`, filled up with `=`. */
module Base32 {
  import opened Wrappers
  import opened Bytes

  /** The `std::invalid_argument` exceptions the codec throws. */
  datatype Base32Error =
    | LengthNotMultipleOf8              // fromBase32: the text does not split into chunks
    | ChunkLengthNot8                   // b32ChunkToBytes: a chunk of the wrong length
    | PaddingFollowedByData             // a non-`=` character after a `=`
    | NotBase32Character(c: char)       // a character outside the alphabet and `=`
    | InvalidPadCount(padcount: nat)    // a number of `=` that no byte count produces
    | ChunkSizeOutOfRange               // bytesToB32Chunk: not between 1 and 5 bytes

  // ---------------------------------------------------------------------
  // The alphabet
  // ---------------------------------------------------------------------

  /** The data characters of the alphabet. */
  predicate IsB32Digit(c: char) {
    ('A' <= c <= 'Z') || ('2' <= c <= '7')
  }

  /** The five-bit value of a data character: `A`-`Z` are 0-25, `2`-`7` are
      26-31. */
  function B32DigitValue(c: char): (v: byte)
    requires IsB32Digit(c)
    ensures v < 32
  {
    if 'A' <= c <= 'Z' then (c as int - 'A' as int) as byte
    else (c as int - '2' as int + 26) as byte
  }

  /** The data character of a five-bit value. */
  function B32Digit(val: byte): (c: char)
    requires val < 32
    ensures IsB32Digit(c)
  {
    if val < 26 then (val as int + 'A' as int) as char
    else ((val - 26) as int + '2' as int) as char
  }

  /** The character of a value reads back as that value. */
  lemma B32DigitValueOfDigit(val: byte)
    requires val < 32
    ensures B32DigitValue(B32Digit(val)) == val
  {
    if val < 26 {
      assert B32Digit(val) as int == val as int + 'A' as int;
    } else {
      assert B32Digit(val) as int == val as int - 26 + '2' as int;
    }
  }

  /** The value of a character maps back to that character. */
  lemma B32DigitOfValue(c: char)
    requires IsB32Digit(c)
    ensures B32Digit(B32DigitValue(c)) == c
  {
    if 'A' <= c <= 'Z' {
      SmallByte(c as int - 'A' as int);
    } else {
      SmallByte(c as int - '2' as int + 26);
    }
  }

  // ---------------------------------------------------------------------
  // Encoding one chunk
  // ---------------------------------------------------------------------

  /** The 40-bit group of one to five bytes, first byte in the top bits and
      missing bytes as zeros, kept in the low 40 bits of a 64-bit value. */
  function ChunkBits(bs: seq<byte>): bv64
    requires 1 <= |bs| <= 5
  {
    ((bs[0] as bv64) << 32)
    | (if |bs| > 1 then (bs[1] as bv64) << 24 else 0)
    | (if |bs| > 2 then (bs[2] as bv64) << 16 else 0)
    | (if |bs| > 3 then (bs[3] as bv64) << 8 else 0)
    | (if |bs| > 4 then (bs[4] as bv64) << 0 else 0)
  }

  /** The number of data characters for `n` bytes (2, 4, 5, 7 or 8), counted
      up the way `bytesToB32Chunk` counts `putchars`: the fewest five-bit
      characters that hold `8 * n` bits. */
  function DataCharCount(n: nat): (count: nat)
    requires 1 <= n <= 5
    ensures count == (8 * n + 4) / 5
    ensures 5 * (count - 1) < 8 * n <= 5 * count
  {
    2 + (if n > 1 then 2 else 0) + (if n > 2 then 1 else 0) + (if n > 3 then 2 else 0) + (if n > 4 then 1 else 0)
  }

  /** The five-bit group `i` (0 to 7, from the top) of a 40-bit group:
      `(whole >> ((7 - i) * 5)) & 0x1F`. */
  function Quintet(whole: bv64, i: nat): (v: byte)
    requires i < 8
    ensures v < 32
  {
    (QuintetDown(whole, i) & 0x1F) as byte
  }

  /** `whole >> ((7 - i) * 5)`, written out for each `i`. */
  function QuintetDown(whole: bv64, i: nat): bv64
    requires i < 8
  {
    if i == 0 then whole >> 35 else if i == 1 then whole >> 30
    else if i == 2 then whole >> 25 else if i == 3 then whole >> 20
    else if i == 4 then whole >> 15 else if i == 5 then whole >> 10
    else if i == 6 then whole >> 5 else whole
  }

  /** Five bits moved to the place of quintet `i`: `bits << ((7 - i) * 5)`. */
  function Place(bits: bv64, i: nat): bv64
    requires i < 8
  {
    if i == 0 then bits << 35 else if i == 1 then bits << 30
    else if i == 2 then bits << 25 else if i == 3 then bits << 20
    else if i == 4 then bits << 15 else if i == 5 then bits << 10
    else if i == 6 then bits << 5 else bits
  }

  /** The characters of the first `count` quintets of a 40-bit group. */
  function DataChars(whole: bv64, count: nat): (s: string)
    requires count <= 8
    ensures |s| == count
    ensures forall i :: 0 <= i < count ==> IsB32Digit(s[i])
  {
    seq(count, i requires 0 <= i < count => B32Digit(Quintet(whole, i)))
  }

  /** `n` padding characters. */
  function Padding(n: nat): (s: string)
    ensures |s| == n
  {
    seq(n, _ => '=')
  }

  /** The chunk of one to five bytes: their data characters, then `=` up to
      eight characters. */
  function EncodeChunk(bs: seq<byte>): (s: string)
    requires 1 <= |bs| <= 5
    ensures |s| == 8
  {
    var d := DataCharCount(|bs|);
    DataChars(ChunkBits(bs), d) + Padding(8 - d)
  }

  /** Chunk encoding with the size check of `bytesToB32Chunk`. */
  function ChunkEncoding(bs: seq<byte>): Result<string, Base32Error> {
    if |bs| < 1 || |bs| > 5 then Failure(ChunkSizeOutOfRange) else Success(EncodeChunk(bs))
  }

  /** The first half of `bytesToB32Chunk`: shifts the bytes into `whole`
      and counts the data characters in `putchars`. */
  method PackChunk(bs: seq<byte>) returns (whole: bv64, putchars: nat)
    requires 1 <= |bs| <= 5
    ensures whole == ChunkBits(bs)
    ensures putchars == DataCharCount(|bs|)
  {
    whole := 0x00;
    putchars := 2;

    whole := whole | ((bs[0] as bv64) << 32);
    if |bs| > 1 {
      whole := whole | ((bs[1] as bv64) << 24);
      putchars := putchars + 2;
    }
    if |bs| > 2 {
      whole := whole | ((bs[2] as bv64) << 16);
      putchars := putchars + 1;
    }
    if |bs| > 3 {
      whole := whole | ((bs[3] as bv64) << 8);
      putchars := putchars + 2;
    }
    if |bs| > 4 {
      whole := whole | (bs[4] as bv64);
      putchars := putchars + 1;
    }
  }

  /** `bytesToB32Chunk`: rejects a chunk of 0 or more than 5 bytes, packs the
      bytes, emits `putchars` characters and pads with `=`. */
  method BytesToB32Chunk(bs: seq<byte>) returns (r: Result<string, Base32Error>)
    ensures r == ChunkEncoding(bs)
  {
    if |bs| < 1 || |bs| > 5 {
      return Failure(ChunkSizeOutOfRange);
    }

    var whole, putchars := PackChunk(bs);
    var ret := EmitQuintets(whole, putchars);

    var i := putchars;
    while i < 8
      invariant putchars <= i <= 8
      invariant ret == DataChars(whole, putchars) + Padding(i - putchars)
    {
      ret := ret + ['='];
      assert Padding(i + 1 - putchars) == Padding(i - putchars) + ['='];
      i := i + 1;
    }
    r := Success(ret);
  }

  /** The first loop of the second half of `bytesToB32Chunk`: the characters
      of the top `putchars` quintets of `whole`, top quintet first. */
  method EmitQuintets(whole: bv64, putchars: nat) returns (ret: string)
    requires putchars <= 8
    ensures ret == DataChars(whole, putchars)
  {
    ret := "";
    ghost var chars := DataChars(whole, putchars);
    var i := 0;
    while i < putchars
      invariant 0 <= i <= putchars
      invariant ret == chars[..i]
    {
      var val := Quintet(whole, i);
      var c;
      if val < 26 {
        c := (val as int + 'A' as int) as char;
      } else {
        c := ((val - 26) as int + '2' as int) as char;
      }
      assert c == chars[i];
      ret := ret + [c];
      assert chars[..i + 1] == chars[..i] + [chars[i]];
      i := i + 1;
    }
    assert chars[..putchars] == chars;
  }

  // ---------------------------------------------------------------------
  // Decoding one chunk
  // ---------------------------------------------------------------------

  /** The index of the first `=` of `s`, or `|s|` when there is none. */
  function FirstPad(s: string): (p: nat)
    ensures p <= |s|
    ensures forall i :: 0 <= i < p ==> s[i] != '='
    ensures p < |s| ==> s[p] == '='
  {
    if s == [] || s[0] == '=' then 0 else 1 + FirstPad(s[1..])
  }

  /** The index of the first character of `s` that is not a data character,
      or `|s|` when there is none. */
  function FirstNonDigit(s: string): (k: nat)
    ensures k <= |s|
    ensures forall i :: 0 <= i < k ==> IsB32Digit(s[i])
    ensures k < |s| ==> !IsB32Digit(s[k])
  {
    if s == [] || !IsB32Digit(s[0]) then 0 else 1 + FirstNonDigit(s[1..])
  }

  /** Every character of `s` is `=`. */
  predicate AllPadding(s: string) {
    forall i :: 0 <= i < |s| ==> s[i] == '='
  }

  /** The number of bytes a chunk with `padcount` padding characters decodes
      to (the `switch` of `b32ChunkToBytes`). */
  function BytesForPadCount(padcount: nat): (r: Result<nat, Base32Error>)
    ensures r.Success? ==> 1 <= r.value <= 5 && padcount == 8 - DataCharCount(r.value)
    ensures r.Failure? ==> r.error == InvalidPadCount(padcount)
  {
    if padcount == 0 then Success(5)
    else if padcount == 1 then Success(4)
    else if padcount == 3 then Success(3)
    else if padcount == 4 then Success(2)
    else if padcount == 6 then Success(1)
    else Failure(InvalidPadCount(padcount))
  }

  /** The pad counts the decoder accepts are exactly those the encoder
      produces: `8 - DataCharCount(n)` for `n` of 1 to 5 bytes, and they
      decode to `n` bytes. */
  lemma PadCountsMatchEncoder(padcount: nat, n: nat)
    ensures BytesForPadCount(padcount) == Success(n) <==>
      1 <= n <= 5 && padcount == 8 - DataCharCount(n)
  {
  }


  /** The bits a chunk character puts into the group: its value for a data
      character, zero for `=` (the decoder never reaches another). */
  function CharBits(c: char): bv64 {
    if IsB32Digit(c) then B32DigitValue(c) as bv64 else 0
  }

  /** The bits of each character of a chunk. */
  function CharValues(s: string): (v: seq<bv64>)
    ensures |v| == |s|
  {
    seq(|s|, i requires 0 <= i < |s| => CharBits(s[i]))
  }

  /** The group of the first `n` five-bit values, value `i` in bits
      `39 - 5 * i` down to `35 - 5 * i`. */
  function Packed(v: seq<bv64>, n: nat): bv64
    requires n <= |v| && n <= 8
  {
    if n == 0 then 0 else Packed(v, n - 1) | Place(v[n - 1], n - 1)
  }

  /** The group of the first `n` characters of a chunk. */
  function PackedChars(s: string, n: nat): bv64
    requires n <= |s| && n <= 8
  {
    Packed(CharValues(s), n)
  }

  /** The number of `=` in `s`. */
  function PadCount(s: string): nat {
    if s == [] then 0 else PadCount(s[..|s| - 1]) + (if s[|s| - 1] == '=' then 1 else 0)
  }

  /** The top `n` bytes of a 40-bit group. */
  function GroupBytes(whole: bv64, n: nat): (bs: seq<byte>)
    requires n <= 5
    ensures |bs| == n
  {
    if n == 0 then [] else GroupBytes(whole, n - 1) + [GroupByte(whole, n - 1)]
  }

  /** Byte `k` (0 to 4, from the top) of a 40-bit group:
      `(whole >> ((4 - k) * 8)) & 0xFF`. */
  function GroupByte(whole: bv64, k: nat): byte
    requires k < 5
  {
    (ByteDown(whole, k) & 0xFF) as byte
  }

  /** `whole >> ((4 - k) * 8)`, written out for each `k`. */
  function ByteDown(whole: bv64, k: nat): bv64
    requires k < 5
  {
    if k == 0 then whole >> 32 else if k == 1 then whole >> 24
    else if k == 2 then whole >> 16 else if k == 3 then whole >> 8 else whole
  }

  /** The character loop of `b32ChunkToBytes` on a chunk of eight
      characters: the first error in reading order, or the group of the
      characters and the number of `=`. */
  function ScanChunk(s: string): (r: Result<(bv64, nat), Base32Error>)
    requires |s| == 8
  {
    var p := FirstPad(s);
    var k := FirstNonDigit(s[..p]);
    if k < p then Failure(NotBase32Character(s[k]))
    else if !AllPadding(s[p..]) then Failure(PaddingFollowedByData)
    else Success((PackedChars(s, |s|), 8 - p))
  }

  /** What the character loop of `b32ChunkToBytes` lets through and what it
      stops at: a chunk it accepts holds only data characters and `=`, with
      at most 8 `=`; a chunk it rejects holds the character it names, which
      is neither `=` nor a data character, or has data after padding. */
  lemma ScanChunkOutcome(s: string)
    requires |s| == 8
    ensures ScanChunk(s).Success? ==> AllB32Chars(s) && ScanChunk(s).value.1 <= 8
    ensures ScanChunk(s).Failure? && ScanChunk(s).error.NotBase32Character? ==>
      var c := ScanChunk(s).error.c; c in s && c != '=' && !IsB32Digit(c)
    ensures ScanChunk(s).Failure? ==>
      ScanChunk(s).error == PaddingFollowedByData || ScanChunk(s).error.NotBase32Character?
  {
  }

  /** A chunk that decodes holds only data characters and `=`. */
  lemma DecodeChunkChars(s: string)
    requires DecodeChunk(s).Success?
    ensures |s| == 8 && AllB32Chars(s)
  {
  }

  /** Chunk decoding: the length check, the character loop, then the bytes
      the group holds, as many as the number of `=` says. */
  function DecodeChunk(s: string): (r: Result<seq<byte>, Base32Error>)
    ensures r.Success? ==> |s| == 8 && 1 <= |r.value| <= 5
    ensures r != Failure(LengthNotMultipleOf8)
  {
    if |s| != 8 then Failure(ChunkLengthNot8)
    else
      match ScanChunk(s)
      case Failure(e) => Failure(e)
      case Success((whole, padcount)) =>
        match BytesForPadCount(padcount)
        case Failure(e) => Failure(e)
        case Success(n) => Success(GroupBytes(whole, n))
  }

  /** The character loop of `b32ChunkToBytes`: fails at the first
      character that is neither `=` nor a data character and at the first
      data character after a `=`, shifts the bits of the characters into
      `whole` and counts the `=` in `padcount`. */
  method ReadChunk(str: string) returns (r: Result<(bv64, nat), Base32Error>)
    requires |str| == 8
    ensures r == ScanChunk(str)
  {
    var whole: bv64 := 0x00;
    var padcount := 0;

    var i := 0;
    while i < 8
      invariant 0 <= i <= 8
      invariant ScannedPrefix(str, i, padcount)
      invariant whole == PackedChars(str, i)
    {
      var step := ReadChar(str, i, whole, padcount);
      if step.Failure? {
        return Failure(step.error);
      }
      whole, padcount := step.value.0, step.value.1;
      i := i + 1;
    }
    ScannedPrefixShape(str, 8, padcount);
    ScanWellFormed(str, 8 - padcount);
    r := Success((whole, padcount));
  }

  /** One round of the character loop of `b32ChunkToBytes`: character `i`
      either stops the scan with the error the whole chunk scans to, or is
      shifted into `whole` (a `=` as zero bits, counted in `padcount`). */
  method ReadChar(str: string, i: nat, whole: bv64, padcount: nat)
      returns (r: Result<(bv64, nat), Base32Error>)
    requires |str| == 8 && i < 8
    requires ScannedPrefix(str, i, padcount) && whole == PackedChars(str, i)
    ensures r.Failure? ==> r == ScanChunk(str)
    ensures r.Success? ==>
      ScannedPrefix(str, i + 1, r.value.1) && r.value.0 == PackedChars(str, i + 1)
  {
    var c := str[i];
    var bits: bv64;
    var count := padcount;
    if c == '=' {
      bits := 0;
      count := count + 1;
    } else if padcount > 0 {
      ScannedPrefixShape(str, i, padcount);
      ScanDataAfterPad(str, i - padcount, i);
      return Failure(PaddingFollowedByData);
    } else if 'A' <= c <= 'Z' {
      bits := B32DigitValue(c) as bv64;
    } else if '2' <= c <= '7' {
      bits := B32DigitValue(c) as bv64;
    } else {
      ScannedPrefixShape(str, i, padcount);
      ScanBadCharacter(str, i);
      return Failure(NotBase32Character(c));
    }
    var whole' := ShiftIntoGroup(str, i, whole, bits);
    r := Success((whole', count));
  }

  /** The first `i` characters of `s` are data characters, then
      `padcount` times `=`, read one character at a time from the back as
      the character loop of `b32ChunkToBytes` reads them from the front. */
  ghost predicate ScannedPrefix(s: string, i: nat, padcount: nat)
    requires i <= |s|
  {
    if i == 0 then padcount == 0
    else if s[i - 1] == '=' then padcount > 0 && ScannedPrefix(s, i - 1, padcount - 1)
    else padcount == 0 && IsB32Digit(s[i - 1]) && ScannedPrefix(s, i - 1, 0)
  }

  /** What `ScannedPrefix` says, character by character. */
  lemma {:induction false} ScannedPrefixShape(s: string, i: nat, padcount: nat)
    requires i <= |s| && ScannedPrefix(s, i, padcount)
    ensures padcount <= i
    ensures forall k :: 0 <= k < i - padcount ==> IsB32Digit(s[k])
    ensures forall k :: i - padcount <= k < i ==> s[k] == '='
  {
    if i > 0 {
      if s[i - 1] == '=' {
        ScannedPrefixShape(s, i - 1, padcount - 1);
      } else {
        ScannedPrefixShape(s, i - 1, 0);
      }
    }
  }

  /** `whole |= (bits << ((7 - i) * 5))`: character `n` of the chunk shifted
      into the group. */
  method ShiftIntoGroup(s: string, n: nat, whole: bv64, bits: bv64) returns (whole': bv64)
    requires n < |s| && n < 8
    requires whole == PackedChars(s, n) && bits == CharBits(s[n])
    ensures whole' == PackedChars(s, n + 1)
  {
    whole' := whole | Place(bits, n);
  }

  /** In a chunk whose first `q` characters are data characters and whose
      next ones are `=`, the first `=` is at `q`. */
  lemma FirstPadAt(s: string, q: nat, i: nat)
    requires q < i <= |s|
    requires forall k :: 0 <= k < q ==> IsB32Digit(s[k])
    requires forall k :: q <= k < i ==> s[k] == '='
    ensures FirstPad(s) == q && FirstNonDigit(s[..q]) == q
  {
    assert s[q] == '=';
  }

  /** A data character after a `=` is the first error of the scan when
      every character before the `=` is a data character. */
  lemma ScanDataAfterPad(s: string, q: nat, i: nat)
    requires |s| == 8 && q < i < 8 && s[i] != '='
    requires forall k :: 0 <= k < q ==> IsB32Digit(s[k])
    requires forall k :: q <= k < i ==> s[k] == '='
    ensures ScanChunk(s) == Failure(PaddingFollowedByData)
  {
    FirstPadAt(s, q, i);
    assert s[q..][i - q] == s[i];
  }

  /** A character that is neither `=` nor a data character, with only data
      characters before it, is the first error of the scan. */
  lemma ScanBadCharacter(s: string, i: nat)
    requires |s| == 8 && i < 8 && s[i] != '=' && !IsB32Digit(s[i])
    requires forall k :: 0 <= k < i ==> IsB32Digit(s[k])
    ensures ScanChunk(s) == Failure(NotBase32Character(s[i]))
  {
    var p := FirstPad(s);
    assert i < p;
    assert s[..p][i] == s[i];
    assert forall k :: 0 <= k < i ==> IsB32Digit(s[..p][k]);
    assert FirstNonDigit(s[..p]) == i;
  }

  /** A chunk of `q` data characters followed by `=` scans to its group and
      its number of `=`. */
  lemma ScanWellFormed(s: string, q: nat)
    requires |s| == 8 && q <= 8
    requires forall k :: 0 <= k < q ==> IsB32Digit(s[k])
    requires forall k :: q <= k < 8 ==> s[k] == '='
    ensures ScanChunk(s) == Success((PackedChars(s, 8), 8 - q))
  {
    if q < 8 {
      FirstPadAt(s, q, 8);
    } else {
      assert s[..8] == s;
    }
    assert AllPadding(s[q..]);
  }

  /** `b32ChunkToBytes`: checks the length, runs the character loop, takes
      the byte count from the number of `=` and shifts the bytes out of
      `whole`. */
  method B32ChunkToBytes(str: string) returns (r: Result<seq<byte>, Base32Error>)
    ensures r == DecodeChunk(str)
  {
    var ret := [];
    var finalcount: nat;

    if |str| != 8 {
      return Failure(ChunkLengthNot8);
    }

    var scanned := ReadChunk(str);
    if scanned.Failure? {
      return Failure(scanned.error);
    }
    var (whole, padcount) := scanned.value;

    if padcount == 0 {
      finalcount := 5;
    } else if padcount == 1 {
      finalcount := 4;
    } else if padcount == 3 {
      finalcount := 3;
    } else if padcount == 4 {
      finalcount := 2;
    } else if padcount == 6 {
      finalcount := 1;
    } else {
      return Failure(InvalidPadCount(padcount));
    }

    var i := 0;
    while i < finalcount
      invariant 0 <= i <= finalcount
      invariant ret == GroupBytes(whole, i)
    {
      ret := ret + [GroupByte(whole, i)];
      i := i + 1;
    }
    r := Success(ret);
  }

  /** The padding characters of a chunk are the last ones and a chunk
      without padding errors has as many of them as its first `=` leaves. */
  lemma {:induction false} PadCountOfPrefix(s: string, p: nat, i: nat)
    requires p <= |s| && i <= |s|
    requires forall k :: 0 <= k < p ==> s[k] != '='
    requires forall k :: p <= k < i ==> s[k] == '='
    ensures PadCount(s[..i]) == if i <= p then 0 else i - p
    decreases i
  {
    if i > 0 {
      assert s[..i][..i - 1] == s[..i - 1];
      PadCountOfPrefix(s, p, i - 1);
    }
  }

  /** A chunk scans without error exactly when its first `FirstPad(s)`
      characters are data characters and the others are `=`; the scan then
      counts the `=`. */
  lemma ScanSuccessShape(s: string)
    requires |s| == 8
    ensures ScanChunk(s).Success? <==>
      (forall k :: 0 <= k < FirstPad(s) ==> IsB32Digit(s[k])) &&
      (forall k :: FirstPad(s) <= k < 8 ==> s[k] == '=')
    ensures ScanChunk(s).Success? ==> ScanChunk(s).value.1 == PadCount(s)
  {
    var p := FirstPad(s);
    if (forall k :: 0 <= k < p ==> IsB32Digit(s[k])) && (forall k :: p <= k < 8 ==> s[k] == '=') {
      ScanWellFormed(s, p);
    }
    if ScanChunk(s).Success? {
      assert FirstNonDigit(s[..p]) == p;
      assert forall k :: 0 <= k < p ==> s[k] == s[..p][k];
      assert forall k :: p <= k < 8 ==> s[k] == s[p..][k - p];
      PadCountOfPrefix(s, p, 8);
      assert s[..8] == s;
    }
  }

  /** `b32ChunkToBytes` accepts exactly the chunks of eight characters from
      the alphabet and `=` in which no data character follows a `=` and the
      number of `=` is 0, 1, 3, 4 or 6; it then returns 5, 4, 3, 2 or 1
      bytes. */
  lemma DecodeChunkAccepts(s: string)
    requires |s| == 8
    ensures DecodeChunk(s).Success? <==>
      AllB32Chars(s) &&
      (forall i, j :: 0 <= i < j < 8 && s[i] == '=' ==> s[j] == '=') &&
      BytesForPadCount(PadCount(s)).Success?
    ensures DecodeChunk(s).Success? ==>
      |DecodeChunk(s).value| == BytesForPadCount(PadCount(s)).value
  {
    ScanSuccessShape(s);
    var p := FirstPad(s);
    if AllB32Chars(s) && (forall i, j :: 0 <= i < j < 8 && s[i] == '=' ==> s[j] == '=') {
      forall k | p <= k < 8
        ensures s[k] == '='
      {
        if k > p {
          assert s[p] == '=';
        }
      }
    }
  }

  // ---------------------------------------------------------------------
  // The chunk round trip
  // ---------------------------------------------------------------------

  /** The value of character `k` of a chunk whose first `d` characters
      are the top quintets of `whole` and whose others are `=`. */
  function QuintetValue(whole: bv64, d: nat, k: nat): bv64
    requires k < 8
  {
    if k < d then Quintet(whole, k) as bv64 else 0
  }

  /** The values of all eight characters of such a chunk. */
  function QuintetValues(whole: bv64, d: nat): (v: seq<bv64>)
    ensures |v| == 8
  {
    seq(8, k requires 0 <= k < 8 => QuintetValue(whole, d, k))
  }

  /** The group the decoder rebuilds from such a chunk, written out. */
  function Rebuilt(whole: bv64, d: nat): bv64 {
    0 | Place(QuintetValue(whole, d, 0), 0) | Place(QuintetValue(whole, d, 1), 1) |
    Place(QuintetValue(whole, d, 2), 2) | Place(QuintetValue(whole, d, 3), 3) |
    Place(QuintetValue(whole, d, 4), 4) | Place(QuintetValue(whole, d, 5), 5) |
    Place(QuintetValue(whole, d, 6), 6) | Place(QuintetValue(whole, d, 7), 7)
  }

  /** Five bytes packed into the low 40 bits, first byte on top. */
  function FiveBytes(b0: byte, b1: byte, b2: byte, b3: byte, b4: byte): bv64 {
    ((b0 as bv64) << 32) | ((b1 as bv64) << 24) | ((b2 as bv64) << 16) | ((b3 as bv64) << 8) | (b4 as bv64)
  }

  /** Character `i` of the chunk of `bs` carries quintet `i` of its group
      when it is a data character, and no bits when it is `=`. */
  lemma CharValueOfEncoding(bs: seq<byte>, i: nat)
    requires 1 <= |bs| <= 5 && i < 8
    ensures CharValues(EncodeChunk(bs))[i] == QuintetValue(ChunkBits(bs), DataCharCount(|bs|), i)
  {
    var d := DataCharCount(|bs|);
    var s := EncodeChunk(bs);
    if i < d {
      var q := Quintet(ChunkBits(bs), i);
      assert s[i] == DataChars(ChunkBits(bs), d)[i] == B32Digit(q);
      B32DigitValueOfDigit(q);
    } else {
      assert s[i] == Padding(8 - d)[i - d] == '=';
    }
  }

  /** The characters of the chunk of `bs` carry the quintets of its group
      that its data characters hold. */
  lemma EncodedValues(bs: seq<byte>)
    requires 1 <= |bs| <= 5
    ensures CharValues(EncodeChunk(bs)) == QuintetValues(ChunkBits(bs), DataCharCount(|bs|))
  {
    forall i | 0 <= i < 8
      ensures CharValues(EncodeChunk(bs))[i] == QuintetValues(ChunkBits(bs), DataCharCount(|bs|))[i]
    {
      CharValueOfEncoding(bs, i);
    }
  }

  /** Packing the eight values of a chunk gives the written-out group. */
  lemma RebuiltPacked(whole: bv64, d: nat)
    ensures Packed(QuintetValues(whole, d), 8) == Rebuilt(whole, d)
  {
    var v := QuintetValues(whole, d);
    PackedUnrolled(v);
    assert v[0] == QuintetValue(whole, d, 0) && v[1] == QuintetValue(whole, d, 1);
    assert v[2] == QuintetValue(whole, d, 2) && v[3] == QuintetValue(whole, d, 3);
    assert v[4] == QuintetValue(whole, d, 4) && v[5] == QuintetValue(whole, d, 5);
    assert v[6] == QuintetValue(whole, d, 6) && v[7] == QuintetValue(whole, d, 7);
  }

  /** The group of eight values, each value in its place. */
  lemma PackedUnrolled(v: seq<bv64>)
    requires |v| == 8
    ensures Packed(v, 8) ==
      0 | Place(v[0], 0) | Place(v[1], 1) | Place(v[2], 2) | Place(v[3], 3) |
      Place(v[4], 4) | Place(v[5], 5) | Place(v[6], 6) | Place(v[7], 7)
  {
    assert Packed(v, 0) == 0;
    PackedStep(v, 1);
    PackedStep(v, 2);
    PackedStep(v, 3);
    PackedStep(v, 4);
    PackedStep(v, 5);
    PackedStep(v, 6);
    PackedStep(v, 7);
    PackedStep(v, 8);
  }

  /** One more value ORs its bits into the group. */
  lemma PackedStep(v: seq<bv64>, n: nat)
    requires 1 <= n <= |v| && n <= 8
    ensures Packed(v, n) == Packed(v, n - 1) | Place(v[n - 1], n - 1)
  {
  }

  /** The top `n` bytes of a group, written out. */
  lemma GroupBytesUnrolled(x: bv64)
    ensures GroupBytes(x, 1) == [GroupByte(x, 0)]
    ensures GroupBytes(x, 2) == [GroupByte(x, 0), GroupByte(x, 1)]
    ensures GroupBytes(x, 3) == [GroupByte(x, 0), GroupByte(x, 1), GroupByte(x, 2)]
    ensures GroupBytes(x, 4) == [GroupByte(x, 0), GroupByte(x, 1), GroupByte(x, 2), GroupByte(x, 3)]
    ensures GroupBytes(x, 5) == [GroupByte(x, 0), GroupByte(x, 1), GroupByte(x, 2), GroupByte(x, 3), GroupByte(x, 4)]
  {
    assert GroupBytes(x, 1) == [] + [GroupByte(x, 0)];
    assert GroupBytes(x, 2) == GroupBytes(x, 1) + [GroupByte(x, 1)];
    assert GroupBytes(x, 3) == GroupBytes(x, 2) + [GroupByte(x, 2)];
    assert GroupBytes(x, 4) == GroupBytes(x, 3) + [GroupByte(x, 3)];
    assert GroupBytes(x, 5) == GroupBytes(x, 4) + [GroupByte(x, 4)];
  }

  /** Byte `k` of a chunk, or zero past its end. */
  function ByteOrZero(bs: seq<byte>, k: nat): byte {
    if k < |bs| then bs[k] else 0
  }

  /** The group of a chunk is its five bytes, missing ones as zeros. */
  lemma ChunkBitsFive(bs: seq<byte>)
    requires 1 <= |bs| <= 5
    ensures ChunkBits(bs) ==
      FiveBytes(bs[0], ByteOrZero(bs, 1), ByteOrZero(bs, 2), ByteOrZero(bs, 3), ByteOrZero(bs, 4))
  {
  }

  /** The first 2 quintets of a group hold its first byte. */
  lemma RegroupBits1(b0: byte, b1: byte, b2: byte, b3: byte, b4: byte)
    ensures GroupBytes(Rebuilt(FiveBytes(b0, b1, b2, b3, b4), 2), 1) == [b0]
  {
    var x := Rebuilt(FiveBytes(b0, b1, b2, b3, b4), 2);
    GroupBytesUnrolled(x);
    assert GroupByte(x, 0) == b0;
  }

  /** The first 4 quintets of a group hold its first 2 bytes. */
  lemma RegroupBits2(b0: byte, b1: byte, b2: byte, b3: byte, b4: byte)
    ensures GroupBytes(Rebuilt(FiveBytes(b0, b1, b2, b3, b4), 4), 2) == [b0, b1]
  {
    var x := Rebuilt(FiveBytes(b0, b1, b2, b3, b4), 4);
    GroupBytesUnrolled(x);
    assert GroupByte(x, 0) == b0 && GroupByte(x, 1) == b1;
  }

  /** The first 5 quintets of a group hold its first 3 bytes. */
  lemma RegroupBits3(b0: byte, b1: byte, b2: byte, b3: byte, b4: byte)
    ensures GroupBytes(Rebuilt(FiveBytes(b0, b1, b2, b3, b4), 5), 3) == [b0, b1, b2]
  {
    var x := Rebuilt(FiveBytes(b0, b1, b2, b3, b4), 5);
    GroupBytesUnrolled(x);
    assert GroupByte(x, 0) == b0 && GroupByte(x, 1) == b1 && GroupByte(x, 2) == b2;
  }

  /** The first 7 quintets of a group hold its first 4 bytes. */
  lemma RegroupBits4(b0: byte, b1: byte, b2: byte, b3: byte, b4: byte)
    ensures GroupBytes(Rebuilt(FiveBytes(b0, b1, b2, b3, b4), 7), 4) == [b0, b1, b2, b3]
  {
    var x := Rebuilt(FiveBytes(b0, b1, b2, b3, b4), 7);
    GroupBytesUnrolled(x);
    assert GroupByte(x, 0) == b0 && GroupByte(x, 1) == b1 && GroupByte(x, 2) == b2 && GroupByte(x, 3) == b3;
  }

  /** All 8 quintets of a group hold all 5 of its bytes. */
  lemma RegroupBits5(b0: byte, b1: byte, b2: byte, b3: byte, b4: byte)
    ensures GroupBytes(Rebuilt(FiveBytes(b0, b1, b2, b3, b4), 8), 5) == [b0, b1, b2, b3, b4]
  {
    var w := FiveBytes(b0, b1, b2, b3, b4);
    FiveBytesRead(b0, b1, b2, b3, b4);
    RebuiltWhole(w);
    GroupBytesUnrolled(w);
  }

  /** All 8 quintets rebuild the whole of a 40-bit group. */
  lemma RebuiltWhole(w: bv64)
    requires w <= 0xFF_FFFF_FFFF
    ensures Rebuilt(w, 8) == w
  {
  }

  /** The packed bytes read back one by one. */
  lemma FiveBytesRead(b0: byte, b1: byte, b2: byte, b3: byte, b4: byte)
    ensures var w := FiveBytes(b0, b1, b2, b3, b4);
      w <= 0xFF_FFFF_FFFF &&
      GroupByte(w, 0) == b0 && GroupByte(w, 1) == b1 && GroupByte(w, 2) == b2 &&
      GroupByte(w, 3) == b3 && GroupByte(w, 4) == b4
  {
  }

  /** The bytes of a chunk of one to five bytes come back out of the group
      the decoder rebuilds from its data characters. */
  lemma Regroup(bs: seq<byte>)
    requires 1 <= |bs| <= 5
    ensures GroupBytes(Rebuilt(ChunkBits(bs), DataCharCount(|bs|)), |bs|) == bs
  {
    if |bs| == 1 {
      Regroup1(bs);
    } else if |bs| == 2 {
      Regroup2(bs);
    } else if |bs| == 3 {
      Regroup3(bs);
    } else if |bs| == 4 {
      Regroup4(bs);
    } else {
      Regroup5(bs);
    }
  }

  /** `Regroup` for a chunk of 1 byte. */
  lemma Regroup1(bs: seq<byte>)
    requires |bs| == 1
    ensures GroupBytes(Rebuilt(ChunkBits(bs), DataCharCount(|bs|)), |bs|) == bs
  {
    ChunkBitsFive(bs);
    RegroupBits1(bs[0], ByteOrZero(bs, 1), ByteOrZero(bs, 2), ByteOrZero(bs, 3), ByteOrZero(bs, 4));
    assert bs == [bs[0]];
  }

  /** `Regroup` for a chunk of 2 bytes. */
  lemma Regroup2(bs: seq<byte>)
    requires |bs| == 2
    ensures GroupBytes(Rebuilt(ChunkBits(bs), DataCharCount(|bs|)), |bs|) == bs
  {
    ChunkBitsFive(bs);
    RegroupBits2(bs[0], ByteOrZero(bs, 1), ByteOrZero(bs, 2), ByteOrZero(bs, 3), ByteOrZero(bs, 4));
    assert bs == [bs[0], bs[1]];
  }

  /** `Regroup` for a chunk of 3 bytes. */
  lemma Regroup3(bs: seq<byte>)
    requires |bs| == 3
    ensures GroupBytes(Rebuilt(ChunkBits(bs), DataCharCount(|bs|)), |bs|) == bs
  {
    ChunkBitsFive(bs);
    RegroupBits3(bs[0], ByteOrZero(bs, 1), ByteOrZero(bs, 2), ByteOrZero(bs, 3), ByteOrZero(bs, 4));
    assert bs == [bs[0], bs[1], bs[2]];
  }

  /** `Regroup` for a chunk of 4 bytes. */
  lemma Regroup4(bs: seq<byte>)
    requires |bs| == 4
    ensures GroupBytes(Rebuilt(ChunkBits(bs), DataCharCount(|bs|)), |bs|) == bs
  {
    ChunkBitsFive(bs);
    RegroupBits4(bs[0], ByteOrZero(bs, 1), ByteOrZero(bs, 2), ByteOrZero(bs, 3), ByteOrZero(bs, 4));
    assert bs == [bs[0], bs[1], bs[2], bs[3]];
  }

  /** `Regroup` for a chunk of 5 bytes. */
  lemma Regroup5(bs: seq<byte>)
    requires |bs| == 5
    ensures GroupBytes(Rebuilt(ChunkBits(bs), DataCharCount(|bs|)), |bs|) == bs
  {
    ChunkBitsFive(bs);
    RegroupBits5(bs[0], ByteOrZero(bs, 1), ByteOrZero(bs, 2), ByteOrZero(bs, 3), ByteOrZero(bs, 4));
    assert bs == [bs[0], bs[1], bs[2], bs[3], bs[4]];
  }

  /** Decoding the chunk of one to five bytes gives them back. */
  lemma ChunkRoundTrip(bs: seq<byte>)
    requires 1 <= |bs| <= 5
    ensures DecodeChunk(EncodeChunk(bs)) == Success(bs)
  {
    var s := EncodeChunk(bs);
    var n := |bs|;
    var d := DataCharCount(n);
    var whole := ChunkBits(bs);
    assert forall k :: 0 <= k < d ==> s[k] == DataChars(whole, d)[k];
    assert forall k :: d <= k < 8 ==> s[k] == Padding(8 - d)[k - d];
    ScanWellFormed(s, d);
    PadCountsMatchEncoder(8 - d, n);
    EncodedValues(bs);
    RebuiltPacked(whole, d);
    Regroup(bs);
  }

  /** Every character of `s` is `=` or a data character. */
  predicate AllB32Chars(s: string) {
    forall i :: 0 <= i < |s| ==> s[i] == '=' || IsB32Digit(s[i])
  }

  // ---------------------------------------------------------------------
  // Whole strings
  // ---------------------------------------------------------------------

  /** The chunks of a string of whole chunks decoded in order: the error of
      the first chunk that fails, or the concatenation of their bytes. */
  function DecodeChunks(s: string): (r: Result<seq<byte>, Base32Error>)
    requires |s| % 8 == 0
    ensures r.Success? ==> |s| / 8 <= |r.value| <= |s| / 8 * 5
    ensures r != Failure(LengthNotMultipleOf8)
    decreases |s|
  {
    if s == [] then Success([])
    else
      match DecodeChunk(s[..8])
      case Failure(e) => Failure(e)
      case Success(first) => Prepend(first, DecodeChunks(s[8..]))
  }

  /** `bs` in front of the bytes of a successful decoding. */
  function Prepend(bs: seq<byte>, r: Result<seq<byte>, Base32Error>): Result<seq<byte>, Base32Error> {
    match r
    case Failure(e) => Failure(e)
    case Success(rest) => Success(bs + rest)
  }

  /** `fromBase32` as a function: the length check, then the chunks. */
  function Base32Decode(s: string): (r: Result<seq<byte>, Base32Error>)
    ensures r.Success? ==> |s| % 8 == 0 && |s| / 8 <= |r.value| <= |s| / 8 * 5
  {
    if |s| % 8 != 0 then Failure(LengthNotMultipleOf8) else DecodeChunks(s)
  }

  /** `fromBase32`: rejects a length that is not a multiple of 8, then
      decodes the chunks in order and appends their bytes. */
  method FromBase32(b32str: string) returns (r: Result<seq<byte>, Base32Error>)
    ensures r == Base32Decode(b32str)
  {
    if |b32str| % 8 != 0 {
      return Failure(LengthNotMultipleOf8);
    }

    var ret := [];
    var i := 0;
    assert b32str[i..] == b32str;
    PrependNothing(DecodeChunks(b32str));
    while i < |b32str|
      invariant 0 <= i <= |b32str| && (|b32str| - i) % 8 == 0
      invariant DecodeChunks(b32str) == Prepend(ret, DecodeChunks(b32str[i..]))
      decreases |b32str| - i
    {
      NextChunk(|b32str| - i);
      var sub := b32str[i..i + 8];
      var chk := B32ChunkToBytes(sub);
      assert b32str[i..] == sub + b32str[i + 8..];
      if chk.Failure? {
        ChunkFails(ret, sub, b32str[i + 8..], chk.error);
        return Failure(chk.error);
      }
      ChunkDecodes(ret, sub, b32str[i + 8..], chk.value);
      ret := ret + chk.value;
      i := i + 8;
    }
    assert b32str[i..] == [];
    assert ret + [] == ret;
    r := Success(ret);
  }

  /** A positive multiple of 8 holds one more chunk and a multiple of 8. */
  lemma NextChunk(n: nat)
    requires n > 0 && n % 8 == 0
    ensures n >= 8 && (n - 8) % 8 == 0
  {
  }

  /** A chunk that fails to decode ends the decoding with its error. */
  lemma ChunkFails(ret: seq<byte>, c: string, rest: string, e: Base32Error)
    requires |c| == 8 && |rest| % 8 == 0 && DecodeChunk(c) == Failure(e)
    ensures |c + rest| % 8 == 0 && Prepend(ret, DecodeChunks(c + rest)) == Failure(e)
  {
    assert (c + rest)[..8] == c;
  }

  /** The bytes of a chunk that decodes go after those decoded so far. */
  lemma ChunkDecodes(ret: seq<byte>, c: string, rest: string, bs: seq<byte>)
    requires |c| == 8 && |rest| % 8 == 0 && DecodeChunk(c) == Success(bs)
    ensures |c + rest| % 8 == 0
    ensures Prepend(ret, DecodeChunks(c + rest)) == Prepend(ret + bs, DecodeChunks(rest))
  {
    var s := c + rest;
    assert s[..8] == c && s[8..] == rest;
    PrependAssociates(ret, bs, DecodeChunks(rest));
  }

  /** Prepending nothing changes nothing. */
  lemma PrependNothing(r: Result<seq<byte>, Base32Error>)
    ensures Prepend([], r) == r
  {
    if r.Success? {
      assert [] + r.value == r.value;
    }
  }

  /** Prepending twice is prepending the concatenation. */
  lemma PrependAssociates(a: seq<byte>, b: seq<byte>, r: Result<seq<byte>, Base32Error>)
    ensures Prepend(a, Prepend(b, r)) == Prepend(a + b, r)
  {
    if r.Success? {
      assert a + (b + r.value) == (a + b) + r.value;
    }
  }

  /** The number of `=` needed to fill a string of `n` characters up to
      whole chunks: the one count below 8, and so the fewest, that makes the
      length a multiple of 8. */
  function PadToChunk(n: nat): (k: nat)
    ensures k < 8 && (n + k) % 8 == 0
  {
    (8 - n % 8) % 8
  }

  /** `fromUnpaddedBase32` as a function: `fromBase32` of the string filled
      up with `=`. */
  function Base32DecodeUnpadded(s: string): (r: Result<seq<byte>, Base32Error>)
    ensures r != Failure(LengthNotMultipleOf8)
  {
    Base32Decode(s + Padding(PadToChunk(|s|)))
  }

  /** `fromUnpaddedBase32`: appends `=` until the length is a multiple of
      8, then decodes. */
  method FromUnpaddedBase32(b32str: string) returns (r: Result<seq<byte>, Base32Error>)
    ensures r == Base32DecodeUnpadded(b32str)
  {
    var newstr := b32str;
    assert b32str + Padding(0) == b32str;
    while |newstr| % 8 != 0
      invariant |b32str| <= |newstr| <= |b32str| + PadToChunk(|b32str|)
      invariant newstr == b32str + Padding(|newstr| - |b32str|)
      decreases |b32str| + PadToChunk(|b32str|) - |newstr|
    {
      PadBound(|b32str|, |newstr|);
      assert Padding(|newstr| - |b32str|) + ['='] == Padding(|newstr| + 1 - |b32str|);
      newstr := newstr + ['='];
    }
    PadBound(|b32str|, |newstr|);
    r := FromBase32(newstr);
  }

  /** Between `n` and `n + PadToChunk(n)`, only the upper end is a
      multiple of 8. */
  lemma PadBound(n: nat, m: nat)
    requires n <= m <= n + PadToChunk(n)
    ensures m % 8 == 0 <==> m == n + PadToChunk(n)
  {
  }

  /** A string of whole chunks gets no padding, so both decoders agree on
      it. */
  lemma UnpaddedOfWholeChunks(s: string)
    requires |s| % 8 == 0
    ensures Base32DecodeUnpadded(s) == Base32Decode(s)
  {
    PadBound(|s|, |s|);
    assert s + Padding(0) == s;
  }

  /** `toBase32` as a function: a chunk for each group of five bytes from
      the front, the last group holding the one to five bytes left. */
  function Base32Encode(bs: seq<byte>): (s: string)
    ensures |s| % 8 == 0
    decreases |bs|
  {
    if bs == [] then ""
    else if |bs| <= 5 then EncodeChunk(bs)
    else EncodeChunk(bs[..5]) + Base32Encode(bs[5..])
  }

  /** The text of `n` bytes has `8 * ceil(n / 5)` characters. */
  lemma {:induction false} Base32EncodeLength(bs: seq<byte>)
    ensures |Base32Encode(bs)| == (|bs| + 4) / 5 * 8
    decreases |bs|
  {
    var n := |bs|;
    if n > 5 {
      Base32EncodeLength(bs[5..]);
      assert |Base32Encode(bs)| == 8 + |Base32Encode(bs[5..])|;
      assert (n + 4) / 5 == (n - 5 + 4) / 5 + 1;
    } else if n > 0 {
      assert (n + 4) / 5 == 1;
    }
  }

  /** `toBase32`: encodes every whole group of five bytes, then the rest. */
  method ToBase32(bs: seq<byte>) returns (ret: string)
    ensures ret == Base32Encode(bs)
  {
    ret := "";

    var i, j, len;
    j := 0;
    while j < |bs| / 5
      invariant 0 <= j <= |bs| / 5
      invariant ret + Base32Encode(bs[j * 5..]) == Base32Encode(bs)
    {
      FiveByteChunks(|bs|, j);
      i := j * 5;
      var sub := bs[i..i + 5];
      var chk := BytesToB32Chunk(sub);
      EncodeFront(bs[i..]);
      assert bs[i..][..5] == sub && bs[i..][5..] == bs[i + 5..];
      ret := ret + chk.value;
      j := j + 1;
    }

    FiveByteChunks(|bs|, j);
    i := j * 5;
    len := |bs| - i;
    if len > 0 {
      var sub := bs[i..];
      var chk := BytesToB32Chunk(sub);
      ret := ret + chk.value;
    } else {
      assert ret + "" == ret;
    }
  }

  /** Where the j-th group of five bytes lies in n bytes. */
  lemma FiveByteChunks(n: nat, j: nat)
    requires j <= n / 5
    ensures j * 5 <= n
    ensures j < n / 5 ==> j * 5 + 5 <= n
    ensures j == n / 5 ==> n - j * 5 < 5
  {
  }

  /** Five or more bytes: the chunk of the first five, then the rest. */
  lemma EncodeFront(bs: seq<byte>)
    requires |bs| >= 5
    ensures Base32Encode(bs) == EncodeChunk(bs[..5]) + Base32Encode(bs[5..])
  {
    if |bs| == 5 {
      assert bs[..5] == bs && bs[5..] == [];
      assert EncodeChunk(bs) + "" == EncodeChunk(bs);
    }
  }

  /** Decoding the text of any byte string gives that byte string back. */
  lemma {:induction false} Base32RoundTrip(bs: seq<byte>)
    ensures Base32Decode(Base32Encode(bs)) == Success(bs)
    decreases |bs|
  {
    var s := Base32Encode(bs);
    if bs == [] {
    } else if |bs| <= 5 {
      ChunkRoundTrip(bs);
      assert s[..8] == s && s[8..] == [];
      assert DecodeChunks(s[8..]) == Success([]);
      assert bs + [] == bs;
    } else {
      var first := bs[..5];
      var c := EncodeChunk(first);
      Base32RoundTrip(bs[5..]);
      ChunkRoundTrip(first);
      assert s[..8] == c && s[8..] == Base32Encode(bs[5..]);
      assert first + bs[5..] == bs;
    }
  }

  /** Every character of the text of a byte string is a data character or
      `=`. */
  lemma {:induction false} Base32EncodeChars(bs: seq<byte>)
    ensures AllB32Chars(Base32Encode(bs))
    decreases |bs|
  {
    if bs == [] {
    } else if |bs| <= 5 {
      EncodeChunkChars(bs);
    } else {
      EncodeChunkChars(bs[..5]);
      Base32EncodeChars(bs[5..]);
    }
  }

  /** Every character of a chunk is a data character or `=`. */
  lemma EncodeChunkChars(bs: seq<byte>)
    requires 1 <= |bs| <= 5
    ensures AllB32Chars(EncodeChunk(bs))
  {
    var d := DataCharCount(|bs|);
    var s := EncodeChunk(bs);
    forall i | 0 <= i < 8
      ensures s[i] == '=' || IsB32Digit(s[i])
    {
      if i < d {
        assert s[i] == DataChars(ChunkBits(bs), d)[i];
      } else {
        assert s[i] == Padding(8 - d)[i - d];
      }
    }
  }
}
