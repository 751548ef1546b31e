/** SHA-256 fed piece by piece: a buffer of less than a block, a byte counter in four 16-bit
    digits, and the padding of section 5.1.1 of FIPS 180-4 at the end. */
module Sha256Streaming {
  import opened Sha256Blocks

  const TWO16: int := 0x1_0000
  const TWO32: int := 0x1_0000_0000
  const TWO48: int := 0x1_0000_0000_0000
  const TWO64: int := 0x1_0000_0000_0000_0000

  // ----- The standard -----

  /** Hash the whole blocks of a byte string, one after the other. */
  function HashBlocks(s: Digest, bytes: seq<Byte>): Digest
    decreases |bytes|
  {
    if |bytes| < 64 then s else HashBlocks(Compress(s, bytes[..64]), bytes[64..])
  }

  function InitialDigest(): Digest {
    Digest(InitialWord(0), InitialWord(1), InitialWord(2), InitialWord(3), InitialWord(4), InitialWord(5), InitialWord(6), InitialWord(7))
  }

  function Zeros(n: nat): (r: seq<Byte>)
    ensures |r| == n && forall k | 0 <= k < n :: r[k] == 0
  {
    seq(n, _ => 0)
  }

  /** The lowest eight bits of a number. */
  function LowByte(n: nat): Byte { (n % 0x100) as Byte }

  /** A 64-bit number in eight bytes, highest first. */
  function LengthField(bits: nat): (r: seq<Byte>)
    ensures |r| == 8
  {
    [LowByte(bits / (TWO48 * 0x100)), LowByte(bits / TWO48), LowByte(bits / (TWO32 * 0x100)), LowByte(bits / TWO32),
     LowByte(bits / (TWO16 * 0x100)), LowByte(bits / TWO16), LowByte(bits / 0x100), LowByte(bits)]
  }

  /** The lowest k digits of a number to the base 256, highest first. */
  ghost function BytesOf(n: nat, k: nat): seq<Byte> {
    if k == 0 then [] else BytesOf(n / 0x100, k - 1) + [(n % 0x100) as Byte]
  }

  lemma LastByte(n: nat, k: nat)
    ensures BytesOf(n, k + 1) == BytesOf(n / 0x100, k) + [LowByte(n)]
  {
  }

  /** The length is written to the base 256, in eight digits. */
  lemma {:induction false} LengthFieldValue(bits: nat)
    ensures LengthField(bits) == BytesOf(bits, 8)
  {
    DivideOn(bits);
    EightBytes(bits / (TWO48 * 0x100), bits / TWO48, bits / (TWO32 * 0x100), bits / TWO32,
               bits / (TWO16 * 0x100), bits / TWO16, bits / 0x100, bits);
    hide LowByte, BytesOf;
  }

  lemma {:induction false} EightBytes(a: nat, b: nat, c: nat, d: nat, e: nat, f: nat, g: nat, h: nat)
    requires a == b / 0x100 && b == c / 0x100 && c == d / 0x100 && d == e / 0x100
    requires e == f / 0x100 && f == g / 0x100 && g == h / 0x100
    ensures BytesOf(h, 8) == [LowByte(a), LowByte(b), LowByte(c), LowByte(d), LowByte(e), LowByte(f), LowByte(g), LowByte(h)]
  {
    hide LowByte, BytesOf;
    FourBytes(a, b, c, d);
    LastByte(e, 4);
    LastByte(f, 5);
    LastByte(g, 6);
    LastByte(h, 7);
  }

  lemma {:induction false} FourBytes(a: nat, b: nat, c: nat, d: nat)
    requires a == b / 0x100 && b == c / 0x100 && c == d / 0x100
    ensures BytesOf(d, 4) == [LowByte(a), LowByte(b), LowByte(c), LowByte(d)]
  {
    NoBytes(a / 0x100);
    hide LowByte, BytesOf;
    LastByte(a, 0);
    LastByte(b, 1);
    LastByte(c, 2);
    LastByte(d, 3);
  }

  lemma NoBytes(n: nat)
    ensures BytesOf(n, 0) == []
  {
  }

  lemma DivideOn(n: nat)
    ensures n / 0x100 / 0x100 == n / TWO16 && n / TWO16 / 0x100 == n / (TWO16 * 0x100)
    ensures n / (TWO16 * 0x100) / 0x100 == n / TWO32 && n / TWO32 / 0x100 == n / (TWO32 * 0x100)
    ensures n / (TWO32 * 0x100) / 0x100 == n / TWO48 && n / TWO48 / 0x100 == n / (TWO48 * 0x100)
  {
    DivideLow(n);
    DivideHigh(n);
  }

  lemma DivideLow(n: nat)
    ensures n / 0x100 / 0x100 == n / TWO16 && n / TWO16 / 0x100 == n / (TWO16 * 0x100)
    ensures n / (TWO16 * 0x100) / 0x100 == n / TWO32
  {
  }

  lemma DivideHigh(n: nat)
    ensures n / TWO32 / 0x100 == n / (TWO32 * 0x100) && n / (TWO32 * 0x100) / 0x100 == n / TWO48
    ensures n / TWO48 / 0x100 == n / (TWO48 * 0x100)
  {
  }

  /** The number of zero bytes that brings message, marker and length to whole blocks. */
  function ZeroCount(length: nat): (k: nat)
    ensures (length + 1 + k + 8) % 64 == 0 && k < 64
  {
    (119 - length % 64) % 64
  }

  /** The message, a one bit, zeros, and the length in bits. */
  function Padded(message: seq<Byte>, bits: nat): (r: seq<Byte>)
    ensures |r| % 64 == 0
  {
    message + [0x80] + Zeros(ZeroCount(|message|)) + LengthField(bits)
  }

  /** SHA-256 of a message shorter than 2^64 bits. */
  function Sha256(message: seq<Byte>): Digest
    requires 8 * |message| < TWO64
  {
    HashBlocks(InitialDigest(), Padded(message, 8 * |message|))
  }

  lemma {:induction false} HashBlocksConcat(s: Digest, a: seq<Byte>, b: seq<Byte>)
    requires |a| % 64 == 0
    ensures HashBlocks(s, a + b) == HashBlocks(HashBlocks(s, a), b)
    decreases |a|
  {
    hide Compress;
    if |a| < 64 {
      assert a + b == b;
    } else {
      assert (a + b)[..64] == a[..64] && (a + b)[64..] == a[64..] + b;
      HashBlocksConcat(Compress(s, a[..64]), a[64..], b);
    }
  }

  // ----- The counter -----

  /** The number that four 16-bit digits stand for, the lowest first. */
  function Value(d: seq<int>): int
    requires |d| == 4
  {
    d[0] + d[1] * TWO16 + d[2] * TWO32 + d[3] * TWO48
  }

  ghost predicate Digits(d: seq<int>) {
    |d| == 4 && forall i | 0 <= i < 4 :: 0 <= d[i] < TWO16
  }

  /** x counted at the place of digit i. */
  function At(x: int, i: int): int {
    if i == 0 then x else if i == 1 then x * TWO16 else if i == 2 then x * TWO32 else if i == 3 then x * TWO48 else x * TWO64
  }

  lemma AtSum(x: int, y: int, i: int)
    ensures At(x + y, i) == At(x, i) + At(y, i) && At(0, i) == 0
  {
  }

  lemma ValueUpdate(d: seq<int>, i: int, v: int)
    requires |d| == 4 && 0 <= i < 4
    ensures Value(d[i := v]) == Value(d) - At(d[i], i) + At(v, i)
  {
  }

  lemma CarryUp(x: int, i: int)
    requires 0 <= i < 4
    ensures At(x, i) == At(x % TWO16, i) + At(x / TWO16, i + 1)
  {
    assert x == x % TWO16 + x / TWO16 * TWO16;
  }

  /** Digits and a carry out of the highest one: the carry is lost. */
  lemma CarryLost(d: seq<int>, carry: int, total: int)
    requires Digits(d) && Value(d) + At(carry, 4) == total
    ensures Value(d) == total % TWO64
  {
  }

  /** The digits below i are digits again; only the low one can still be larger. */
  ghost predicate LowDone(d: seq<int>, i: int) {
    |d| == 4 && 0 <= d[0] < TWO32 && forall j | 0 <= j < 4 :: 0 <= d[j] && (j > 0 || i > 0 ==> d[j] < TWO16)
  }

  /** The lower 16 bits, and the bits above them. */
  function Low16(x: int): int { x % TWO16 }

  function High16(x: int): int { x / TWO16 }

  /** Passing the carry on to the next digit keeps the number. */
  lemma DigitStep(d: seq<int>, i: int, carry: int)
    requires 0 <= i < 4 && LowDone(d, i) && 0 <= carry < TWO16 && (i == 0 ==> carry == 0)
    ensures var x, d' := d[i] + carry, d[i := Low16(d[i] + carry)];
      && LowDone(d', i + 1) && Digits(d') && 0 <= High16(x) < TWO16
      && (x < TWO16 ==> Low16(x) == x && At(High16(x), i + 1) == At(0, 4))
      && Value(d') + At(High16(x), i + 1) == Value(d) + At(carry, i)
  {
    var x := d[i] + carry;
    AtSum(d[i], carry, i);
    AtSum(0, 0, i + 1);
    AtSum(0, 0, 4);
    ValueUpdate(d, i, x % TWO16);
    CarryUp(x, i);
  }

  /** Pass carries up from digit to digit; a carry out of the highest one is lost. */
  method PassCarries(digits: array<int>)
    requires digits.Length == 4 && LowDone(digits[..], 0)
    modifies digits
    ensures Digits(digits[..]) && Value(digits[..]) == Value(old(digits[..])) % TWO64
  {
    hide Value, At, LowDone, Digits, Low16, High16;
    ghost var d := digits[..];
    ghost var total := Value(d);
    AtSum(0, 0, 0);
    var carry := 0;
    for i := 0 to 4
      invariant 0 <= carry < TWO16 && (i == 0 ==> carry == 0) && |d| == 4 && d == digits[..] && LowDone(d, i)
      invariant i > 0 ==> Digits(d)
      invariant Value(d) + At(carry, i) == total
    {
      DigitStep(d, i, carry);
      d := d[i := Low16(d[i] + carry)];
      digits[i] := digits[i] + carry;
      if digits[i] >= TWO16 {
        carry := High16(digits[i]);
        digits[i] := Low16(digits[i]);
      } else {
        carry := 0;
        break;
      }
    }
    CarryLost(d, carry, total);
  }

  /** The count after n more bytes: the low digit takes them in 32 bits, the others carries. */
  function NextCount(value: int, low: int, n: int): int { (value - low + (low + n) % TWO32) % TWO64 }

  /** Add a 32-bit number: the low digit takes it all and carries are passed up. */
  method AddToDataLength(digits: array<int>, n: int)
    requires digits.Length == 4 && Digits(digits[..]) && 0 <= n < TWO32
    modifies digits
    ensures Digits(digits[..])
    ensures Value(digits[..]) == NextCount(Value(old(digits[..])), old(digits[0]), n)
  {
    ghost var before := digits[..];
    digits[0] := (digits[0] + n) % TWO32;
    assert digits[..] == before[0 := (before[0] + n) % TWO32];
    PassCarries(digits);
  }

  /** The counter never counts too much, and it counts right exactly if it did before and the low
      digit and the piece together fit 32 bits: a wrong count is never right again. */
  lemma CountsRight(value: int, length: int, low: int, n: int)
    requires 0 <= low < TWO16 && low <= value <= length && 0 <= n && length + n < TWO64
    ensures var value' := NextCount(value, low, n % TWO32);
      0 <= value' <= length + n && (value' == length + n <==> value == length && low + n < TWO32)
  {
  }

  /** The digits of eight times the count, each shifted with the bits carried from below. */
  method BitLengthDigits(digits: array<int>) returns (bits: array<int>)
    requires digits.Length == 4 && Digits(digits[..])
    ensures fresh(bits) && bits.Length == 4 && Digits(bits[..])
    ensures Value(bits[..]) == 8 * Value(digits[..]) % TWO64
  {
    bits := new int[4](i requires 0 <= i < 4 reads digits => digits[i]);
    assert bits[..] == digits[..];
    hide At, LowValue, Value;
    LowEnds(bits[..]);
    LowEnds(digits[..]);
    ghost var b := bits[..];
    var carry := 0;
    AtSum(0, 0, 0);
    for i := 0 to 4
      invariant 0 <= carry < 8 && b == bits[..] && Digits(b)
      invariant forall j | i <= j < 4 :: b[j] == digits[j]
      invariant LowValue(b, i) + At(carry, i) == 8 * LowValue(digits[..], i)
    {
      var before := bits[i];
      ghost var x := before * 8 + carry;
      LowNext(digits[..], i);
      LowNext(b[i := x % TWO16], i);
      LowSame(b, i, x % TWO16);
      CarryUp(x, i);
      TopBits(before, carry);
      AtEight(before, carry, i);
      // The shifted digit has three free bits for the carry.
      bits[i] := (before * 8 + carry) % TWO16;
      carry := before / 0x2000 % TWO16;
      b := b[i := x % TWO16];
    }
    LowEnds(b);
    CarryLost(b, carry, 8 * Value(digits[..]));
  }

  lemma AtEight(x: int, carry: int, i: int)
    ensures At(x * 8 + carry, i) == 8 * At(x, i) + At(carry, i)
  {
  }

  /** The top three bits of a digit are what shifting it by three carries out. */
  lemma TopBits(digit: int, carry: int)
    requires 0 <= digit < TWO16 && 0 <= carry < 8
    ensures (digit * 8 + carry) / TWO16 == digit / 0x2000 % TWO16 < 8
  {
  }

  lemma LowEnds(d: seq<int>)
    requires |d| == 4
    ensures LowValue(d, 0) == 0 && LowValue(d, 4) == Value(d)
  {
  }

  lemma LowNext(d: seq<int>, i: int)
    requires |d| == 4 && 0 <= i < 4
    ensures LowValue(d, i + 1) == LowValue(d, i) + At(d[i], i)
  {
  }

  lemma LowSame(d: seq<int>, i: int, v: int)
    requires |d| == 4 && 0 <= i < 4
    ensures LowValue(d[i := v], i) == LowValue(d, i)
  {
  }

  /** The value of the lowest digits. */
  function LowValue(d: seq<int>, i: int): int
    requires |d| == 4
  {
    (if i > 0 then d[0] else 0) + (if i > 1 then d[1] * TWO16 else 0) + (if i > 2 then d[2] * TWO32 else 0)
    + (if i > 3 then d[3] * TWO48 else 0)
  }

  // ----- The hasher -----

  /** The eight bytes of four digits, the highest digit first. */
  function DigitBytes(d: seq<int>): (r: seq<Byte>)
    requires Digits(d)
    ensures |r| == 8
  {
    [LowByte(d[3] / 0x100), LowByte(d[3]), LowByte(d[2] / 0x100), LowByte(d[2]),
     LowByte(d[1] / 0x100), LowByte(d[1]), LowByte(d[0] / 0x100), LowByte(d[0])]
  }

  lemma SameLowByte(x: nat, y: nat)
    requires x % 0x100 == y % 0x100
    ensures LowByte(x) == LowByte(y)
  {
  }

  lemma DigitRemainders(high: nat, digit: nat)
    requires digit < TWO16
    ensures (high * TWO16 + digit) / 0x100 % 0x100 == digit / 0x100 == digit / 0x100 % 0x100
    ensures (high * TWO16 + digit) % 0x100 == digit % 0x100
  {
  }

  lemma BytesOfDigit(high: nat, digit: nat)
    requires digit < TWO16
    ensures LowByte((high * TWO16 + digit) / 0x100) == LowByte(digit / 0x100)
    ensures LowByte(high * TWO16 + digit) == LowByte(digit)
  {
    hide LowByte;
    DigitRemainders(high, digit);
    SameLowByte((high * TWO16 + digit) / 0x100, digit / 0x100);
    SameLowByte(high * TWO16 + digit, digit);
  }

  lemma Shifted(v: int, high: int, low: int, place: int)
    requires (place == TWO16 || place == TWO32 || place == TWO48) && 0 <= low < place && v == high * place + low
    ensures v / place == high && v / (place * 0x100) == high / 0x100
  {
    if place == TWO16 {
    } else if place == TWO32 {
    }
  }

  /** Taking a 64-bit number apart into digits and those into bytes gives its length field. */
  lemma DigitBytesAreLengthField(d: seq<int>)
    requires Digits(d)
    ensures DigitBytes(d) == LengthField(Value(d))
  {
    hide LowByte;
    var v := Value(d);
    Shifted(v, d[3], d[2] * TWO32 + d[1] * TWO16 + d[0], TWO48);
    Shifted(v, d[3] * TWO16 + d[2], d[1] * TWO16 + d[0], TWO32);
    Shifted(v, d[3] * TWO32 + d[2] * TWO16 + d[1], d[0], TWO16);
    BytesOfDigit(0, d[3]);
    BytesOfDigit(d[3], d[2]);
    BytesOfDigit(d[3] * TWO16 + d[2], d[1]);
    BytesOfDigit(d[3] * TWO32 + d[2] * TWO16 + d[1], d[0]);
  }

  /** The bytes after the last whole block. */
  function Tail(bytes: seq<Byte>): (r: seq<Byte>)
    ensures |r| == |bytes| % 64
  {
    bytes[|bytes| - |bytes| % 64..]
  }

  lemma TailOfConcat(done: seq<Byte>, rest: seq<Byte>)
    requires |done| % 64 == 0
    ensures Tail(done + rest) == Tail(rest)
  {
    var n := |rest| - |rest| % 64;
    assert |done + rest| % 64 == |rest| % 64;
    assert (done + rest)[|done| + n..] == rest[n..];
  }

  lemma TailSplit(message: seq<Byte>)
    ensures var done := message[..|message| - |message| % 64]; |done| % 64 == 0 && message == done + Tail(message)
    ensures forall s :: HashBlocks(s, Tail(message)) == s
  {
  }

  /** Going on from the whole blocks of a message with its tail and more data. */
  lemma ContinueFromTail(s: Digest, message: seq<Byte>, data: seq<Byte>)
    ensures HashBlocks(HashBlocks(s, message), Tail(message) + data) == HashBlocks(s, message + data)
    ensures Tail(Tail(message) + data) == Tail(message + data)
  {
    hide HashBlocks, Tail;
    TailSplit(message);
    var done := message[..|message| - |message| % 64];
    assert message + data == done + (Tail(message) + data);
    HashBlocksConcat(s, done, Tail(message));
    HashBlocksConcat(s, done, Tail(message) + data);
    TailOfConcat(done, Tail(message) + data);
  }

  lemma HashFirstBlock(s: Digest, bytes: seq<Byte>, i: nat)
    requires i + 64 <= |bytes| && WholeBlocks(i)
    ensures WholeBlocks(i + 64)
    ensures HashBlocks(s, bytes[i..]) == HashBlocks(Compress(s, bytes[i..i + 64]), bytes[i + 64..])
  {
    assert bytes[i..][..64] == bytes[i..i + 64] && bytes[i..][64..] == bytes[i + 64..];
  }

  /** Hash the whole blocks of a buffer in place; the tail starts at the returned index. */
  method HashWholeBlocks(h: array<Word>, bytes: seq<Byte>) returns (i: nat)
    requires h.Length == 8
    modifies h
    ensures DigestOf(h[..]) == HashBlocks(DigestOf(old(h[..])), bytes)
    ensures i <= |bytes| && bytes[i..] == Tail(bytes)
  {
    ghost var start := DigestOf(h[..]);
    hide Compress, HashBlocks, DigestOf, Tail, WholeBlocks;
    i := 0;
    NothingHashed(bytes);
    while i + 64 <= |bytes|
      invariant i <= |bytes| && WholeBlocks(i)
      invariant HashBlocks(DigestOf(h[..]), bytes[i..]) == HashBlocks(start, bytes)
    {
      HashFirstBlock(DigestOf(h[..]), bytes, i);
      Hash256Block(h, bytes[i..i + 64]);
      i := i + 64;
    }
    TailFrom(DigestOf(h[..]), bytes, i);
  }

  predicate WholeBlocks(i: nat) { i % 64 == 0 }

  lemma NothingHashed(bytes: seq<Byte>)
    ensures bytes[0..] == bytes && WholeBlocks(0)
  {
  }

  lemma TailFrom(s: Digest, bytes: seq<Byte>, i: nat)
    requires i <= |bytes| < i + 64 && WholeBlocks(i)
    ensures bytes[i..] == Tail(bytes) && HashBlocks(s, bytes[i..]) == s
  {
  }

  lemma LowDigit(d: seq<int>)
    requires Digits(d)
    ensures 0 <= d[0] < TWO16 && d[0] <= Value(d) < TWO64
    ensures Value(d) % TWO16 == d[0]
  {
  }

  class Hash256OneByOne {
    var buffer: seq<Byte>
    const digits: array<int>
    const h: array<Word>
    // All bytes processed so far, and whether the counter has counted them all.
    ghost var message: seq<Byte>
    ghost var counted: bool

    ghost predicate Valid()
      reads this, digits, h
    {
      && digits.Length == 4 && h.Length == 8 && Digits(digits[..])
      && buffer == Tail(message)
      && DigestOf(h[..]) == HashBlocks(InitialDigest(), message)
      && (counted ==> |message| < TWO64)
      && (|message| < TWO64 ==> Value(digits[..]) <= |message| && (counted <==> Value(digits[..]) == |message|))
    }

    constructor ()
      ensures Valid() && message == [] && counted && fresh(digits) && fresh(h)
    {
      hide InitialWord, InitialDigest, HashBlocks, Tail, DigestOf;
      buffer, message, counted := [], [], true;
      digits := new int[4](i => 0);
      h := new Word[8](i => InitialWord(i));
      new;
      FreshDigest(h[..]);
      assert digits[..] == [0, 0, 0, 0];
    }

    /** Take in another piece: hash the whole blocks it completes and keep the rest. */
    method Process(data: seq<Byte>)
      requires Valid()
      modifies this, digits, h
      ensures Valid() && message == old(message) + data
      ensures counted <==> old(counted) && old(digits[0]) + |data| < TWO32 && |message| < TWO64
    {
      hide HashBlocks, Digits, Value, NextCount, InitialDigest, Tail, DigestOf;
      ghost var low, value := digits[0], Value(digits[..]);
      LowDigit(digits[..]);
      ContinueFromTail(InitialDigest(), message, data);
      AddToDataLength(digits, |data| % TWO32);
      counted := counted && low + |data| < TWO32 && |message + data| < TWO64;
      if |message + data| < TWO64 {
        CountsRight(value, |message|, low, |data|);
      }
      message := message + data;
      buffer := buffer + data;
      var i := HashWholeBlocks(h, buffer);
      buffer := buffer[i..];
    }

    /** Pad the message and hash what is left of it. */
    method Finish()
      requires Valid()
      modifies h
      ensures DigestOf(h[..]) == HashBlocks(InitialDigest(), Padded(message, 8 * Value(digits[..]) % TWO64))
      ensures counted && 8 * |message| < TWO64 ==> DigestOf(h[..]) == Sha256(message)
    {
      hide Compress, HashBlocks, LengthField, Value, Padded, InitialDigest, Digits;
      ghost var d, bits := digits[..], 8 * Value(digits[..]) % TWO64;
      LowDigit(d);
      var temp := StartPadding(buffer);
      if |buffer| > 55 {
        TwoLastBlocks(InitialDigest(), message, bits);
        Hash256Block(h, temp[..]);
        forall i | 0 <= i < 60 {
          temp[i] := 0;
        }
        assert temp[..56] == Zeros(56);
      } else {
        OneLastBlock(InitialDigest(), message, bits);
        assert temp[..56] == buffer + [0x80] + Zeros(55 - |buffer|);
      }
      assert digits[..] == d;
      WriteDataBitLength(digits, temp);
      Hash256Block(h, temp[..]);
      assert digits[..] == d;
    }

    /** Write the digest out, high bytes first, as far as the output reaches. */
    method GetHashBytes(size: nat) returns (out: seq<Byte>)
      requires h.Length == 8
      ensures |out| == if size < 32 then size else 32
      ensures AreDigestBytes(out, h[..])
    {
      hide DigestByte, AreDigestBytes;
      out := [];
      NoDigestBytes(h[..]);
      for w := 0 to 8
        invariant |out| == (if size < 4 * w then size else 4 * w) && AreDigestBytes(out, h[..])
      {
        var i := 0;
        while i < 4 && |out| != size
          invariant 0 <= i <= 4
          invariant |out| == (if size < 4 * w + i then size else 4 * w + i) && AreDigestBytes(out, h[..])
        {
          NextDigestByte(out, h[..], w, i);
          out := out + [DigestByte(h[w], i)];
          i := i + 1;
        }
      }
    }
  }

  /** The bytes of the words one after the other. */
  ghost predicate AreDigestBytes(out: seq<Byte>, h: seq<Word>) {
    |h| == 8 && |out| <= 32 && forall k | 0 <= k < |out| :: out[k] == DigestByte(h[k / 4], k % 4)
  }

  lemma NoDigestBytes(h: seq<Word>)
    requires |h| == 8
    ensures AreDigestBytes([], h)
  {
  }

  lemma NextDigestByte(out: seq<Byte>, h: seq<Word>, w: int, i: int)
    requires AreDigestBytes(out, h) && 0 <= w < 8 && 0 <= i < 4 && |out| == 4 * w + i
    ensures AreDigestBytes(out + [DigestByte(h[w], i)], h)
  {
    hide DigestByte;
    assert |out| / 4 == w && |out| % 4 == i;
  }

  function DigestByte(w: Word, i: int): Byte
    requires 0 <= i < 4
  {
    ByteAbove(w, 24 - 8 * i)
  }

  function ByteAbove(w: Word, n: nat): Byte
    requires n < 32
  {
    ((w >> n) & 0xFF) as Byte
  }

  /** The four bytes of a digest word make it up again. */
  lemma DigestBytesMakeWord(w: Word)
    ensures BigEndian(DigestByte(w, 0), DigestByte(w, 1), DigestByte(w, 2), DigestByte(w, 3)) == w
  {
    BytesMakeWord(w);
    hide ByteAbove;
  }

  lemma BytesMakeWord(w: Word)
    ensures BigEndian(ByteAbove(w, 24), ByteAbove(w, 16), ByteAbove(w, 8), ByteAbove(w, 0)) == w
  {
    assert (ByteAbove(w, 24) as Word) << 24 == w & 0xff00_0000;
    assert (ByteAbove(w, 16) as Word) << 16 == w & 0xff_0000;
    assert (ByteAbove(w, 8) as Word) << 8 == w & 0xff00;
    assert ByteAbove(w, 0) as Word == w & 0xff;
    hide ByteAbove;
    assert (w & 0xff00_0000) | (w & 0xff_0000) | (w & 0xff00) | (w & 0xff) == w;
  }

  /** The last bytes, a one bit, and zeros to the end of the block. */
  method StartPadding(buffer: seq<Byte>) returns (temp: array<Byte>)
    requires |buffer| < 64
    ensures fresh(temp) && temp.Length == 64 && temp[..] == buffer + [0x80] + Zeros(63 - |buffer|)
  {
    temp := new Byte[64](i => 0);
    var remains := |buffer|;
    forall i | 0 <= i < remains {
      temp[i] := buffer[i];
    }
    temp[remains] := 0x80;
    forall i | remains < i < 64 {
      temp[i] := 0;
    }
  }

  lemma FreshDigest(h: seq<Word>)
    requires |h| == 8 && forall i | 0 <= i < 8 :: h[i] == InitialWord(i)
    ensures DigestOf(h) == InitialDigest() == HashBlocks(InitialDigest(), []) && Tail([]) == []
  {
  }

  /** Write the length of the message in bits, high byte first, to the end of the block. */
  method WriteDataBitLength(digits: array<int>, temp: array<Byte>)
    requires digits.Length == 4 && Digits(digits[..]) && temp.Length == 64
    modifies temp
    ensures temp[..] == old(temp[..56]) + LengthField(8 * Value(digits[..]) % TWO64)
  {
    hide LowByte, LengthField, Value, DigitBytes;
    var bits := BitLengthDigits(digits);
    DigitBytesAreLengthField(bits[..]);
    ghost var d := bits[..];
    var begin := 56;
    for k := 0 to 4
      invariant begin == 56 + 2 * k && bits[..] == d
      invariant temp[..begin] == old(temp[..56]) + DigitBytes(d)[..2 * k]
    {
      BytePair(d, k);
      var i := 3 - k;
      temp[begin] := LowByte(bits[i] / 0x100);
      temp[begin + 1] := LowByte(bits[i]);
      begin := begin + 2;
      assert temp[..begin] == temp[..begin - 2] + [temp[begin - 2], temp[begin - 1]];
    }
    assert temp[..] == temp[..64];
  }

  lemma BytePair(d: seq<int>, k: int)
    requires Digits(d) && 0 <= k < 4
    ensures DigitBytes(d)[..2 * k + 2] == DigitBytes(d)[..2 * k] + [LowByte(d[3 - k] / 0x100), LowByte(d[3 - k])]
  {
  }

  // ----- The last blocks -----

  lemma HashBlock(s: Digest, block: seq<Byte>)
    requires |block| == 64
    ensures HashBlocks(s, block) == Compress(s, block)
  {
    hide Compress;
    assert block[..64] == block && block[64..] == [];
  }

  /** With room for marker and length behind the tail there is one block more. */
  lemma OneLastBlock(s: Digest, message: seq<Byte>, bits: nat)
    requires |Tail(message)| <= 55
    ensures var tail := Tail(message);
      HashBlocks(s, Padded(message, bits))
      == Compress(HashBlocks(s, message), tail + [0x80] + Zeros(55 - |tail|) + LengthField(bits))
  {
    hide Compress, LengthField, HashBlocks;
    var tail, k := Tail(message), ZeroCount(|message|);
    var rest := [0x80] + Zeros(k) + LengthField(bits);
    assert k == 55 - |tail|;
    ContinueFromTail(s, message, rest);
    assert message + rest == Padded(message, bits);
    assert tail + rest == tail + [0x80] + Zeros(55 - |tail|) + LengthField(bits);
    HashBlock(HashBlocks(s, message), tail + rest);
  }

  /** Otherwise the marker fills up one block, and the length goes into another. */
  lemma TwoLastBlocks(s: Digest, message: seq<Byte>, bits: nat)
    requires |Tail(message)| > 55
    ensures var tail := Tail(message);
      HashBlocks(s, Padded(message, bits))
      == Compress(Compress(HashBlocks(s, message), tail + [0x80] + Zeros(63 - |tail|)), Zeros(56) + LengthField(bits))
  {
    hide Compress, LengthField, HashBlocks;
    var tail, k := Tail(message), ZeroCount(|message|);
    var rest := [0x80] + Zeros(k) + LengthField(bits);
    assert k == 119 - |tail|;
    ContinueFromTail(s, message, rest);
    assert message + rest == Padded(message, bits);
    var first, second := tail + [0x80] + Zeros(63 - |tail|), Zeros(56) + LengthField(bits);
    assert tail + rest == first + second;
    HashBlocksConcat(HashBlocks(s, message), first, second);
    HashBlock(HashBlocks(s, message), first);
    HashBlock(HashBlocks(HashBlocks(s, message), first), second);
  }

  // ----- Whole messages -----

  function Join(pieces: seq<seq<Byte>>): seq<Byte> {
    if pieces == [] then [] else Join(pieces[..|pieces| - 1]) + pieces[|pieces| - 1]
  }

  /** Each piece, and what the low digit of the count holds when it comes, fit 32 bits. */
  ghost predicate PiecesFit(pieces: seq<seq<Byte>>) {
    forall k | 0 <= k < |pieces| :: PieceFits(pieces, k)
  }

  predicate PieceFits(pieces: seq<seq<Byte>>, k: int)
    requires 0 <= k < |pieces|
  {
    |Join(pieces[..k])| % TWO16 + |pieces[k]| < TWO32
  }

  /** However a message is split into pieces, hashing them one by one counts its length right
      exactly if every piece fits, and then hashes the message. */
  method HashPieces(pieces: seq<seq<Byte>>) returns (hasher: Hash256OneByOne)
    requires 8 * |Join(pieces)| < TWO64
    ensures hasher.digits.Length == 4 && hasher.h.Length == 8
    ensures Value(hasher.digits[..]) == |Join(pieces)| <==> PiecesFit(pieces)
    ensures PiecesFit(pieces) ==> DigestOf(hasher.h[..]) == Sha256(Join(pieces))
  {
    hide HashBlocks, Sha256, PiecesFit, PieceFits, Value, Digits, Join, Tail, InitialDigest, DigestOf;
    hasher := new Hash256OneByOne();
    NoPieces();
    for k := 0 to |pieces|
      invariant fresh(hasher) && fresh(hasher.digits) && fresh(hasher.h)
      invariant hasher.Valid() && hasher.message == Join(pieces[..k]) && (hasher.counted <==> PiecesFit(pieces[..k]))
    {
      LowDigit(hasher.digits[..]);
      NextPiece(pieces, k);
      hasher.Process(pieces[k]);
    }
    assert pieces[..|pieces|] == pieces;
    hasher.Finish();
  }

  lemma NoPieces()
    ensures PiecesFit([]) && Join([]) == []
  {
  }

  lemma NextPiece(pieces: seq<seq<Byte>>, k: nat)
    requires k < |pieces|
    ensures Join(pieces[..k + 1]) == Join(pieces[..k]) + pieces[k] && |Join(pieces[..k + 1])| <= |Join(pieces)|
    ensures PiecesFit(pieces[..k + 1]) <==> PiecesFit(pieces[..k]) && |Join(pieces[..k])| % TWO16 + |pieces[k]| < TWO32
  {
    assert pieces[..k + 1][..k] == pieces[..k];
    JoinGrows(pieces, k + 1);
    FitUpTo(pieces, k);
    FitUpTo(pieces, k + 1);
    assert PieceFits(pieces, k) <==> |Join(pieces[..k])| % TWO16 + |pieces[k]| < TWO32;
  }

  lemma FitUpTo(pieces: seq<seq<Byte>>, k: nat)
    requires k <= |pieces|
    ensures PiecesFit(pieces[..k]) <==> forall j | 0 <= j < k :: PieceFits(pieces, j)
  {
    hide Join;
    forall j | 0 <= j < k ensures PieceFits(pieces[..k], j) == PieceFits(pieces, j) {
      assert pieces[..k][..j] == pieces[..j];
    }
    if PiecesFit(pieces[..k]) {
      forall j | 0 <= j < k ensures PieceFits(pieces, j) {
        assert PieceFits(pieces[..k], j);
      }
    }
    if forall j | 0 <= j < k :: PieceFits(pieces, j) {
      forall j | 0 <= j < |pieces[..k]| ensures PieceFits(pieces[..k], j) {
        assert PieceFits(pieces, j);
      }
    }
  }

  lemma {:induction false} JoinGrows(pieces: seq<seq<Byte>>, k: nat)
    requires k <= |pieces|
    ensures |Join(pieces[..k])| <= |Join(pieces)|
    decreases |pieces| - k
  {
    if k < |pieces| {
      assert pieces[..k + 1][..k] == pieces[..k];
      JoinGrows(pieces, k + 1);
    } else {
      assert pieces[..k] == pieces;
    }
  }

  /** One-shot hashing, right for every message shorter than 2^32 bytes. */
  method Hash256(src: seq<Byte>) returns (out: seq<Byte>)
    ensures |out| == 32
    ensures |src| < TWO32 ==> exists h :: |h| == 8 && DigestOf(h) == Sha256(src) && AreDigestBytes(out, h)
  {
    hide HashBlocks, Sha256, AreDigestBytes, Digits;
    var hasher := new Hash256OneByOne();
    LowDigit(hasher.digits[..]);
    hasher.Process(src);
    assert [] + src == src;
    hasher.Finish();
    out := hasher.GetHashBytes(32);
    assert |hasher.h[..]| == 8;
  }
}
