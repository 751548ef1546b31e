/** The hash computation of SHA-256, section 6.2 of FIPS 180-4, and the loops that carry it out
    on one block. */
module Sha256Blocks {

  // ----- Constants (sections 4.2.2 and 5.3.3) -----

  type Byte = bv8
  type Word = bv32

  function RoundConstant(t: int): Word {
    if t < 8 then (match t
      case 0 => 0x428a2f98 case 1 => 0x71374491 case 2 => 0xb5c0fbcf case 3 => 0xe9b5dba5
      case 4 => 0x3956c25b case 5 => 0x59f111f1 case 6 => 0x923f82a4 case 7 => 0xab1c5ed5
      case _ => 0)
    else if t < 16 then (match t
      case 8 => 0xd807aa98 case 9 => 0x12835b01 case 10 => 0x243185be case 11 => 0x550c7dc3
      case 12 => 0x72be5d74 case 13 => 0x80deb1fe case 14 => 0x9bdc06a7 case 15 => 0xc19bf174
      case _ => 0)
    else if t < 24 then (match t
      case 16 => 0xe49b69c1 case 17 => 0xefbe4786 case 18 => 0x0fc19dc6 case 19 => 0x240ca1cc
      case 20 => 0x2de92c6f case 21 => 0x4a7484aa case 22 => 0x5cb0a9dc case 23 => 0x76f988da
      case _ => 0)
    else if t < 32 then (match t
      case 24 => 0x983e5152 case 25 => 0xa831c66d case 26 => 0xb00327c8 case 27 => 0xbf597fc7
      case 28 => 0xc6e00bf3 case 29 => 0xd5a79147 case 30 => 0x06ca6351 case 31 => 0x14292967
      case _ => 0)
    else if t < 40 then (match t
      case 32 => 0x27b70a85 case 33 => 0x2e1b2138 case 34 => 0x4d2c6dfc case 35 => 0x53380d13
      case 36 => 0x650a7354 case 37 => 0x766a0abb case 38 => 0x81c2c92e case 39 => 0x92722c85
      case _ => 0)
    else if t < 48 then (match t
      case 40 => 0xa2bfe8a1 case 41 => 0xa81a664b case 42 => 0xc24b8b70 case 43 => 0xc76c51a3
      case 44 => 0xd192e819 case 45 => 0xd6990624 case 46 => 0xf40e3585 case 47 => 0x106aa070
      case _ => 0)
    else if t < 56 then (match t
      case 48 => 0x19a4c116 case 49 => 0x1e376c08 case 50 => 0x2748774c case 51 => 0x34b0bcb5
      case 52 => 0x391c0cb3 case 53 => 0x4ed8aa4a case 54 => 0x5b9cca4f case 55 => 0x682e6ff3
      case _ => 0)
    else (match t
      case 56 => 0x748f82ee case 57 => 0x78a5636f case 58 => 0x84c87814 case 59 => 0x8cc70208
      case 60 => 0x90befffa case 61 => 0xa4506ceb case 62 => 0xbef9a3f7 case 63 => 0xc67178f2
      case _ => 0)
  }

  function InitialWord(t: int): Word {
    match t
    case 0 => 0x6a09e667 case 1 => 0xbb67ae85 case 2 => 0x3c6ef372 case 3 => 0xa54ff53a
    case 4 => 0x510e527f case 5 => 0x9b05688c case 6 => 0x1f83d9ab case 7 => 0x5be0cd19
    case _ => 0
  }

  // ----- Functions (section 4.1.2) -----

  function Ch(x: Word, y: Word, z: Word): Word { (x & y) ^ (!x & z) }

  function Maj(x: Word, y: Word, z: Word): Word { (x & y) ^ (x & z) ^ (y & z) }

  function Rotr(x: Word, n: Word): Word
    requires 0 < n < 32
  {
    (x >> n) | (x << (32 - n))
  }

  function Bsig0(x: Word): Word { Rotr(x, 2) ^ Rotr(x, 13) ^ Rotr(x, 22) }

  function Bsig1(x: Word): Word { Rotr(x, 6) ^ Rotr(x, 11) ^ Rotr(x, 25) }

  function Ssig0(x: Word): Word { Rotr(x, 7) ^ Rotr(x, 18) ^ (x >> 3) }

  function Ssig1(x: Word): Word { Rotr(x, 17) ^ Rotr(x, 19) ^ (x >> 10) }

  /** Addition modulo 2^32. */
  function Plus(x: Word, y: Word): Word { x + y }

  /** Four bytes, the first one highest. */
  function BigEndian(a: Byte, b: Byte, c: Byte, d: Byte): Word {
    ((a as Word) << 24) | ((b as Word) << 16) | ((c as Word) << 8) | (d as Word)
  }

  // ----- One block (section 6.2.2) -----

  datatype Digest = Digest(a: Word, b: Word, c: Word, d: Word, e: Word, f: Word, g: Word, h: Word)

  function NextWord(w2: Word, w7: Word, w15: Word, w16: Word): Word {
    Plus(Plus(Plus(Ssig1(w2), w7), Ssig0(w15)), w16)
  }

  /** The message schedule. */
  function Schedule(block: seq<Byte>, t: nat): Word
    requires |block| == 64 && t < 64
  {
    if t < 16 then BigEndian(block[4 * t], block[4 * t + 1], block[4 * t + 2], block[4 * t + 3])
    else NextWord(Schedule(block, t - 2), Schedule(block, t - 7), Schedule(block, t - 15), Schedule(block, t - 16))
  }

  function Round(s: Digest, k: Word, w: Word): Digest {
    var t1 := Plus(Plus(Plus(Plus(s.h, Bsig1(s.e)), Ch(s.e, s.f, s.g)), k), w);
    var t2 := Plus(Bsig0(s.a), Maj(s.a, s.b, s.c));
    Digest(Plus(t1, t2), s.a, s.b, s.c, Plus(s.d, t1), s.e, s.f, s.g)
  }

  function Rounds(s: Digest, block: seq<Byte>, t: nat): Digest
    requires |block| == 64 && t <= 64
  {
    if t == 0 then s else Round(Rounds(s, block, t - 1), RoundConstant(t - 1), Schedule(block, t - 1))
  }

  function Add(s: Digest, r: Digest): Digest {
    Digest(Plus(s.a, r.a), Plus(s.b, r.b), Plus(s.c, r.c), Plus(s.d, r.d),
           Plus(s.e, r.e), Plus(s.f, r.f), Plus(s.g, r.g), Plus(s.h, r.h))
  }

  function Compress(s: Digest, block: seq<Byte>): Digest
    requires |block| == 64
  {
    Add(s, Rounds(s, block, 64))
  }

  function DigestOf(h: seq<Word>): Digest
    requires |h| == 8
  {
    Digest(h[0], h[1], h[2], h[3], h[4], h[5], h[6], h[7])
  }

  method FillSchedule(block: seq<Byte>) returns (w: array<Word>)
    requires |block| == 64
    ensures fresh(w) && w.Length == 64 && forall t | 0 <= t < 64 :: w[t] == Schedule(block, t)
  {
    hide BigEndian, NextWord;
    w := new Word[64](i => 0);
    for i := 0 to 16
      invariant forall t | 0 <= t < i :: w[t] == Schedule(block, t)
    {
      w[i] := BigEndian(block[i * 4], block[i * 4 + 1], block[i * 4 + 2], block[i * 4 + 3]);
    }
    for i := 16 to 64
      invariant forall t | 0 <= t < i :: w[t] == Schedule(block, t)
    {
      w[i] := NextWord(w[i - 2], w[i - 7], w[i - 15], w[i - 16]);
    }
  }

  lemma RoundsStep(s: Digest, block: seq<Byte>, t: nat)
    requires |block| == 64 && t < 64
    ensures Rounds(s, block, t + 1) == Round(Rounds(s, block, t), RoundConstant(t), Schedule(block, t))
  {
  }

  method RunRounds(s: Digest, block: seq<Byte>, w: array<Word>) returns (r: Digest)
    requires |block| == 64 && w.Length == 64 && forall t | 0 <= t < 64 :: w[t] == Schedule(block, t)
    ensures r == Rounds(s, block, 64)
  {
    var a, b, c, d, e, f, g, h := s.a, s.b, s.c, s.d, s.e, s.f, s.g, s.h;
    assert Digest(a, b, c, d, e, f, g, h) == Rounds(s, block, 0);
    hide Bsig0, Bsig1, Ch, Maj, RoundConstant, Schedule, Plus, Rounds;
    for i := 0 to 64
      invariant Digest(a, b, c, d, e, f, g, h) == Rounds(s, block, i)
    {
      RoundsStep(s, block, i);
      var temp1 := Plus(Plus(Plus(Plus(h, Bsig1(e)), Ch(e, f, g)), RoundConstant(i)), w[i]);
      var temp2 := Plus(Bsig0(a), Maj(a, b, c));
      h := g;
      g := f;
      f := e;
      e := Plus(d, temp1);
      d := c;
      c := b;
      b := a;
      a := Plus(temp1, temp2);
    }
    r := Digest(a, b, c, d, e, f, g, h);
  }

  /** Hash one block into the digest, in place. */
  method Hash256Block(digest: array<Word>, block: seq<Byte>)
    requires digest.Length == 8 && |block| == 64
    modifies digest
    ensures DigestOf(digest[..]) == Compress(DigestOf(old(digest[..])), block)
  {
    hide Plus, Rounds, Schedule;
    var w := FillSchedule(block);
    var r := RunRounds(DigestOf(digest[..]), block, w);
    digest[0], digest[1], digest[2], digest[3] :=
      Plus(digest[0], r.a), Plus(digest[1], r.b), Plus(digest[2], r.c), Plus(digest[3], r.d);
    digest[4], digest[5], digest[6], digest[7] :=
      Plus(digest[4], r.e), Plus(digest[5], r.f), Plus(digest[6], r.g), Plus(digest[7], r.h);
  }
}
