/** The example of the standard for one block, the message "abc": every word of its schedule and
    every round, and the digest that comes out. */
module Sha256Example {
  import opened Sha256Blocks
  import opened Sha256Streaming

  /** The message, padded: a one bit, zeros and the length of 24 bits. */
  function Abc(): (r: seq<Byte>)
    ensures |r| == 64
  {
    [0x61, 0x62, 0x63, 0x80] + Zeros(59) + [0x18]
  }

  /** The words of the message schedule. */
  function Expanded(t: int): Word {
    if t < 8 then (match t
      case 0 => 0x61626380 case 1 => 0x00000000 case 2 => 0x00000000 case 3 => 0x00000000
      case 4 => 0x00000000 case 5 => 0x00000000 case 6 => 0x00000000 case 7 => 0x00000000
      case _ => 0)
    else if t < 16 then (match t
      case 8 => 0x00000000 case 9 => 0x00000000 case 10 => 0x00000000 case 11 => 0x00000000
      case 12 => 0x00000000 case 13 => 0x00000000 case 14 => 0x00000000 case 15 => 0x00000018
      case _ => 0)
    else if t < 24 then (match t
      case 16 => 0x61626380 case 17 => 0x000f0000 case 18 => 0x7da86405 case 19 => 0x600003c6
      case 20 => 0x3e9d7b78 case 21 => 0x0183fc00 case 22 => 0x12dcbfdb case 23 => 0xe2e2c38e
      case _ => 0)
    else if t < 32 then (match t
      case 24 => 0xc8215c1a case 25 => 0xb73679a2 case 26 => 0xe5bc3909 case 27 => 0x32663c5b
      case 28 => 0x9d209d67 case 29 => 0xec8726cb case 30 => 0x702138a4 case 31 => 0xd3b7973b
      case _ => 0)
    else if t < 40 then (match t
      case 32 => 0x93f5997f case 33 => 0x3b68ba73 case 34 => 0xaff4ffc1 case 35 => 0xf10a5c62
      case 36 => 0x0a8b3996 case 37 => 0x72af830a case 38 => 0x9409e33e case 39 => 0x24641522
      case _ => 0)
    else if t < 48 then (match t
      case 40 => 0x9f47bf94 case 41 => 0xf0a64f5a case 42 => 0x3e246a79 case 43 => 0x27333ba3
      case 44 => 0x0c4763f2 case 45 => 0x840abf27 case 46 => 0x7a290d5d case 47 => 0x065c43da
      case _ => 0)
    else if t < 56 then (match t
      case 48 => 0xfb3e89cb case 49 => 0xcc7617db case 50 => 0xb9e66c34 case 51 => 0xa9993667
      case 52 => 0x84badedd case 53 => 0xc21462bc case 54 => 0x1487472c case 55 => 0xb20f7a99
      case _ => 0)
    else (match t
      case 56 => 0xef57b9cd case 57 => 0xebe6b238 case 58 => 0x9fe3095e case 59 => 0x78bc8d4b
      case 60 => 0xa43fcf15 case 61 => 0x668b2ff8 case 62 => 0xeeaba2cc case 63 => 0x12b1edeb
      case _ => 0)
  }

  /** The working variable a after round t, counted from 0; b, c and d are a as it was before. */
  function A(t: int): Word {
    if t < 5 then (match t
      case -3 => 0xa54ff53a case -2 => 0x3c6ef372 case -1 => 0xbb67ae85 case 0 => 0x6a09e667
      case 1 => 0x5d6aebcd case 2 => 0x5a6ad9ad case 3 => 0xc8c347a7 case 4 => 0xd550f666
      case _ => 0)
    else if t < 13 then (match t
      case 5 => 0x04409a6a case 6 => 0x2b4209f5 case 7 => 0xe5030380 case 8 => 0x85a07b5f
      case 9 => 0x8e04ecb9 case 10 => 0x8c87346b case 11 => 0x4798a3f4 case 12 => 0xf71fc5a9
      case _ => 0)
    else if t < 21 then (match t
      case 13 => 0x87912990 case 14 => 0xd932eb16 case 15 => 0xc0645fde case 16 => 0xb0fa238e
      case 17 => 0x21da9a9b case 18 => 0xc2fbd9d1 case 19 => 0xfe777bbf case 20 => 0xe1f20c33
      case _ => 0)
    else if t < 29 then (match t
      case 21 => 0x9dc68b63 case 22 => 0xc2606d6d case 23 => 0xa7a3623f case 24 => 0xc5d53d8d
      case 25 => 0x1c2c2838 case 26 => 0xcde8037d case 27 => 0xb62ec4bc case 28 => 0x77d37528
      case _ => 0)
    else if t < 37 then (match t
      case 29 => 0x363482c9 case 30 => 0xa0060b30 case 31 => 0xea992a22 case 32 => 0x73b33bf5
      case 33 => 0x98e12507 case 34 => 0xfe604df5 case 35 => 0xa9a7738c case 36 => 0x65a0cfe4
      case _ => 0)
    else if t < 45 then (match t
      case 37 => 0x41a65cb1 case 38 => 0x34df1604 case 39 => 0x6dc57a8a case 40 => 0x79ea687a
      case 41 => 0xd6670766 case 42 => 0xdf46652f case 43 => 0x17aa0dfe case 44 => 0x9d4baf93
      case _ => 0)
    else if t < 53 then (match t
      case 45 => 0x26628815 case 46 => 0x72ab4b91 case 47 => 0xa14c14b0 case 48 => 0x4172328d
      case 49 => 0x05757ceb case 50 => 0xf11bfaa8 case 51 => 0x7a0508a1 case 52 => 0x886e7a22
      case _ => 0)
    else if t < 61 then (match t
      case 53 => 0x101fd28f case 54 => 0xf5702fdb case 55 => 0x3ec45cdb case 56 => 0x38cc9913
      case 57 => 0xfcd1887b case 58 => 0xc062d46f case 59 => 0xffb70472 case 60 => 0xb6ae8fff
      case _ => 0)
    else (match t
      case 61 => 0xb85e2ce9 case 62 => 0x04d24d6c case 63 => 0xd39a2165 case 64 => 0x506e3058
      case _ => 0)
  }

  /** The working variable e; f, g and h are e as it was before. */
  function E(t: int): Word {
    if t < 5 then (match t
      case -3 => 0x5be0cd19 case -2 => 0x1f83d9ab case -1 => 0x9b05688c case 0 => 0x510e527f
      case 1 => 0xfa2a4622 case 2 => 0x78ce7989 case 3 => 0xf92939eb case 4 => 0x24e00850
      case _ => 0)
    else if t < 13 then (match t
      case 5 => 0x43ada245 case 6 => 0x714260ad case 7 => 0x9b27a401 case 8 => 0x0c657a79
      case 9 => 0x32ca2d8c case 10 => 0x1cc92596 case 11 => 0x436b23e8 case 12 => 0x816fd6e9
      case _ => 0)
    else if t < 21 then (match t
      case 13 => 0x1e578218 case 14 => 0x745a48de case 15 => 0x0b92f20c case 16 => 0x07590dcd
      case 17 => 0x8034229c case 18 => 0x846ee454 case 19 => 0xcc899961 case 20 => 0xb0638179
      case _ => 0)
    else if t < 29 then (match t
      case 21 => 0x8ada8930 case 22 => 0xe1257970 case 23 => 0x49f5114a case 24 => 0xaa47c347
      case 25 => 0x2823ef91 case 26 => 0x14383d8e case 27 => 0xc74c6516 case 28 => 0xedffbff8
      case _ => 0)
    else if t < 37 then (match t
      case 29 => 0x6112a3b7 case 30 => 0xade79437 case 31 => 0x0109ab3a case 32 => 0xba591112
      case 33 => 0x9cd9f5f6 case 34 => 0x59249dd3 case 35 => 0x085f3833 case 36 => 0xf4b002d6
      case _ => 0)
    else if t < 45 then (match t
      case 37 => 0x0772a26b case 38 => 0xa507a53d case 39 => 0xf0781bc8 case 40 => 0x1efbc0a0
      case 41 => 0x26352d63 case 42 => 0x838b2711 case 43 => 0xdecd4715 case 44 => 0xfda24c2e
      case _ => 0)
    else if t < 53 then (match t
      case 45 => 0xa80f11f0 case 46 => 0xb7755da1 case 47 => 0xd57b94a9 case 48 => 0xfecf0bc6
      case 49 => 0xbd714038 case 50 => 0x6e5c390c case 51 => 0x52f1ccf7 case 52 => 0x49231c1e
      case _ => 0)
    else if t < 61 then (match t
      case 53 => 0x529e7d00 case 54 => 0x9f4787c3 case 55 => 0xe50e1b4f case 56 => 0x54cb266b
      case 57 => 0x9b5e906c case 58 => 0x7e44008e case 59 => 0x6d83bfc6 case 60 => 0xb21bad3d
      case _ => 0)
    else (match t
      case 61 => 0x961f4894 case 62 => 0x948d25b6 case 63 => 0xfb121210 case 64 => 0x5ef50f24
      case _ => 0)
  }

  function StateAt(t: int): Digest {
    Digest(A(t), A(t - 1), A(t - 2), A(t - 3), E(t), E(t - 1), E(t - 2), E(t - 3))
  }

  predicate WordOk(t: int) { NextWord(Expanded(t - 2), Expanded(t - 7), Expanded(t - 15), Expanded(t - 16)) == Expanded(t) }

  predicate RoundOk(t: int) { Round(StateAt(t), RoundConstant(t), Expanded(t)) == StateAt(t + 1) }

  lemma WordsFrom16()
    ensures forall t | 16 <= t < 24 :: WordOk(t)
  {
    assert WordOk(16) && WordOk(17) && WordOk(18) && WordOk(19);
    assert WordOk(20) && WordOk(21) && WordOk(22) && WordOk(23);
    hide WordOk;
  }

  lemma WordsFrom24()
    ensures forall t | 24 <= t < 32 :: WordOk(t)
  {
    assert WordOk(24) && WordOk(25) && WordOk(26) && WordOk(27);
    assert WordOk(28) && WordOk(29) && WordOk(30) && WordOk(31);
    hide WordOk;
  }

  lemma WordsFrom32()
    ensures forall t | 32 <= t < 40 :: WordOk(t)
  {
    assert WordOk(32) && WordOk(33) && WordOk(34) && WordOk(35);
    assert WordOk(36) && WordOk(37) && WordOk(38) && WordOk(39);
    hide WordOk;
  }

  lemma WordsFrom40()
    ensures forall t | 40 <= t < 48 :: WordOk(t)
  {
    assert WordOk(40) && WordOk(41) && WordOk(42) && WordOk(43);
    assert WordOk(44) && WordOk(45) && WordOk(46) && WordOk(47);
    hide WordOk;
  }

  lemma WordsFrom48()
    ensures forall t | 48 <= t < 56 :: WordOk(t)
  {
    assert WordOk(48) && WordOk(49) && WordOk(50) && WordOk(51);
    assert WordOk(52) && WordOk(53) && WordOk(54) && WordOk(55);
    hide WordOk;
  }

  lemma WordsFrom56()
    ensures forall t | 56 <= t < 64 :: WordOk(t)
  {
    assert WordOk(56) && WordOk(57) && WordOk(58) && WordOk(59);
    assert WordOk(60) && WordOk(61) && WordOk(62) && WordOk(63);
    hide WordOk;
  }

  lemma RoundsFrom0()
    ensures forall t | 0 <= t < 4 :: RoundOk(t)
  {
    assert RoundOk(0) && RoundOk(1) && RoundOk(2) && RoundOk(3);
    hide RoundOk;
  }

  lemma RoundsFrom4()
    ensures forall t | 4 <= t < 8 :: RoundOk(t)
  {
    assert RoundOk(4) && RoundOk(5) && RoundOk(6) && RoundOk(7);
    hide RoundOk;
  }

  lemma RoundsFrom8()
    ensures forall t | 8 <= t < 12 :: RoundOk(t)
  {
    assert RoundOk(8) && RoundOk(9) && RoundOk(10) && RoundOk(11);
    hide RoundOk;
  }

  lemma RoundsFrom12()
    ensures forall t | 12 <= t < 16 :: RoundOk(t)
  {
    assert RoundOk(12) && RoundOk(13) && RoundOk(14) && RoundOk(15);
    hide RoundOk;
  }

  lemma RoundsFrom16()
    ensures forall t | 16 <= t < 20 :: RoundOk(t)
  {
    assert RoundOk(16) && RoundOk(17) && RoundOk(18) && RoundOk(19);
    hide RoundOk;
  }

  lemma RoundsFrom20()
    ensures forall t | 20 <= t < 24 :: RoundOk(t)
  {
    assert RoundOk(20) && RoundOk(21) && RoundOk(22) && RoundOk(23);
    hide RoundOk;
  }

  lemma RoundsFrom24()
    ensures forall t | 24 <= t < 28 :: RoundOk(t)
  {
    assert RoundOk(24) && RoundOk(25) && RoundOk(26) && RoundOk(27);
    hide RoundOk;
  }

  lemma RoundsFrom28()
    ensures forall t | 28 <= t < 32 :: RoundOk(t)
  {
    assert RoundOk(28) && RoundOk(29) && RoundOk(30) && RoundOk(31);
    hide RoundOk;
  }

  lemma RoundsFrom32()
    ensures forall t | 32 <= t < 36 :: RoundOk(t)
  {
    assert RoundOk(32) && RoundOk(33) && RoundOk(34) && RoundOk(35);
    hide RoundOk;
  }

  lemma RoundsFrom36()
    ensures forall t | 36 <= t < 40 :: RoundOk(t)
  {
    assert RoundOk(36) && RoundOk(37) && RoundOk(38) && RoundOk(39);
    hide RoundOk;
  }

  lemma RoundsFrom40()
    ensures forall t | 40 <= t < 44 :: RoundOk(t)
  {
    assert RoundOk(40) && RoundOk(41) && RoundOk(42) && RoundOk(43);
    hide RoundOk;
  }

  lemma RoundsFrom44()
    ensures forall t | 44 <= t < 48 :: RoundOk(t)
  {
    assert RoundOk(44) && RoundOk(45) && RoundOk(46) && RoundOk(47);
    hide RoundOk;
  }

  lemma RoundsFrom48()
    ensures forall t | 48 <= t < 52 :: RoundOk(t)
  {
    assert RoundOk(48) && RoundOk(49) && RoundOk(50) && RoundOk(51);
    hide RoundOk;
  }

  lemma RoundsFrom52()
    ensures forall t | 52 <= t < 56 :: RoundOk(t)
  {
    assert RoundOk(52) && RoundOk(53) && RoundOk(54) && RoundOk(55);
    hide RoundOk;
  }

  lemma RoundsFrom56()
    ensures forall t | 56 <= t < 60 :: RoundOk(t)
  {
    assert RoundOk(56) && RoundOk(57) && RoundOk(58) && RoundOk(59);
    hide RoundOk;
  }

  lemma RoundsFrom60()
    ensures forall t | 60 <= t < 64 :: RoundOk(t)
  {
    assert RoundOk(60) && RoundOk(61) && RoundOk(62) && RoundOk(63);
    hide RoundOk;
  }

  lemma AllWords(t: int)
    requires 16 <= t < 64
    ensures WordOk(t)
  {
    hide WordOk;
    WordsFrom16();
    WordsFrom24();
    WordsFrom32();
    WordsFrom40();
    WordsFrom48();
    WordsFrom56();
  }

  lemma AllRounds(t: int)
    requires 0 <= t < 64
    ensures RoundOk(t)
  {
    hide RoundOk;
    RoundsFrom0();
    RoundsFrom4();
    RoundsFrom8();
    RoundsFrom12();
    RoundsFrom16();
    RoundsFrom20();
    RoundsFrom24();
    RoundsFrom28();
    RoundsFrom32();
    RoundsFrom36();
    RoundsFrom40();
    RoundsFrom44();
    RoundsFrom48();
    RoundsFrom52();
    RoundsFrom56();
    RoundsFrom60();
  }

  lemma FirstWords(t: int)
    requires 0 <= t < 16
    ensures Schedule(Abc(), t) == Expanded(t)
  {
    assert BigEndian(0x61, 0x62, 0x63, 0x80) == 0x61626380 && BigEndian(0, 0, 0, 0) == 0 && BigEndian(0, 0, 0, 0x18) == 0x18;
    hide BigEndian;
  }

  lemma {:induction false} ScheduleIs(t: int)
    requires 0 <= t < 64
    ensures Schedule(Abc(), t) == Expanded(t)
  {
    hide Expanded, NextWord, Abc;
    if t < 16 {
      FirstWords(t);
    } else {
      ScheduleIs(t - 2);
      ScheduleIs(t - 7);
      ScheduleIs(t - 15);
      ScheduleIs(t - 16);
      AllWords(t);
    }
  }

  lemma {:induction false} RoundsAre(t: nat)
    requires t <= 64
    ensures Rounds(StateAt(0), Abc(), t) == StateAt(t)
  {
    hide StateAt, Expanded, Schedule, Abc, Round, RoundConstant;
    if t > 0 {
      RoundsAre(t - 1);
      ScheduleIs(t - 1);
      AllRounds(t - 1);
    }
  }

  /** The hash of "abc". */
  lemma AbcDigest()
    ensures Sha256([0x61, 0x62, 0x63])
         == Digest(0xba7816bf, 0x8f01cfea, 0x414140de, 0x5dae2223, 0xb00361a3, 0x96177a9c, 0xb410ff61, 0xf20015ad)
  {
    hide Rounds, Schedule;
    StartIs();
    RoundsAre(64);
    SumIs();
    PaddedIs();
    HashBlock(InitialDigest(), Abc());
  }

  lemma StartIs()
    ensures StateAt(0) == InitialDigest()
  {
  }

  lemma SumIs()
    ensures Add(StateAt(0), StateAt(64))
         == Digest(0xba7816bf, 0x8f01cfea, 0x414140de, 0x5dae2223, 0xb00361a3, 0x96177a9c, 0xb410ff61, 0xf20015ad)
  {
  }

  lemma PaddedIs()
    ensures Padded([0x61, 0x62, 0x63], 24) == Abc()
  {
    assert ZeroCount(3) == 52;
    assert LengthField(24) == Zeros(7) + [0x18];
  }
}
