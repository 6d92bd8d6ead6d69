/**
 The one-block and the two-block example of appendices B.1 and B.2 of FIPS 180-2,
 computed round by round. The tables hold the message schedules, and the working
 variables a and e from three rounds before the first one on: the others are those
 of earlier rounds.
 */
module Sha256Examples {
  import opened Bytes
  import opened Common
  import opened Word32
  import opened Sha256

  // ----- the schedule and the rounds of a block, given as tables

  /** How word t follows from earlier ones. */
  function Expansion(w2: Word, w7: Word, w15: Word, w16: Word): Word {
    Plus(Plus(Plus(R1(w2), w7), R0(w15)), w16)
  }

  ghost predicate WordRight(block: seq<Byte>, w: nat -> Word, t: nat)
    requires |block| == 64
  {
    w(t) == if t < 16 then BigEndianWord(block[4 * t..4 * t + 4]) else Expansion(w(t - 2), w(t - 7), w(t - 15), w(t - 16))
  }

  ghost predicate RoundRight(w: nat -> Word, at: nat -> Vars, t: nat)
    requires t < 64
  {
    Round(at(t), K(t), w(t)) == at(t + 1)
  }

  lemma {:induction false} ScheduleIs(block: seq<Byte>, w: nat -> Word, t: nat)
    requires |block| == 64 && t < 64
    requires forall i :: 0 <= i < 64 ==> WordRight(block, w, i)
    ensures Schedule(block, t) == w(t)
  {
    hide Plus, R0, R1, BigEndianWord;
    assert WordRight(block, w, t);
    if t >= 16 {
      ScheduleIs(block, w, t - 2);
      ScheduleIs(block, w, t - 7);
      ScheduleIs(block, w, t - 15);
      ScheduleIs(block, w, t - 16);
    }
  }

  lemma {:induction false} RoundsAre(block: seq<Byte>, w: nat -> Word, at: nat -> Vars, t: nat)
    requires |block| == 64 && t <= 64
    requires forall i :: 0 <= i < 64 ==> Schedule(block, i) == w(i)
    requires forall i :: 0 <= i < 64 ==> RoundRight(w, at, i)
    ensures Rounds(at(0), block, t) == at(t)
  {
    hide Round, K, Schedule;
    if t > 0 {
      RoundsAre(block, w, at, t - 1);
      assert RoundRight(w, at, t - 1);
    }
  }

  // ----- the tables

  function AbcWord(t: nat): Word {
    match t
    case 0 => 0x61626380 case 1 => 0x00000000 case 2 => 0x00000000 case 3 => 0x00000000 case 4 => 0x00000000
    case 5 => 0x00000000 case 6 => 0x00000000 case 7 => 0x00000000 case 8 => 0x00000000 case 9 => 0x00000000
    case 10 => 0x00000000 case 11 => 0x00000000 case 12 => 0x00000000 case 13 => 0x00000000 case 14 => 0x00000000
    case 15 => 0x00000018 case 16 => 0x61626380 case 17 => 0x000f0000 case 18 => 0x7da86405 case 19 => 0x600003c6
    case 20 => 0x3e9d7b78 case 21 => 0x0183fc00 case 22 => 0x12dcbfdb case 23 => 0xe2e2c38e case 24 => 0xc8215c1a
    case 25 => 0xb73679a2 case 26 => 0xe5bc3909 case 27 => 0x32663c5b case 28 => 0x9d209d67 case 29 => 0xec8726cb
    case 30 => 0x702138a4 case 31 => 0xd3b7973b case 32 => 0x93f5997f case 33 => 0x3b68ba73 case 34 => 0xaff4ffc1
    case 35 => 0xf10a5c62 case 36 => 0x0a8b3996 case 37 => 0x72af830a case 38 => 0x9409e33e case 39 => 0x24641522
    case 40 => 0x9f47bf94 case 41 => 0xf0a64f5a case 42 => 0x3e246a79 case 43 => 0x27333ba3 case 44 => 0x0c4763f2
    case 45 => 0x840abf27 case 46 => 0x7a290d5d case 47 => 0x065c43da case 48 => 0xfb3e89cb case 49 => 0xcc7617db
    case 50 => 0xb9e66c34 case 51 => 0xa9993667 case 52 => 0x84badedd case 53 => 0xc21462bc case 54 => 0x1487472c
    case 55 => 0xb20f7a99 case 56 => 0xef57b9cd case 57 => 0xebe6b238 case 58 => 0x9fe3095e case 59 => 0x78bc8d4b
    case 60 => 0xa43fcf15 case 61 => 0x668b2ff8 case 62 => 0xeeaba2cc case _ => 0x12b1edeb
  }

  function AbcA(t: nat): Word {
    match t
    case 0 => 0xa54ff53a case 1 => 0x3c6ef372 case 2 => 0xbb67ae85 case 3 => 0x6a09e667 case 4 => 0x5d6aebcd
    case 5 => 0x5a6ad9ad case 6 => 0xc8c347a7 case 7 => 0xd550f666 case 8 => 0x04409a6a case 9 => 0x2b4209f5
    case 10 => 0xe5030380 case 11 => 0x85a07b5f case 12 => 0x8e04ecb9 case 13 => 0x8c87346b case 14 => 0x4798a3f4
    case 15 => 0xf71fc5a9 case 16 => 0x87912990 case 17 => 0xd932eb16 case 18 => 0xc0645fde case 19 => 0xb0fa238e
    case 20 => 0x21da9a9b case 21 => 0xc2fbd9d1 case 22 => 0xfe777bbf case 23 => 0xe1f20c33 case 24 => 0x9dc68b63
    case 25 => 0xc2606d6d case 26 => 0xa7a3623f case 27 => 0xc5d53d8d case 28 => 0x1c2c2838 case 29 => 0xcde8037d
    case 30 => 0xb62ec4bc case 31 => 0x77d37528 case 32 => 0x363482c9 case 33 => 0xa0060b30 case 34 => 0xea992a22
    case 35 => 0x73b33bf5 case 36 => 0x98e12507 case 37 => 0xfe604df5 case 38 => 0xa9a7738c case 39 => 0x65a0cfe4
    case 40 => 0x41a65cb1 case 41 => 0x34df1604 case 42 => 0x6dc57a8a case 43 => 0x79ea687a case 44 => 0xd6670766
    case 45 => 0xdf46652f case 46 => 0x17aa0dfe case 47 => 0x9d4baf93 case 48 => 0x26628815 case 49 => 0x72ab4b91
    case 50 => 0xa14c14b0 case 51 => 0x4172328d case 52 => 0x05757ceb case 53 => 0xf11bfaa8 case 54 => 0x7a0508a1
    case 55 => 0x886e7a22 case 56 => 0x101fd28f case 57 => 0xf5702fdb case 58 => 0x3ec45cdb case 59 => 0x38cc9913
    case 60 => 0xfcd1887b case 61 => 0xc062d46f case 62 => 0xffb70472 case 63 => 0xb6ae8fff case 64 => 0xb85e2ce9
    case 65 => 0x04d24d6c case 66 => 0xd39a2165 case _ => 0x506e3058
  }

  function AbcE(t: nat): Word {
    match t
    case 0 => 0x5be0cd19 case 1 => 0x1f83d9ab case 2 => 0x9b05688c case 3 => 0x510e527f case 4 => 0xfa2a4622
    case 5 => 0x78ce7989 case 6 => 0xf92939eb case 7 => 0x24e00850 case 8 => 0x43ada245 case 9 => 0x714260ad
    case 10 => 0x9b27a401 case 11 => 0x0c657a79 case 12 => 0x32ca2d8c case 13 => 0x1cc92596 case 14 => 0x436b23e8
    case 15 => 0x816fd6e9 case 16 => 0x1e578218 case 17 => 0x745a48de case 18 => 0x0b92f20c case 19 => 0x07590dcd
    case 20 => 0x8034229c case 21 => 0x846ee454 case 22 => 0xcc899961 case 23 => 0xb0638179 case 24 => 0x8ada8930
    case 25 => 0xe1257970 case 26 => 0x49f5114a case 27 => 0xaa47c347 case 28 => 0x2823ef91 case 29 => 0x14383d8e
    case 30 => 0xc74c6516 case 31 => 0xedffbff8 case 32 => 0x6112a3b7 case 33 => 0xade79437 case 34 => 0x0109ab3a
    case 35 => 0xba591112 case 36 => 0x9cd9f5f6 case 37 => 0x59249dd3 case 38 => 0x085f3833 case 39 => 0xf4b002d6
    case 40 => 0x0772a26b case 41 => 0xa507a53d case 42 => 0xf0781bc8 case 43 => 0x1efbc0a0 case 44 => 0x26352d63
    case 45 => 0x838b2711 case 46 => 0xdecd4715 case 47 => 0xfda24c2e case 48 => 0xa80f11f0 case 49 => 0xb7755da1
    case 50 => 0xd57b94a9 case 51 => 0xfecf0bc6 case 52 => 0xbd714038 case 53 => 0x6e5c390c case 54 => 0x52f1ccf7
    case 55 => 0x49231c1e case 56 => 0x529e7d00 case 57 => 0x9f4787c3 case 58 => 0xe50e1b4f case 59 => 0x54cb266b
    case 60 => 0x9b5e906c case 61 => 0x7e44008e case 62 => 0x6d83bfc6 case 63 => 0xb21bad3d case 64 => 0x961f4894
    case 65 => 0x948d25b6 case 66 => 0xfb121210 case _ => 0x5ef50f24
  }

  function FirstWord(t: nat): Word {
    match t
    case 0 => 0x61626364 case 1 => 0x62636465 case 2 => 0x63646566 case 3 => 0x64656667 case 4 => 0x65666768
    case 5 => 0x66676869 case 6 => 0x6768696a case 7 => 0x68696a6b case 8 => 0x696a6b6c case 9 => 0x6a6b6c6d
    case 10 => 0x6b6c6d6e case 11 => 0x6c6d6e6f case 12 => 0x6d6e6f70 case 13 => 0x6e6f7071 case 14 => 0x80000000
    case 15 => 0x00000000 case 16 => 0xeb8012ad case 17 => 0xa7c3ae92 case 18 => 0x76e93ba2 case 19 => 0xba42e743
    case 20 => 0x92a92204 case 21 => 0xd847e75e case 22 => 0x9e160036 case 23 => 0xb280a7cb case 24 => 0xddeb1516
    case 25 => 0xf36586f4 case 26 => 0x969cd048 case 27 => 0xe959d99d case 28 => 0x6accc0ec case 29 => 0xf54cb098
    case 30 => 0x2af1b2da case 31 => 0xee59c4c9 case 32 => 0xa835e16a case 33 => 0x1dff4429 case 34 => 0xd6e15959
    case 35 => 0xc397cd6e case 36 => 0x6f1801ca case 37 => 0x21574205 case 38 => 0x35ff7a84 case 39 => 0x9743ee78
    case 40 => 0xe44183e7 case 41 => 0x0d09f00d case 42 => 0x9c89af54 case 43 => 0x042d5bef case 44 => 0x71f134d0
    case 45 => 0x0f94f463 case 46 => 0x7e49dc63 case 47 => 0x6f65c997 case 48 => 0x0b706583 case 49 => 0x179312ca
    case 50 => 0x503054e9 case 51 => 0xba125c39 case 52 => 0x7e9392c9 case 53 => 0xd5cbaa1e case 54 => 0x78e0585d
    case 55 => 0xf6e7611c case 56 => 0x8ac830ce case 57 => 0x8b47a303 case 58 => 0xfd6e627f case 59 => 0x8c6e2c6a
    case 60 => 0x4001adf1 case 61 => 0x1a3dd097 case 62 => 0xa9df6f62 case _ => 0x6aa60a39
  }

  function FirstA(t: nat): Word {
    match t
    case 0 => 0xa54ff53a case 1 => 0x3c6ef372 case 2 => 0xbb67ae85 case 3 => 0x6a09e667 case 4 => 0x5d6aebb1
    case 5 => 0x2f2d5fcf case 6 => 0x97651825 case 7 => 0x4a8d64d5 case 8 => 0xf921c212 case 9 => 0x55c8ef48
    case 10 => 0x485835b7 case 11 => 0xd237e6db case 12 => 0x359f2bce case 13 => 0x3a474b2b case 14 => 0xb8e2b4cb
    case 15 => 0x1762215c case 16 => 0x101a4861 case 17 => 0xd68e6457 case 18 => 0xdd16cbb3 case 19 => 0xc3486194
    case 20 => 0xb9dcacb1 case 21 => 0x046a193e case 22 => 0xf402f058 case 23 => 0x2139187b case 24 => 0xd70ac17d
    case 25 => 0x1b2b66b8 case 26 => 0xae2e2d4f case 27 => 0x59fce6b9 case 28 => 0x4a885065 case 29 => 0x573221da
    case 30 => 0x128661da case 31 => 0x73f858af case 32 => 0x74bcf468 case 33 => 0xdf7151a0 case 34 => 0xeb43f3ed
    case 35 => 0x5581ab07 case 36 => 0x9fc905c8 case 37 => 0x9ce5a62f case 38 => 0x1df8e885 case 39 => 0x0786dce8
    case 40 => 0x2c55d3a6 case 41 => 0xa985b4be case 42 => 0x91ac9d5d case 43 => 0x7e4d30b8 case 44 => 0x7e056794
    case 45 => 0x508a16ab case 46 => 0xb62c7013 case 47 => 0x167361de case 48 => 0xde71e2f2 case 49 => 0x18f0d19d
    case 50 => 0x165be9cd case 51 => 0x13d82741 case 52 => 0x017b9d99 case 53 => 0x543c99a1 case 54 => 0x758ca97a
    case 55 => 0x81c1cde0 case 56 => 0xb8d55619 case 57 => 0x1d6de87a case 58 => 0xf907b313 case 59 => 0x9e57c4a0
    case 60 => 0x71629856 case 61 => 0x7c015a2c case 62 => 0x921fccb6 case 63 => 0xe18f259a case 64 => 0xbcfce922
    case 65 => 0xf6f443f8 case 66 => 0x86126910 case _ => 0x1bdc6f6f
  }

  function FirstE(t: nat): Word {
    match t
    case 0 => 0x5be0cd19 case 1 => 0x1f83d9ab case 2 => 0x9b05688c case 3 => 0x510e527f case 4 => 0xfa2a4606
    case 5 => 0x4eb1cfce case 6 => 0x62d5c49e case 7 => 0x6494841b case 8 => 0x05c4f88a case 9 => 0x7ff91c94
    case 10 => 0x39a5b2ca case 11 => 0xa401d211 case 12 => 0xc09ffec4 case 13 => 0x9037b3b8 case 14 => 0x443ed29e
    case 15 => 0xee1c97a8 case 16 => 0x839a0fc9 case 17 => 0x9243f8af case 18 => 0x9162aded case 19 => 0x1496a54f
    case 20 => 0xd4f64250 case 21 => 0x885370b6 case 22 => 0x6f433549 case 23 => 0x7c304206 case 24 => 0x7cc6b262
    case 25 => 0xd560b028 case 26 => 0xf074fc95 case 27 => 0xa2c7d51d case 28 => 0x763597fb case 29 => 0x36e74eb4
    case 30 => 0x1162d575 case 31 => 0xe77c797f case 32 => 0x72abaecd case 33 => 0x7629c961 case 34 => 0x0635d880
    case 35 => 0xdf980085 case 36 => 0xa94d2af1 case 37 => 0x6ef3b6bd case 38 => 0x2a9e048e case 39 => 0xde2a21d1
    case 40 => 0xb067c1af case 41 => 0xf72bf353 case 42 => 0x68d8d590 case 43 => 0x9f5b9b6d case 44 => 0x423b26c0
    case 45 => 0x45459d97 case 46 => 0x80a92a00 case 47 => 0x41dd3844 case 48 => 0xff61c636 case 49 => 0x6b88472c
    case 50 => 0xa483f080 case 51 => 0xa7802a4d case 52 => 0xaeb10b60 case 53 => 0x16f134b6 case 54 => 0x100cf2ea
    case 55 => 0x5c47eb7b case 56 => 0x1c806a61 case 57 => 0x3443bed4 case 58 => 0x61a41711 case 59 => 0xeec13548
    case 60 => 0x2f6c8c4e case 61 => 0xcb9d3dd0 case 62 => 0x43d8a034 case 63 => 0x51e15869 case 64 => 0x962d8621
    case 65 => 0xacc75916 case 66 => 0x2fc08f85 case _ => 0x25d2430a
  }

  function SecondWord(t: nat): Word {
    match t
    case 0 => 0x00000000 case 1 => 0x00000000 case 2 => 0x00000000 case 3 => 0x00000000 case 4 => 0x00000000
    case 5 => 0x00000000 case 6 => 0x00000000 case 7 => 0x00000000 case 8 => 0x00000000 case 9 => 0x00000000
    case 10 => 0x00000000 case 11 => 0x00000000 case 12 => 0x00000000 case 13 => 0x00000000 case 14 => 0x00000000
    case 15 => 0x000001c0 case 16 => 0x00000000 case 17 => 0x00d80000 case 18 => 0x00000000 case 19 => 0x00003677
    case 20 => 0x00000000 case 21 => 0x1df5600d case 22 => 0x000001c0 case 23 => 0x1c00501c case 24 => 0x01b00000
    case 25 => 0x220a8d94 case 26 => 0x0000a365 case 27 => 0x177017e7 case 28 => 0x63d38035 case 29 => 0x090ab713
    case 30 => 0x4c7539ca case 31 => 0x0f19a8c9 case 32 => 0x5df4b0c4 case 33 => 0xe257036a case 34 => 0xc97bb6f1
    case 35 => 0xc5b46f4d case 36 => 0xf8253c4e case 37 => 0xa558d189 case 38 => 0x78696285 case 39 => 0xed07117f
    case 40 => 0x107358f6 case 41 => 0x390ae496 case 42 => 0x565010a2 case 43 => 0xc51d7d44 case 44 => 0x9e74c972
    case 45 => 0x6614b561 case 46 => 0x30fc129d case 47 => 0x9ac684a8 case 48 => 0x2b658dbd case 49 => 0xe290f793
    case 50 => 0x9eebb24c case 51 => 0x9713b5de case 52 => 0x41061ab7 case 53 => 0xe022e23b case 54 => 0x0772079e
    case 55 => 0x7de22d9c case 56 => 0xc8b83778 case 57 => 0x75a79849 case 58 => 0xd93dbddb case 59 => 0x0a036c9d
    case 60 => 0xcb4f6ac6 case 61 => 0x823f97e2 case 62 => 0xea2f2a7a case _ => 0xb9018b52
  }

  function SecondA(t: nat): Word {
    match t
    case 0 => 0x624cde5c case 1 => 0x3363376a case 2 => 0x417a1795 case 3 => 0x85e655d6 case 4 => 0x7c20c838
    case 5 => 0x7c3c0f86 case 6 => 0xfd1eebdc case 7 => 0xf268faa9 case 8 => 0x185a5d79 case 9 => 0x3eeb6c06
    case 10 => 0x89bba3f1 case 11 => 0xbf9a93a0 case 12 => 0x2c096744 case 13 => 0x2d964e86 case 14 => 0x5b35025b
    case 15 => 0x5eb4ec40 case 16 => 0x35ee996d case 17 => 0xd74080fa case 18 => 0x0cea5cbc case 19 => 0x16a8cc79
    case 20 => 0xf16f634e case 21 => 0x23dcb6c2 case 22 => 0xdcff40fd case 23 => 0x76f1a2bc case 24 => 0x20aad899
    case 25 => 0xd44dc81a case 26 => 0xf13ae55b case 27 => 0xa4195b91 case 28 => 0x4984fa79 case 29 => 0xaa6cb982
    case 30 => 0x9450fbbc case 31 => 0x0d936bab case 32 => 0xd958b529 case 33 => 0x1cfa5eb0 case 34 => 0x02ef3a5f
    case 35 => 0xb0eab1c5 case 36 => 0x0bfba73c case 37 => 0x4bd1df96 case 38 => 0x9907f1b6 case 39 => 0xecde4e0d
    case 40 => 0x2f11c939 case 41 => 0xd949682b case 42 => 0xadca7a96 case 43 => 0x221b8a5a case 44 => 0x12d97845
    case 45 => 0x2c794876 case 46 => 0x8300fca2 case 47 => 0xf2ad6322 case 48 => 0x0f154e11 case 49 => 0x104a7db4
    case 50 => 0x0b3303a7 case 51 => 0xd7354d5b case 52 => 0xb736d7a6 case 53 => 0x2748e5ec case 54 => 0xd8aabcf9
    case 55 => 0x1a6bcf6a case 56 => 0x4eca6fa0 case 57 => 0xec02560a case 58 => 0xd9f0c115 case 59 => 0x92952710
    case 60 => 0x20d4d0e4 case 61 => 0x4348eb1f case 62 => 0x286fe5f0 case 63 => 0x1c4cddd9 case 64 => 0xa9f181dd
    case 65 => 0xb25cef29 case 66 => 0x908c2123 case _ => 0x9ea7148b
  }

  function SecondE(t: nat): Word {
    match t
    case 0 => 0xf20e533a case 1 => 0xcc4b32c1 case 2 => 0xcac5f811 case 3 => 0x76e09589 case 4 => 0x4670ae6e
    case 5 => 0x8c51be64 case 6 => 0xaf71b9ea case 7 => 0xe20362ef case 8 => 0x8dff3001 case 9 => 0xfe20cda6
    case 10 => 0x0a34df03 case 11 => 0x059abdd1 case 12 => 0xabfa465b case 13 => 0xaa27ed82 case 14 => 0x10e77723
    case 15 => 0xe11b4548 case 16 => 0x5c24e2a2 case 17 => 0x68aa893f case 18 => 0x60356548 case 19 => 0x0fcb1f6f
    case 20 => 0x8b21cdc1 case 21 => 0xca9182d3 case 22 => 0x69bf7b95 case 23 => 0x0dc84bb1 case 24 => 0xcc4769f2
    case 25 => 0x5bace62d case 26 => 0x966aa287 case 27 => 0xeddbd6ed case 28 => 0xa530d939 case 29 => 0x0b5eeea4
    case 30 => 0x09166dda case 31 => 0x6e495d4b case 32 => 0xc2fa99b1 case 33 => 0x6c49db9f case 34 => 0x5da10665
    case 35 => 0xf6d93952 case 36 => 0x8b99e3a9 case 37 => 0x905e44ac case 38 => 0x66c3043d case 39 => 0x5dc119e6
    case 40 => 0xfed4ce1d case 41 => 0x32d99008 case 42 => 0xc6cce4ff case 43 => 0x0b82c5eb case 44 => 0xe4213ca2
    case 45 => 0xff6759ba case 46 => 0xe0e3457c case 47 => 0xcc48c7f3 case 48 => 0x6f9517cb case 49 => 0x5348e8f6
    case 50 => 0xbbe1c39a case 51 => 0xaad55b6b case 52 => 0x68f25260 case 53 => 0xd4b58576 case 54 => 0x27844711
    case 55 => 0xff5e99d0 case 56 => 0x989ed071 case 57 => 0x7151df8e case 58 => 0x624150c4 case 59 => 0x226806d6
    case 60 => 0x4e515a4d case 61 => 0xc21eddf9 case 62 => 0x54076664 case 63 => 0xf487a853 case 64 => 0x27ccb387
    case 65 => 0x2aa1bb13 case 66 => 0x9a392956 case _ => 0x2c5c4ed0
  }

  /** The working variables before round t. */
  function AbcAt(t: nat): Vars {
    Vars(AbcA(t + 3), AbcA(t + 2), AbcA(t + 1), AbcA(t), AbcE(t + 3), AbcE(t + 2), AbcE(t + 1), AbcE(t))
  }

  /** The working variables before round t. */
  function FirstAt(t: nat): Vars {
    Vars(FirstA(t + 3), FirstA(t + 2), FirstA(t + 1), FirstA(t), FirstE(t + 3), FirstE(t + 2), FirstE(t + 1), FirstE(t))
  }

  /** The working variables before round t. */
  function SecondAt(t: nat): Vars {
    Vars(SecondA(t + 3), SecondA(t + 2), SecondA(t + 1), SecondA(t), SecondE(t + 3), SecondE(t + 2), SecondE(t + 1), SecondE(t))
  }

  // ----- the tables are right

  lemma AbcWords16(t: nat)
    requires 16 <= t < 24
    ensures AbcWord(t) == Expansion(AbcWord(t - 2), AbcWord(t - 7), AbcWord(t - 15), AbcWord(t - 16))
  {
    match t
    case 16 => case 17 => case 18 => case 19 => case 20 => case 21 => case 22 => case _ =>
  }

  lemma AbcWords24(t: nat)
    requires 24 <= t < 32
    ensures AbcWord(t) == Expansion(AbcWord(t - 2), AbcWord(t - 7), AbcWord(t - 15), AbcWord(t - 16))
  {
    match t
    case 24 => case 25 => case 26 => case 27 => case 28 => case 29 => case 30 => case _ =>
  }

  lemma AbcWords32(t: nat)
    requires 32 <= t < 40
    ensures AbcWord(t) == Expansion(AbcWord(t - 2), AbcWord(t - 7), AbcWord(t - 15), AbcWord(t - 16))
  {
    match t
    case 32 => case 33 => case 34 => case 35 => case 36 => case 37 => case 38 => case _ =>
  }

  lemma AbcWords40(t: nat)
    requires 40 <= t < 48
    ensures AbcWord(t) == Expansion(AbcWord(t - 2), AbcWord(t - 7), AbcWord(t - 15), AbcWord(t - 16))
  {
    match t
    case 40 => case 41 => case 42 => case 43 => case 44 => case 45 => case 46 => case _ =>
  }

  lemma AbcWords48(t: nat)
    requires 48 <= t < 56
    ensures AbcWord(t) == Expansion(AbcWord(t - 2), AbcWord(t - 7), AbcWord(t - 15), AbcWord(t - 16))
  {
    match t
    case 48 => case 49 => case 50 => case 51 => case 52 => case 53 => case 54 => case _ =>
  }

  lemma AbcWords56(t: nat)
    requires 56 <= t < 64
    ensures AbcWord(t) == Expansion(AbcWord(t - 2), AbcWord(t - 7), AbcWord(t - 15), AbcWord(t - 16))
  {
    match t
    case 56 => case 57 => case 58 => case 59 => case 60 => case 61 => case 62 => case _ =>
  }

  lemma AbcRounds0(t: nat)
    requires 0 <= t < 8
    ensures Round(AbcAt(t), K(t), AbcWord(t)) == AbcAt(t + 1)
  {
    match t
    case 0 => case 1 => case 2 => case 3 => case 4 => case 5 => case 6 => case _ =>
  }

  lemma AbcRounds8(t: nat)
    requires 8 <= t < 16
    ensures Round(AbcAt(t), K(t), AbcWord(t)) == AbcAt(t + 1)
  {
    match t
    case 8 => case 9 => case 10 => case 11 => case 12 => case 13 => case 14 => case _ =>
  }

  lemma AbcRounds16(t: nat)
    requires 16 <= t < 24
    ensures Round(AbcAt(t), K(t), AbcWord(t)) == AbcAt(t + 1)
  {
    match t
    case 16 => case 17 => case 18 => case 19 => case 20 => case 21 => case 22 => case _ =>
  }

  lemma AbcRounds24(t: nat)
    requires 24 <= t < 32
    ensures Round(AbcAt(t), K(t), AbcWord(t)) == AbcAt(t + 1)
  {
    match t
    case 24 => case 25 => case 26 => case 27 => case 28 => case 29 => case 30 => case _ =>
  }

  lemma AbcRounds32(t: nat)
    requires 32 <= t < 40
    ensures Round(AbcAt(t), K(t), AbcWord(t)) == AbcAt(t + 1)
  {
    match t
    case 32 => case 33 => case 34 => case 35 => case 36 => case 37 => case 38 => case _ =>
  }

  lemma AbcRounds40(t: nat)
    requires 40 <= t < 48
    ensures Round(AbcAt(t), K(t), AbcWord(t)) == AbcAt(t + 1)
  {
    match t
    case 40 => case 41 => case 42 => case 43 => case 44 => case 45 => case 46 => case _ =>
  }

  lemma AbcRounds48(t: nat)
    requires 48 <= t < 56
    ensures Round(AbcAt(t), K(t), AbcWord(t)) == AbcAt(t + 1)
  {
    match t
    case 48 => case 49 => case 50 => case 51 => case 52 => case 53 => case 54 => case _ =>
  }

  lemma AbcRounds56(t: nat)
    requires 56 <= t < 64
    ensures Round(AbcAt(t), K(t), AbcWord(t)) == AbcAt(t + 1)
  {
    match t
    case 56 => case 57 => case 58 => case 59 => case 60 => case 61 => case 62 => case _ =>
  }

  lemma FirstWords16(t: nat)
    requires 16 <= t < 24
    ensures FirstWord(t) == Expansion(FirstWord(t - 2), FirstWord(t - 7), FirstWord(t - 15), FirstWord(t - 16))
  {
    match t
    case 16 => case 17 => case 18 => case 19 => case 20 => case 21 => case 22 => case _ =>
  }

  lemma FirstWords24(t: nat)
    requires 24 <= t < 32
    ensures FirstWord(t) == Expansion(FirstWord(t - 2), FirstWord(t - 7), FirstWord(t - 15), FirstWord(t - 16))
  {
    match t
    case 24 => case 25 => case 26 => case 27 => case 28 => case 29 => case 30 => case _ =>
  }

  lemma FirstWords32(t: nat)
    requires 32 <= t < 40
    ensures FirstWord(t) == Expansion(FirstWord(t - 2), FirstWord(t - 7), FirstWord(t - 15), FirstWord(t - 16))
  {
    match t
    case 32 => case 33 => case 34 => case 35 => case 36 => case 37 => case 38 => case _ =>
  }

  lemma FirstWords40(t: nat)
    requires 40 <= t < 48
    ensures FirstWord(t) == Expansion(FirstWord(t - 2), FirstWord(t - 7), FirstWord(t - 15), FirstWord(t - 16))
  {
    match t
    case 40 => case 41 => case 42 => case 43 => case 44 => case 45 => case 46 => case _ =>
  }

  lemma FirstWords48(t: nat)
    requires 48 <= t < 56
    ensures FirstWord(t) == Expansion(FirstWord(t - 2), FirstWord(t - 7), FirstWord(t - 15), FirstWord(t - 16))
  {
    match t
    case 48 => case 49 => case 50 => case 51 => case 52 => case 53 => case 54 => case _ =>
  }

  lemma FirstWords56(t: nat)
    requires 56 <= t < 64
    ensures FirstWord(t) == Expansion(FirstWord(t - 2), FirstWord(t - 7), FirstWord(t - 15), FirstWord(t - 16))
  {
    match t
    case 56 => case 57 => case 58 => case 59 => case 60 => case 61 => case 62 => case _ =>
  }

  lemma FirstRounds0(t: nat)
    requires 0 <= t < 8
    ensures Round(FirstAt(t), K(t), FirstWord(t)) == FirstAt(t + 1)
  {
    match t
    case 0 => case 1 => case 2 => case 3 => case 4 => case 5 => case 6 => case _ =>
  }

  lemma FirstRounds8(t: nat)
    requires 8 <= t < 16
    ensures Round(FirstAt(t), K(t), FirstWord(t)) == FirstAt(t + 1)
  {
    match t
    case 8 => case 9 => case 10 => case 11 => case 12 => case 13 => case 14 => case _ =>
  }

  lemma FirstRounds16(t: nat)
    requires 16 <= t < 24
    ensures Round(FirstAt(t), K(t), FirstWord(t)) == FirstAt(t + 1)
  {
    match t
    case 16 => case 17 => case 18 => case 19 => case 20 => case 21 => case 22 => case _ =>
  }

  lemma FirstRounds24(t: nat)
    requires 24 <= t < 32
    ensures Round(FirstAt(t), K(t), FirstWord(t)) == FirstAt(t + 1)
  {
    match t
    case 24 => case 25 => case 26 => case 27 => case 28 => case 29 => case 30 => case _ =>
  }

  lemma FirstRounds32(t: nat)
    requires 32 <= t < 40
    ensures Round(FirstAt(t), K(t), FirstWord(t)) == FirstAt(t + 1)
  {
    match t
    case 32 => case 33 => case 34 => case 35 => case 36 => case 37 => case 38 => case _ =>
  }

  lemma FirstRounds40(t: nat)
    requires 40 <= t < 48
    ensures Round(FirstAt(t), K(t), FirstWord(t)) == FirstAt(t + 1)
  {
    match t
    case 40 => case 41 => case 42 => case 43 => case 44 => case 45 => case 46 => case _ =>
  }

  lemma FirstRounds48(t: nat)
    requires 48 <= t < 56
    ensures Round(FirstAt(t), K(t), FirstWord(t)) == FirstAt(t + 1)
  {
    match t
    case 48 => case 49 => case 50 => case 51 => case 52 => case 53 => case 54 => case _ =>
  }

  lemma FirstRounds56(t: nat)
    requires 56 <= t < 64
    ensures Round(FirstAt(t), K(t), FirstWord(t)) == FirstAt(t + 1)
  {
    match t
    case 56 => case 57 => case 58 => case 59 => case 60 => case 61 => case 62 => case _ =>
  }

  lemma SecondWords16(t: nat)
    requires 16 <= t < 24
    ensures SecondWord(t) == Expansion(SecondWord(t - 2), SecondWord(t - 7), SecondWord(t - 15), SecondWord(t - 16))
  {
    match t
    case 16 => case 17 => case 18 => case 19 => case 20 => case 21 => case 22 => case _ =>
  }

  lemma SecondWords24(t: nat)
    requires 24 <= t < 32
    ensures SecondWord(t) == Expansion(SecondWord(t - 2), SecondWord(t - 7), SecondWord(t - 15), SecondWord(t - 16))
  {
    match t
    case 24 => case 25 => case 26 => case 27 => case 28 => case 29 => case 30 => case _ =>
  }

  lemma SecondWords32(t: nat)
    requires 32 <= t < 40
    ensures SecondWord(t) == Expansion(SecondWord(t - 2), SecondWord(t - 7), SecondWord(t - 15), SecondWord(t - 16))
  {
    match t
    case 32 => case 33 => case 34 => case 35 => case 36 => case 37 => case 38 => case _ =>
  }

  lemma SecondWords40(t: nat)
    requires 40 <= t < 48
    ensures SecondWord(t) == Expansion(SecondWord(t - 2), SecondWord(t - 7), SecondWord(t - 15), SecondWord(t - 16))
  {
    match t
    case 40 => case 41 => case 42 => case 43 => case 44 => case 45 => case 46 => case _ =>
  }

  lemma SecondWords48(t: nat)
    requires 48 <= t < 56
    ensures SecondWord(t) == Expansion(SecondWord(t - 2), SecondWord(t - 7), SecondWord(t - 15), SecondWord(t - 16))
  {
    match t
    case 48 => case 49 => case 50 => case 51 => case 52 => case 53 => case 54 => case _ =>
  }

  lemma SecondWords56(t: nat)
    requires 56 <= t < 64
    ensures SecondWord(t) == Expansion(SecondWord(t - 2), SecondWord(t - 7), SecondWord(t - 15), SecondWord(t - 16))
  {
    match t
    case 56 => case 57 => case 58 => case 59 => case 60 => case 61 => case 62 => case _ =>
  }

  lemma SecondRounds0(t: nat)
    requires 0 <= t < 8
    ensures Round(SecondAt(t), K(t), SecondWord(t)) == SecondAt(t + 1)
  {
    match t
    case 0 => case 1 => case 2 => case 3 => case 4 => case 5 => case 6 => case _ =>
  }

  lemma SecondRounds8(t: nat)
    requires 8 <= t < 16
    ensures Round(SecondAt(t), K(t), SecondWord(t)) == SecondAt(t + 1)
  {
    match t
    case 8 => case 9 => case 10 => case 11 => case 12 => case 13 => case 14 => case _ =>
  }

  lemma SecondRounds16(t: nat)
    requires 16 <= t < 24
    ensures Round(SecondAt(t), K(t), SecondWord(t)) == SecondAt(t + 1)
  {
    match t
    case 16 => case 17 => case 18 => case 19 => case 20 => case 21 => case 22 => case _ =>
  }

  lemma SecondRounds24(t: nat)
    requires 24 <= t < 32
    ensures Round(SecondAt(t), K(t), SecondWord(t)) == SecondAt(t + 1)
  {
    match t
    case 24 => case 25 => case 26 => case 27 => case 28 => case 29 => case 30 => case _ =>
  }

  lemma SecondRounds32(t: nat)
    requires 32 <= t < 40
    ensures Round(SecondAt(t), K(t), SecondWord(t)) == SecondAt(t + 1)
  {
    match t
    case 32 => case 33 => case 34 => case 35 => case 36 => case 37 => case 38 => case _ =>
  }

  lemma SecondRounds40(t: nat)
    requires 40 <= t < 48
    ensures Round(SecondAt(t), K(t), SecondWord(t)) == SecondAt(t + 1)
  {
    match t
    case 40 => case 41 => case 42 => case 43 => case 44 => case 45 => case 46 => case _ =>
  }

  lemma SecondRounds48(t: nat)
    requires 48 <= t < 56
    ensures Round(SecondAt(t), K(t), SecondWord(t)) == SecondAt(t + 1)
  {
    match t
    case 48 => case 49 => case 50 => case 51 => case 52 => case 53 => case 54 => case _ =>
  }

  lemma SecondRounds56(t: nat)
    requires 56 <= t < 64
    ensures Round(SecondAt(t), K(t), SecondWord(t)) == SecondAt(t + 1)
  {
    match t
    case 56 => case 57 => case 58 => case 59 => case 60 => case 61 => case 62 => case _ =>
  }

  lemma AbcHashed(block: seq<Byte>)
    requires |block| == 64 && forall i :: 0 <= i < 16 ==> BigEndianWord(block[4 * i..4 * i + 4]) == AbcWord(i)
    ensures HashBlock(AbcAt(0), block) == Sum(AbcAt(64), AbcAt(0))
  {
    hide AbcAt, AbcWord, Expansion, Round, K, Schedule, BigEndianWord, Sum, Rounds;
    forall i | 0 <= i < 64 ensures WordRight(block, AbcWord, i) {
      if 16 <= i < 24 {
        AbcWords16(i);
      } else if 24 <= i < 32 {
        AbcWords24(i);
      } else if 32 <= i < 40 {
        AbcWords32(i);
      } else if 40 <= i < 48 {
        AbcWords40(i);
      } else if 48 <= i < 56 {
        AbcWords48(i);
      } else if 56 <= i {
        AbcWords56(i);
      }
    }
    forall i | 0 <= i < 64
      ensures Schedule(block, i) == AbcWord(i)
      ensures RoundRight(AbcWord, AbcAt, i)
    {
      ScheduleIs(block, AbcWord, i);
      if i < 8 {
        AbcRounds0(i);
      } else if i < 16 {
        AbcRounds8(i);
      } else if i < 24 {
        AbcRounds16(i);
      } else if i < 32 {
        AbcRounds24(i);
      } else if i < 40 {
        AbcRounds32(i);
      } else if i < 48 {
        AbcRounds40(i);
      } else if i < 56 {
        AbcRounds48(i);
      } else {
        AbcRounds56(i);
      }
    }
    RoundsAre(block, AbcWord, AbcAt, 64);
  }

  lemma FirstHashed(block: seq<Byte>)
    requires |block| == 64 && forall i :: 0 <= i < 16 ==> BigEndianWord(block[4 * i..4 * i + 4]) == FirstWord(i)
    ensures HashBlock(FirstAt(0), block) == Sum(FirstAt(64), FirstAt(0))
  {
    hide FirstAt, FirstWord, Expansion, Round, K, Schedule, BigEndianWord, Sum, Rounds;
    forall i | 0 <= i < 64 ensures WordRight(block, FirstWord, i) {
      if 16 <= i < 24 {
        FirstWords16(i);
      } else if 24 <= i < 32 {
        FirstWords24(i);
      } else if 32 <= i < 40 {
        FirstWords32(i);
      } else if 40 <= i < 48 {
        FirstWords40(i);
      } else if 48 <= i < 56 {
        FirstWords48(i);
      } else if 56 <= i {
        FirstWords56(i);
      }
    }
    forall i | 0 <= i < 64
      ensures Schedule(block, i) == FirstWord(i)
      ensures RoundRight(FirstWord, FirstAt, i)
    {
      ScheduleIs(block, FirstWord, i);
      if i < 8 {
        FirstRounds0(i);
      } else if i < 16 {
        FirstRounds8(i);
      } else if i < 24 {
        FirstRounds16(i);
      } else if i < 32 {
        FirstRounds24(i);
      } else if i < 40 {
        FirstRounds32(i);
      } else if i < 48 {
        FirstRounds40(i);
      } else if i < 56 {
        FirstRounds48(i);
      } else {
        FirstRounds56(i);
      }
    }
    RoundsAre(block, FirstWord, FirstAt, 64);
  }

  lemma SecondHashed(block: seq<Byte>)
    requires |block| == 64 && forall i :: 0 <= i < 16 ==> BigEndianWord(block[4 * i..4 * i + 4]) == SecondWord(i)
    ensures HashBlock(SecondAt(0), block) == Sum(SecondAt(64), SecondAt(0))
  {
    hide SecondAt, SecondWord, Expansion, Round, K, Schedule, BigEndianWord, Sum, Rounds;
    forall i | 0 <= i < 64 ensures WordRight(block, SecondWord, i) {
      if 16 <= i < 24 {
        SecondWords16(i);
      } else if 24 <= i < 32 {
        SecondWords24(i);
      } else if 32 <= i < 40 {
        SecondWords32(i);
      } else if 40 <= i < 48 {
        SecondWords40(i);
      } else if 48 <= i < 56 {
        SecondWords48(i);
      } else if 56 <= i {
        SecondWords56(i);
      }
    }
    forall i | 0 <= i < 64
      ensures Schedule(block, i) == SecondWord(i)
      ensures RoundRight(SecondWord, SecondAt, i)
    {
      ScheduleIs(block, SecondWord, i);
      if i < 8 {
        SecondRounds0(i);
      } else if i < 16 {
        SecondRounds8(i);
      } else if i < 24 {
        SecondRounds16(i);
      } else if i < 32 {
        SecondRounds24(i);
      } else if i < 40 {
        SecondRounds32(i);
      } else if i < 48 {
        SecondRounds40(i);
      } else if i < 56 {
        SecondRounds48(i);
      } else {
        SecondRounds56(i);
      }
    }
    RoundsAre(block, SecondWord, SecondAt, 64);
  }

  lemma HashValues()
    ensures AbcAt(0) == InitialHash() && FirstAt(0) == InitialHash()
    ensures Sum(AbcAt(64), AbcAt(0)) ==
            Vars(0xba7816bf, 0x8f01cfea, 0x414140de, 0x5dae2223, 0xb00361a3, 0x96177a9c, 0xb410ff61, 0xf20015ad)
    ensures Sum(FirstAt(64), FirstAt(0)) == SecondAt(0)
    ensures Sum(SecondAt(64), SecondAt(0)) ==
            Vars(0x248d6a61, 0xd20638b8, 0xe5c02693, 0x0c3e6039, 0xa33ce459, 0x64ff2167, 0xf6ecedd4, 0x19db06c1)
  {
  }

  // ----- from words to bytes

  lemma DigestBytes(v: Vars)
    ensures BytesOf(Words(v)) == WordBytes(v.a) + WordBytes(v.b) + WordBytes(v.c) + WordBytes(v.d)
                                 + WordBytes(v.e) + WordBytes(v.f) + WordBytes(v.g) + WordBytes(v.h)
  {
    hide WordBytes, BytesOf;
    var w := Words(v);
    NoBytes();
    FirstBytes(w, 0);
    FirstBytes(w, 1);
    FirstBytes(w, 2);
    FirstBytes(w, 3);
    FirstBytes(w, 4);
    FirstBytes(w, 5);
    FirstBytes(w, 6);
    FirstBytes(w, 7);
    assert w[..8] == w && w[..0] == [] && [] + WordBytes(v.a) == WordBytes(v.a);
  }

  lemma FirstBytes(w: seq<Word>, i: nat)
    requires i < |w|
    ensures BytesOf(w[..i + 1]) == BytesOf(w[..i]) + WordBytes(w[i])
  {
    hide WordBytes, BytesOf;
    assert w[..i + 1] == w[..i] + [w[i]];
    BytesOfMore(w[..i], w[i]);
  }

  lemma AbcWords()
    ensures WordBytes(0xba7816bf) == [0xba, 0x78, 0x16, 0xbf]
    ensures WordBytes(0x8f01cfea) == [0x8f, 0x01, 0xcf, 0xea]
    ensures WordBytes(0x414140de) == [0x41, 0x41, 0x40, 0xde]
    ensures WordBytes(0x5dae2223) == [0x5d, 0xae, 0x22, 0x23]
    ensures WordBytes(0xb00361a3) == [0xb0, 0x03, 0x61, 0xa3]
    ensures WordBytes(0x96177a9c) == [0x96, 0x17, 0x7a, 0x9c]
    ensures WordBytes(0xb410ff61) == [0xb4, 0x10, 0xff, 0x61]
    ensures WordBytes(0xf20015ad) == [0xf2, 0x00, 0x15, 0xad]
  {
  }

  lemma AbcBytes()
    ensures BytesOf(Words(Vars(0xba7816bf, 0x8f01cfea, 0x414140de, 0x5dae2223, 0xb00361a3, 0x96177a9c, 0xb410ff61, 0xf20015ad))) ==
            [
              0xba, 0x78, 0x16, 0xbf, 0x8f, 0x01, 0xcf, 0xea, 0x41, 0x41, 0x40, 0xde, 0x5d, 0xae, 0x22, 0x23,
              0xb0, 0x03, 0x61, 0xa3, 0x96, 0x17, 0x7a, 0x9c, 0xb4, 0x10, 0xff, 0x61, 0xf2, 0x00, 0x15, 0xad
            ]
  {
    hide WordBytes, BytesOf;
    DigestBytes(Vars(0xba7816bf, 0x8f01cfea, 0x414140de, 0x5dae2223, 0xb00361a3, 0x96177a9c, 0xb410ff61, 0xf20015ad));
    AbcWords();
  }

  lemma LongWords()
    ensures WordBytes(0x248d6a61) == [0x24, 0x8d, 0x6a, 0x61]
    ensures WordBytes(0xd20638b8) == [0xd2, 0x06, 0x38, 0xb8]
    ensures WordBytes(0xe5c02693) == [0xe5, 0xc0, 0x26, 0x93]
    ensures WordBytes(0x0c3e6039) == [0x0c, 0x3e, 0x60, 0x39]
    ensures WordBytes(0xa33ce459) == [0xa3, 0x3c, 0xe4, 0x59]
    ensures WordBytes(0x64ff2167) == [0x64, 0xff, 0x21, 0x67]
    ensures WordBytes(0xf6ecedd4) == [0xf6, 0xec, 0xed, 0xd4]
    ensures WordBytes(0x19db06c1) == [0x19, 0xdb, 0x06, 0xc1]
  {
  }

  lemma LongBytes()
    ensures BytesOf(Words(Vars(0x248d6a61, 0xd20638b8, 0xe5c02693, 0x0c3e6039, 0xa33ce459, 0x64ff2167, 0xf6ecedd4, 0x19db06c1))) ==
            [
              0x24, 0x8d, 0x6a, 0x61, 0xd2, 0x06, 0x38, 0xb8, 0xe5, 0xc0, 0x26, 0x93, 0x0c, 0x3e, 0x60, 0x39,
              0xa3, 0x3c, 0xe4, 0x59, 0x64, 0xff, 0x21, 0x67, 0xf6, 0xec, 0xed, 0xd4, 0x19, 0xdb, 0x06, 0xc1
            ]
  {
    hide WordBytes, BytesOf;
    DigestBytes(Vars(0x248d6a61, 0xd20638b8, 0xe5c02693, 0x0c3e6039, 0xa33ce459, 0x64ff2167, 0xf6ecedd4, 0x19db06c1));
    LongWords();
  }

  lemma NothingHashed(v: Vars)
    ensures WholeBlocks(0) && HashBlocks(v, []) == v
  {
  }

  // ----- "abc"

  const ABC: seq<Byte> := [0x61, 0x62, 0x63]

  /** The fill bytes are 0x80 and zeros, and the length is 24 bits. */
  lemma AbcPadded(m: seq<Byte>)
    requires m == ABC
    ensures var b := Padded(m);
            && |b| == 64 && b[0] == 0x61 && b[1] == 0x62 && b[2] == 0x63 && b[3] == 0x80
            && (forall i :: 4 <= i < 63 ==> b[i] == 0) && b[63] == 24
  {
    hide LengthField;
    LengthBytes(3, 0, 24);
  }

  /** Small lengths. */
  lemma LengthBytes(n: nat, hi: nat, lo: nat)
    requires 8 * n == 0x100 * hi + lo && hi < 256 && lo < 256
    ensures (forall i :: 0 <= i < 6 ==> LengthField(n)[i] == ByteOf(0)) && LengthField(n)[6] == ByteOf(hi) && LengthField(n)[7] == ByteOf(lo)
  {
    hide BigEndian, ByteOf, LengthField;
    ShortLength(n, 8 * n);
    ShortNumber(0, 0, 0);
    ShortNumber(8 * n, hi, lo);
  }

  lemma ShortLength(n: nat, bits: nat)
    requires bits == 8 * n < TWO_32
    ensures LengthField(n) == BigEndian(0) + BigEndian(bits)
  {
    hide BigEndian;
    assert Wrapped(bits) == bits;
    assert bits / TWO_32 == 0 && bits % TWO_32 == bits;
  }

  lemma ShortNumber(n: nat, hi: nat, lo: nat)
    requires n == 0x100 * hi + lo && hi < 256 && lo < 256
    ensures BigEndian(n) == [ByteOf(0), ByteOf(0), ByteOf(hi), ByteOf(lo)]
  {
    hide BigEndian, ByteOf;
    assert n == Number(0, 0, hi, lo);
    BigEndianOf(n, 0, 0, hi, lo);
  }

  lemma AbcBlockWord(m: seq<Byte>, t: nat)
    requires m == ABC && t < 16 && |Padded(m)| == 64
    ensures BigEndianWord(Padded(m)[4 * t..4 * t + 4]) == AbcWord(t)
  {
    hide Padded;
    AbcPadded(m);
    var b := Padded(m);
    FourBytes(b, t);
    match t
    case 0 => case 1 => case 2 => case 3 => case 4 => case 5 => case 6 => case 7 => case 8 => case 9 => case 10 => case 11 =>
    case 12 => case 13 => case 14 => case _ =>
  }

  lemma FourBytes(b: seq<Byte>, t: nat)
    requires 4 * t + 4 <= |b|
    ensures b[4 * t..4 * t + 4] == [b[4 * t], b[4 * t + 1], b[4 * t + 2], b[4 * t + 3]]
  {
  }

  lemma AbcHash(b: seq<Byte>)
    requires |b| == 64 && forall i :: 0 <= i < 16 ==> BigEndianWord(b[4 * i..4 * i + 4]) == AbcWord(i)
    ensures WholeBlocks(|b|) && HashBlocks(InitialHash(), b) == Sum(AbcAt(64), AbcAt(0))
  {
    hide AbcAt, AbcWord, HashBlock, HashBlocks, InitialHash, Sum, BigEndianWord;
    AbcHashed(b);
    HashValues();
    NothingHashed(InitialHash());
    HashBlocksOne(InitialHash(), [], b);
    assert [] + b == b;
  }

  /** Appendix B.1 of FIPS 180-2: the digest of "abc". */
  lemma AbcDigest(m: seq<Byte>)
    requires m == ABC
    ensures Sha256.Sha256(m) ==
            [
              0xba, 0x78, 0x16, 0xbf, 0x8f, 0x01, 0xcf, 0xea, 0x41, 0x41, 0x40, 0xde, 0x5d, 0xae, 0x22, 0x23,
              0xb0, 0x03, 0x61, 0xa3, 0x96, 0x17, 0x7a, 0x9c, 0xb4, 0x10, 0xff, 0x61, 0xf2, 0x00, 0x15, 0xad
            ]
  {
    hide AbcAt, AbcWord, Padded, BytesOf, Words, HashBlocks, InitialHash, Sum, BigEndianWord;
    AbcPadded(m);
    forall i | 0 <= i < 16 ensures BigEndianWord(Padded(m)[4 * i..4 * i + 4]) == AbcWord(i) {
      AbcBlockWord(m, i);
    }
    AbcHash(Padded(m));
    HashValues();
    AbcBytes();
  }

  // ----- "abcdbcdecdefdefgefghfghighijhijkijkljklmklmnlmnomnopnopq"

  /** The message in groups of four letters. */
  function Group(t: nat): (g: seq<Byte>)
    requires t < 14
    ensures |g| == 4
  {
    match t
    case 0 => [0x61, 0x62, 0x63, 0x64]
    case 1 => [0x62, 0x63, 0x64, 0x65]
    case 2 => [0x63, 0x64, 0x65, 0x66]
    case 3 => [0x64, 0x65, 0x66, 0x67]
    case 4 => [0x65, 0x66, 0x67, 0x68]
    case 5 => [0x66, 0x67, 0x68, 0x69]
    case 6 => [0x67, 0x68, 0x69, 0x6a]
    case 7 => [0x68, 0x69, 0x6a, 0x6b]
    case 8 => [0x69, 0x6a, 0x6b, 0x6c]
    case 9 => [0x6a, 0x6b, 0x6c, 0x6d]
    case 10 => [0x6b, 0x6c, 0x6d, 0x6e]
    case 11 => [0x6c, 0x6d, 0x6e, 0x6f]
    case 12 => [0x6d, 0x6e, 0x6f, 0x70]
    case _ => [0x6e, 0x6f, 0x70, 0x71]
  }

  function LongMessage(): (m: seq<Byte>)
    ensures |m| == 56
  {
    seq(56, i requires 0 <= i < 56 => Group(i / 4)[i % 4])
  }

  lemma GroupAt(t: nat)
    requires t < 14
    ensures LongMessage()[4 * t..4 * t + 4] == Group(t)
  {
    hide Group;
    var m := LongMessage();
    assert m[4 * t..4 * t + 4] == [m[4 * t], m[4 * t + 1], m[4 * t + 2], m[4 * t + 3]];
  }

  /** The fill bytes are 0x80 and zeros, and the length is 448 bits. */
  lemma LongPadded(m: seq<Byte>)
    requires m == LongMessage()
    ensures var b := Padded(m);
            && |b| == 128 && b[..56] == m && b[56] == 0x80
            && (forall i :: 57 <= i < 126 ==> b[i] == 0) && b[126] == 0x01 && b[127] == 0xc0
  {
    hide LengthField, LongMessage;
    LengthBytes(56, 1, 0xc0);
  }

  lemma FirstBlockWord(m: seq<Byte>, t: nat)
    requires m == LongMessage() && t < 16 && |Padded(m)| == 128
    ensures BigEndianWord(Padded(m)[..64][4 * t..4 * t + 4]) == FirstWord(t)
  {
    hide Padded, LongMessage, Group;
    LongPadded(m);
    var b := Padded(m);
    if t < 14 {
      GroupAt(t);
      assert b[..64][4 * t..4 * t + 4] == b[..56][4 * t..4 * t + 4] == Group(t);
      GroupWord(t);
    } else {
      FourBytes(b[..64], t);
    }
  }

  lemma GroupWord(t: nat)
    requires t < 14
    ensures BigEndianWord(Group(t)) == FirstWord(t)
  {
    match t
    case 0 => case 1 => case 2 => case 3 => case 4 => case 5 => case 6 => case 7 => case 8 => case 9 => case 10 => case 11 =>
    case 12 => case _ =>
  }

  lemma SecondBlockWord(m: seq<Byte>, t: nat)
    requires m == LongMessage() && t < 16 && |Padded(m)| == 128
    ensures BigEndianWord(Padded(m)[64..][4 * t..4 * t + 4]) == SecondWord(t)
  {
    hide Padded, LongMessage;
    LongPadded(m);
    FourBytes(Padded(m)[64..], t);
    match t
    case 0 => case 1 => case 2 => case 3 => case 4 => case 5 => case 6 => case 7 => case 8 => case 9 => case 10 => case 11 =>
    case 12 => case 13 => case 14 => case _ =>
  }

  lemma LongHash(b: seq<Byte>)
    requires |b| == 128
    requires forall i :: 0 <= i < 16 ==> BigEndianWord(b[..64][4 * i..4 * i + 4]) == FirstWord(i)
    requires forall i :: 0 <= i < 16 ==> BigEndianWord(b[64..][4 * i..4 * i + 4]) == SecondWord(i)
    ensures WholeBlocks(|b|) && HashBlocks(InitialHash(), b) == Sum(SecondAt(64), SecondAt(0))
  {
    hide FirstAt, SecondAt, FirstWord, SecondWord, HashBlock, HashBlocks, InitialHash, Sum, BigEndianWord;
    FirstHashed(b[..64]);
    SecondHashed(b[64..]);
    HashValues();
    NothingHashed(InitialHash());
    HashBlocksOne(InitialHash(), [], b[..64]);
    assert [] + b[..64] == b[..64];
    HashBlocksOne(InitialHash(), b[..64], b[64..]);
    assert b[..64] + b[64..] == b;
  }

  /** Appendix B.2 of FIPS 180-2: the digest of that message, which takes two blocks. */
  lemma LongDigest(m: seq<Byte>)
    requires m == LongMessage()
    ensures Sha256.Sha256(m) ==
            [
              0x24, 0x8d, 0x6a, 0x61, 0xd2, 0x06, 0x38, 0xb8, 0xe5, 0xc0, 0x26, 0x93, 0x0c, 0x3e, 0x60, 0x39,
              0xa3, 0x3c, 0xe4, 0x59, 0x64, 0xff, 0x21, 0x67, 0xf6, 0xec, 0xed, 0xd4, 0x19, 0xdb, 0x06, 0xc1
            ]
  {
    hide SecondAt, FirstWord, SecondWord, Padded, LongMessage, BytesOf, Words, HashBlocks, InitialHash, Sum, BigEndianWord;
    LongPadded(m);
    forall i | 0 <= i < 16
      ensures BigEndianWord(Padded(m)[..64][4 * i..4 * i + 4]) == FirstWord(i)
      ensures BigEndianWord(Padded(m)[64..][4 * i..4 * i + 4]) == SecondWord(i)
    {
      FirstBlockWord(m, i);
      SecondBlockWord(m, i);
    }
    LongHash(Padded(m));
    HashValues();
    LongBytes();
  }
}
