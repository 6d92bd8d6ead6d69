/**
 The example of Appendix A of the SipHash paper, computed step by step.
 */
module SipHashExample {
  import opened Bytes
  import opened HashOps
  import opened SipHash

  const EXAMPLE_KEY: Seed := [0x00, 0x01, 0x02, 0x03, 0x04, 0x05, 0x06, 0x07, 0x08, 0x09, 0x0a, 0x0b, 0x0c, 0x0d, 0x0e, 0x0f]
  const EXAMPLE_INPUT: seq<Byte> := [0x00, 0x01, 0x02, 0x03, 0x04, 0x05, 0x06, 0x07, 0x08, 0x09, 0x0a, 0x0b, 0x0c, 0x0d, 0x0e]

  /** The lanes before and after each step: the words are added before step 0, after 3, before 4 and after 7, 0xff after 8. */
  function Trace(step: nat): Lanes {
    match step
    case 0 => Lanes(0x7469686173716475, 0x6b617f6d656e6665, 0x6b7f62616d677361, 0x7b6b696e727e6c7b)
    case 1 => Lanes(0x7469686173716475, 0x6b617f6d656e6665, 0x6b7f62616d677361, 0x7c6d6c6a717c6d7b)
    case 2 => Lanes(0x64668a929363847f, 0x4ed232083d9aa8dc, 0xf2f74892d8141a2e, 0x9290f9810552f4a8)
    case 3 => Lanes(0x4d07749cdd0858e0, 0x0d52f6f62a4f59a4, 0x634cb3577b01fd3d, 0xa5224d6f55c7d9c8)
    case 4 => Lanes(0x4a017198de0a59e0, 0x0d52f6f62a4f59a4, 0x634cb3577b01fd3d, 0xa5224d6f55c7d9c8)
    case 5 => Lanes(0x4a017198de0a59e0, 0x0d52f6f62a4f59a4, 0x634cb3577b01fd3d, 0xaa2c40635ecdd0c0)
    case 6 => Lanes(0x557560fb6063d060, 0x4c8e675bd961133e, 0xbd3d002b1703a181, 0xfb9441179a4a7315)
    case 7 => Lanes(0x338bbea7645fb759, 0x414fc3fb98efe374, 0xccf13ea527b9f4bd, 0x5293f5da84008f82)
    case 8 => Lanes(0x3c85b3ab6f55be51, 0x414fc3fb98efe374, 0xccf13ea527b9f4bd, 0x5293f5da84008f82)
    case 9 => Lanes(0x3c85b3ab6f55be51, 0x414fc3fb98efe374, 0xccf13ea527b9f442, 0x5293f5da84008f82)
    case 10 => Lanes(0xf2a55244a20e48fe, 0xac5ad16ccc3ca6e4, 0x9fe5adb0a52f393a, 0xfd41d55e88f30308)
    case 11 => Lanes(0xb6c3fbdecc2ae4b4, 0x1638c86adc6b3cf0, 0x28b8b6ab62553d46, 0xc9465e86ec43eb95)
    case 12 => Lanes(0x58101b167209a5e6, 0xf8792ae75b66e7dd, 0x1da14c3ec7f0b4f7, 0x7624ba8a41bc4ad9)
    case _ => Lanes(0xf6bcd53893fecff1, 0x54b9964c7ea0d937, 0x1b38329c099bb55a, 0x1814bb89ad7be679)
  }

  /** The steps that are rounds. */
  lemma RoundAt(step: nat)
    requires step in {1, 2, 5, 6, 9, 10, 11, 12}
    ensures SipRound(Trace(step)) == Trace(step + 1)
  {
    match step
    case 1 =>
    case 2 =>
    case 5 =>
    case 6 =>
    case 9 =>
    case 10 =>
    case 11 =>
    case _ =>
  }

  /** What byte i contributes to the value of a word. */
  function Part(b: seq<Byte>, i: nat): bv64
    requires i < |b| <= 8
  {
    Shifted(b[i] as bv64, i)
  }

  /** The value of a word, byte by byte. */
  lemma WordValue(b: seq<Byte>)
    requires |b| == 8
    ensures LittleEndian(b) ==
            Or(Or(Or(Or(Or(Or(Or(Part(b, 0), Part(b, 1)), Part(b, 2)), Part(b, 3)), Part(b, 4)), Part(b, 5)), Part(b, 6)), Part(b, 7))
  {
    hide Or, Part, LittleEndian;
    HalfWordValue(b);
    NextByte(b, 4);
    NextByte(b, 5);
    NextByte(b, 6);
    NextByte(b, 7);
    assert b[..8] == b;
  }

  lemma HalfWordValue(b: seq<Byte>)
    requires |b| == 8
    ensures LittleEndian(b[..4]) == Or(Or(Or(Part(b, 0), Part(b, 1)), Part(b, 2)), Part(b, 3))
  {
    hide Or, Part, LittleEndian;
    NoBytes(b);
    OrZero(Part(b, 0));
    NextByte(b, 0);
    NextByte(b, 1);
    NextByte(b, 2);
    NextByte(b, 3);
  }

  lemma NoBytes(b: seq<Byte>)
    ensures LittleEndian(b[..0]) == 0
  {
  }

  lemma NextByte(b: seq<Byte>, i: nat)
    requires i < |b| <= 8
    ensures LittleEndian(b[..i + 1]) == Or(LittleEndian(b[..i]), Part(b, i))
  {
    LittleEndianGrows(b[..i], b[i]);
    assert b[..i] + [b[i]] == b[..i + 1];
  }

  lemma KeyWords()
    ensures LittleEndian(EXAMPLE_KEY[..8]) == 0x0706050403020100 && LittleEndian(EXAMPLE_KEY[8..]) == 0x0f0e0d0c0b0a0908
  {
    WordValue(EXAMPLE_KEY[..8]);
    WordValue(EXAMPLE_KEY[8..]);
  }

  lemma InputWords()
    ensures Padded(EXAMPLE_INPUT)[..8] == EXAMPLE_KEY[..8] && Padded(EXAMPLE_INPUT)[8..] == EXAMPLE_KEY[8..]
  {
  }

  /**
   What the two words of the key are added to is the text "somepseudorandomlygeneratedbytes", eight characters to a
   lane, the first one highest.
   */
  lemma InitialText(key: Seed)
    ensures var k0, k1 := LittleEndian(key[..8]), LittleEndian(key[8..]);
            Initial(key) == Lanes(Xor(LittleEndian([0x75, 0x65, 0x73, 0x70, 0x65, 0x6d, 0x6f, 0x73]), k0),
                                  Xor(LittleEndian([0x6d, 0x6f, 0x64, 0x6e, 0x61, 0x72, 0x6f, 0x64]), k1),
                                  Xor(LittleEndian([0x61, 0x72, 0x65, 0x6e, 0x65, 0x67, 0x79, 0x6c]), k0),
                                  Xor(LittleEndian([0x73, 0x65, 0x74, 0x79, 0x62, 0x64, 0x65, 0x74]), k1))
  {
    hide LittleEndian, Xor;
    TextWords();
  }

  lemma TextWords()
    ensures LittleEndian([0x75, 0x65, 0x73, 0x70, 0x65, 0x6d, 0x6f, 0x73]) == 0x736f6d6570736575
    ensures LittleEndian([0x6d, 0x6f, 0x64, 0x6e, 0x61, 0x72, 0x6f, 0x64]) == 0x646f72616e646f6d
    ensures LittleEndian([0x61, 0x72, 0x65, 0x6e, 0x65, 0x67, 0x79, 0x6c]) == 0x6c7967656e657261
    ensures LittleEndian([0x73, 0x65, 0x74, 0x79, 0x62, 0x64, 0x65, 0x74]) == 0x7465646279746573
  {
    WordValue([0x75, 0x65, 0x73, 0x70, 0x65, 0x6d, 0x6f, 0x73]);
    WordValue([0x6d, 0x6f, 0x64, 0x6e, 0x61, 0x72, 0x6f, 0x64]);
    WordValue([0x61, 0x72, 0x65, 0x6e, 0x65, 0x67, 0x79, 0x6c]);
    WordValue([0x73, 0x65, 0x74, 0x79, 0x62, 0x64, 0x65, 0x74]);
  }

  lemma InitialLanes()
    ensures Initial(EXAMPLE_KEY) == Trace(0)
  {
    hide LittleEndian;
    KeyWords();
  }

  /** The steps that are not rounds. */
  lemma Additions()
    ensures Trace(1) == Trace(0).(v3 := Xor(Trace(0).v3, 0x0706050403020100))
    ensures Trace(4) == Trace(3).(v0 := Xor(Trace(3).v0, 0x0706050403020100))
    ensures Trace(5) == Trace(4).(v3 := Xor(Trace(4).v3, 0x0f0e0d0c0b0a0908))
    ensures Trace(8) == Trace(7).(v0 := Xor(Trace(7).v0, 0x0f0e0d0c0b0a0908))
    ensures Trace(9) == Trace(8).(v2 := Xor(Trace(8).v2, 0xff))
    ensures Xor(Xor(Xor(Trace(13).v0, Trace(13).v1), Trace(13).v2), Trace(13).v3) == 0xa129ca6149be45e5
  {
  }

  lemma NothingAbsorbed(s: Lanes)
    ensures AbsorbWords(s, []) == s
  {
  }

  /** The two words are compressed. */
  lemma Compressed()
    ensures AbsorbWords(Trace(0), Padded(EXAMPLE_INPUT)) == Trace(8)
  {
    hide SipRound, Trace, Xor, LittleEndian, Padded, AbsorbWords;
    KeyWords();
    InputWords();
    Additions();
    RoundAt(1);
    RoundAt(2);
    RoundAt(5);
    RoundAt(6);
    var p := Padded(EXAMPLE_INPUT);
    NothingAbsorbed(Trace(0));
    AbsorbOne(Trace(0), [], p[..8]);
    AbsorbOne(Trace(0), p[..8], p[8..]);
    assert [] + p[..8] == p[..8] && p[..8] + p[8..] == p;
  }

  lemma Finalized()
    ensures Finish(Trace(8)) == 0xa129ca6149be45e5
  {
    hide SipRound, Trace, Xor;
    Additions();
    RoundAt(9);
    RoundAt(10);
    RoundAt(11);
    RoundAt(12);
  }

  /** Appendix A of the SipHash paper: key 00 01 ... 0f, input 00 01 ... 0e. */
  lemma Example()
    ensures SipHash24(EXAMPLE_KEY, EXAMPLE_INPUT) == 0xa129ca6149be45e5
  {
    hide Initial, AbsorbWords, Padded, Finish, Trace;
    InitialLanes();
    Compressed();
    Finalized();
  }
}
