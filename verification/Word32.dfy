/**
 32-bit words, their bytes in big-endian order, and the numbers they stand for.
 */
module Word32 {
  import opened Bytes
  import opened Common

  type Word = bv32

  /** Four bytes as a word, the first one highest. */
  function BigEndianWord(s: seq<Byte>): Word
    requires |s| == 4
  {
    ((s[0] as Word) << 24) | ((s[1] as Word) << 16) | ((s[2] as Word) << 8) | (s[3] as Word)
  }

  function WordBytes(w: Word): (r: seq<Byte>)
    ensures |r| == 4
  {
    [((w >> 24) & 0xff) as Byte, ((w >> 16) & 0xff) as Byte, ((w >> 8) & 0xff) as Byte, (w & 0xff) as Byte]
  }

  /** The bytes of a digest, read as a block would be, are its words. */
  lemma WordBytesInverse(w: Word)
    ensures BigEndianWord(WordBytes(w)) == w
  {
  }

  /** The digits of a number below 2^32 to the base 256, the highest first. */
  function BigEndian(n: nat): (r: seq<Byte>)
    requires n < TWO_32
    ensures |r| == 4
  {
    [(n / 0x100_0000) as Byte, (n / 0x1_0000 % 256) as Byte, (n / 0x100 % 256) as Byte, (n % 256) as Byte]
  }

  /** n as a word. */
  function WordOf(n: nat): Word
    requires n < TWO_32
  {
    BigEndianWord(BigEndian(n))
  }

  // ----- shifts by three bits

  lemma Quotient32(q: nat, r: nat)
    requires r < 32
    ensures (32 * q + r) / 32 == q
  {
  }

  lemma Remainder256(q: nat, r: nat)
    requires r < 256
    ensures (256 * q + r) % 256 == r
  {
  }

  /** The lower five bits of a byte followed by the upper three of the next one. */
  function Straddle(a: Byte, b: Byte): Byte {
    (a << 3) | (b >> 5)
  }

  /** The same with numbers. */
  function Straddled(a: nat, b: nat): (r: nat)
    requires a < 256 && b < 256
    ensures r < 256 && 8 * a + b / 32 == 256 * (a / 32) + r
  {
    assert a * 8 == 256 * (a / 32) + 8 * (a % 32);
    Remainder256(a / 32, 8 * (a % 32));
    (a * 8) % 256 + b / 32
  }

  /** (x << 3) | (y >> 29) */
  function Merged(x: Word, y: Word): Word {
    (x << 3) | (y >> 29)
  }

  /** x << 3 */
  function Raised(x: Word): Word {
    x << 3
  }

  lemma NothingMerged(x: Word)
    ensures Merged(x, WordOf(0)) == Raised(x)
  {
  }

  lemma ShiftedBytes(a: seq<Byte>, b: seq<Byte>)
    requires |a| == |b| == 4
    ensures WordBytes(Merged(BigEndianWord(a), BigEndianWord(b))) ==
            [Straddle(a[0], a[1]), Straddle(a[1], a[2]), Straddle(a[2], a[3]), Straddle(a[3], b[0])]
  {
  }

  lemma UpperFive(w: Byte)
    ensures w as nat == 8 * ((w >> 3) as nat) + ((w & 7) as nat)
  {
  }

  lemma UpperThree(w: Byte)
    ensures w as nat == 32 * ((w >> 5) as nat) + ((w & 31) as nat) && (w & 31) as nat < 32
  {
  }

  lemma StraddleBits(a: Byte, b: Byte)
    ensures Straddle(a, b) >> 3 == a & 31 && Straddle(a, b) & 7 == b >> 5
  {
  }

  lemma StraddleParts(w: nat, a: nat, b: nat, high: nat, low: nat, high': nat, low': nat)
    requires a == 32 * high + low && b == 32 * high' + low' && low < 32 && low' < 32 && a < 256 && b < 256
    requires w == 8 * low + high'
    ensures w == Straddled(a, b)
  {
    Quotient32(high', low');
    Remainder256(high, 8 * low);
    assert a * 8 == 256 * high + 8 * low;
  }

  lemma StraddleNumber(a: Byte, b: Byte)
    ensures Straddle(a, b) as nat == Straddled(a as nat, b as nat)
  {
    UpperFive(Straddle(a, b));
    UpperThree(a);
    UpperThree(b);
    StraddleBits(a, b);
    StraddleParts(Straddle(a, b) as nat, a as nat, b as nat, (a >> 5) as nat, (a & 31) as nat, (b >> 5) as nat, (b & 31) as nat);
  }

  function ByteOf(n: nat): Byte
    requires n < 256
  {
    n as Byte
  }

  lemma ByteOfNumber(b: Byte)
    ensures ByteOf(b as nat) == b
  {
  }

  lemma NextByte(b: Byte)
    ensures if b == 255 then b as nat == 255 else (b + 1) as nat == b as nat + 1
  {
  }

  lemma {:induction false} NumberOfSomeByte(n: nat) returns (b: Byte)
    requires n < 256
    ensures b as nat == n
  {
    b := 0;
    if n > 0 {
      b := NumberOfSomeByte(n - 1);
      NextByte(b);
      b := b + 1;
    }
  }

  lemma NumberOfByte(n: nat)
    requires n < 256
    ensures ByteOf(n) as nat == n
  {
    var b := NumberOfSomeByte(n);
    ByteOfNumber(b);
  }

  lemma StraddleDigits(a: nat, b: nat)
    requires a < 256 && b < 256
    ensures Straddle(ByteOf(a), ByteOf(b)) == ByteOf(Straddled(a, b))
  {
    hide Straddle, Straddled, ByteOf;
    NumberOfByte(a);
    NumberOfByte(b);
    StraddleNumber(ByteOf(a), ByteOf(b));
    ByteOfNumber(Straddle(ByteOf(a), ByteOf(b)));
  }

  function Number(b3: nat, b2: nat, b1: nat, b0: nat): nat {
    0x100_0000 * b3 + 0x1_0000 * b2 + 0x100 * b1 + b0
  }

  lemma NumberOf(n: nat)
    requires n < TWO_32
    ensures n == Number(n / 0x100_0000, n / 0x1_0000 % 256, n / 0x100 % 256, n % 256)
  {
    assert n / 0x1_0000 / 256 == n / 0x100_0000;
    assert n / 0x100 / 256 == n / 0x1_0000;
  }

  lemma DigitsOf(n: nat, b3: nat, b2: nat, b1: nat, b0: nat)
    requires b3 < 256 && b2 < 256 && b1 < 256 && b0 < 256 && n == Number(b3, b2, b1, b0)
    ensures n < TWO_32 && n / 0x100_0000 == b3 && n / 0x1_0000 % 256 == b2 && n / 0x100 % 256 == b1 && n % 256 == b0
  {
    assert n / 0x1_0000 == 256 * b3 + b2;
    assert n / 0x100 == 256 * (256 * b3 + b2) + b1;
  }

  lemma Remainder(q: nat, n: nat, r: nat, c: nat)
    requires 8 * n + c == TWO_32 * q + r && c < 8 && r < TWO_32
    ensures (n * 8) % TWO_32 + c == r
  {
  }

  lemma Carry(b3: nat, b2: nat, b1: nat, b0: nat, q3: nat, q2: nat, q1: nat, q0: nat, r3: nat, r2: nat, r1: nat, r0: nat, c: nat)
    requires 8 * b3 + q2 == 256 * q3 + r3 && 8 * b2 + q1 == 256 * q2 + r2 && 8 * b1 + q0 == 256 * q1 + r1 && 8 * b0 + c == 256 * q0 + r0
    ensures 8 * Number(b3, b2, b1, b0) + c == TWO_32 * q3 + Number(r3, r2, r1, r0)
  {
  }

  /** Eight times a number, digit by digit. */
  lemma Eightfold(n: nat, b3: nat, b2: nat, b1: nat, b0: nat, c: nat)
    requires b3 < 256 && b2 < 256 && b1 < 256 && b0 < 256 && n == Number(b3, b2, b1, b0) && c < 256
    ensures (n * 8) % TWO_32 + c / 32 == Number(Straddled(b3, b2), Straddled(b2, b1), Straddled(b1, b0), Straddled(b0, c))
  {
    hide Straddled;
    var r3, r2, r1, r0 := Straddled(b3, b2), Straddled(b2, b1), Straddled(b1, b0), Straddled(b0, c);
    Carry(b3, b2, b1, b0, b3 / 32, b2 / 32, b1 / 32, b0 / 32, r3, r2, r1, r0, c / 32);
    Remainder(b3 / 32, n, Number(r3, r2, r1, r0), c / 32);
  }

  lemma BigEndianOf(n: nat, b3: nat, b2: nat, b1: nat, b0: nat)
    requires b3 < 256 && b2 < 256 && b1 < 256 && b0 < 256 && n == Number(b3, b2, b1, b0)
    ensures n < TWO_32 && BigEndian(n) == [ByteOf(b3), ByteOf(b2), ByteOf(b1), ByteOf(b0)]
  {
    DigitsOf(n, b3, b2, b1, b0);
  }

  lemma Carried(m: nat)
    requires m < TWO_32
    ensures m / 0x100_0000 < 256 && m / 0x100_0000 / 32 == m / 0x2000_0000
  {
  }

  /** A word shifted by three bits that takes in the upper three bits of another one: the two parts have no bits in common. */
  lemma ShiftedWord(n: nat, m: nat)
    requires n < TWO_32 && m < TWO_32
    ensures (n * 8) % TWO_32 + m / 0x2000_0000 < TWO_32
    ensures WordBytes(Merged(WordOf(n), WordOf(m))) == BigEndian((n * 8) % TWO_32 + m / 0x2000_0000)
  {
    hide Straddle, Straddled, WordBytes, BigEndianWord, Number, BigEndian, Merged;
    var b3: nat, b2: nat, b1: nat, b0: nat := n / 0x100_0000, n / 0x1_0000 % 256, n / 0x100 % 256, n % 256;
    var c3: nat, c2: nat, c1: nat, c0: nat := m / 0x100_0000, m / 0x1_0000 % 256, m / 0x100 % 256, m % 256;
    NumberOf(n);
    NumberOf(m);
    Carried(n);
    Carried(m);
    Eightfold(n, b3, b2, b1, b0, c3);
    ShiftedDigits([b3, b2, b1, b0], [c3, c2, c1, c0], n, m, (n * 8) % TWO_32 + c3 / 32);
  }

  lemma ShiftedDigits(b: seq<nat>, c: seq<nat>, n: nat, m: nat, r: nat)
    requires |b| == |c| == 4 && forall i :: 0 <= i < 4 ==> b[i] < 256 && c[i] < 256
    requires n == Number(b[0], b[1], b[2], b[3]) && m == Number(c[0], c[1], c[2], c[3])
    requires r == Number(Straddled(b[0], b[1]), Straddled(b[1], b[2]), Straddled(b[2], b[3]), Straddled(b[3], c[0]))
    ensures n < TWO_32 && m < TWO_32 && r < TWO_32
    ensures WordBytes(Merged(WordOf(n), WordOf(m))) == BigEndian(r)
  {
    hide Straddle, Straddled, WordBytes, BigEndianWord, Number, BigEndian, ByteOf, Merged;
    BigEndianOf(n, b[0], b[1], b[2], b[3]);
    BigEndianOf(m, c[0], c[1], c[2], c[3]);
    BigEndianOf(r, Straddled(b[0], b[1]), Straddled(b[1], b[2]), Straddled(b[2], b[3]), Straddled(b[3], c[0]));
    StraddleDigits(b[0], b[1]);
    StraddleDigits(b[1], b[2]);
    StraddleDigits(b[2], b[3]);
    StraddleDigits(b[3], c[0]);
    ShiftedBytes(BigEndian(n), BigEndian(m));
  }
}
