/**
 The streaming form of the keyed hash SipHash-2-4. The bytes may arrive in any
 number of pieces; at most seven of them wait in a partial word.
 */
module SipHash {
  import opened Bytes
  import opened Common
  import opened HashOps

  // ----- the hash function of the SipHash paper, section 2

  datatype Lanes = Lanes(v0: bv64, v1: bv64, v2: bv64, v3: bv64)

  function RotateLeft(x: bv64, b: nat): bv64
    requires b < 64
  {
    match b
    case 13 => (x << 13) | (x >> 51)
    case 16 => (x << 16) | (x >> 48)
    case 17 => (x << 17) | (x >> 47)
    case 21 => (x << 21) | (x >> 43)
    case 32 => (x << 32) | (x >> 32)
    case _ => (x << b) | (x >> (64 - b))
  }

  function Plus(x: bv64, y: bv64): bv64 {
    x + y
  }

  function Xor(x: bv64, y: bv64): bv64 {
    x ^ y
  }

  function Or(x: bv64, y: bv64): bv64 {
    x | y
  }

  /** One SipRound, both halves of the network side by side as the paper draws them. */
  function SipRound(s: Lanes): Lanes {
    var a0, a2 := Plus(s.v0, s.v1), Plus(s.v2, s.v3);
    var a1, a3 := Xor(RotateLeft(s.v1, 13), a0), Xor(RotateLeft(s.v3, 16), a2);
    var b2, b0 := Plus(a2, a1), Plus(RotateLeft(a0, 32), a3);
    Lanes(b0, Xor(RotateLeft(a1, 17), b2), RotateLeft(b2, 32), Xor(RotateLeft(a3, 21), b0))
  }

  function Initial(key: Seed): Lanes {
    var k0, k1 := LittleEndian(key[..8]), LittleEndian(key[8..]);
    Lanes(Xor(0x736f6d6570736575, k0), Xor(0x646f72616e646f6d, k1), Xor(0x6c7967656e657261, k0), Xor(0x7465646279746573, k1))
  }

  /** Compression of one word: two rounds between the two additions of it. */
  function Absorb(s: Lanes, m: bv64): Lanes {
    var t := SipRound(SipRound(s.(v3 := Xor(s.v3, m))));
    t.(v0 := Xor(t.v0, m))
  }

  /** Compression of all whole words of a byte string. */
  function AbsorbWords(s: Lanes, m: seq<Byte>): Lanes
    decreases |m|
  {
    if |m| < 8 then s else AbsorbWords(Absorb(s, LittleEndian(m[..8])), m[8..])
  }

  function Zeros(n: nat): (z: seq<Byte>)
    ensures |z| == n
  {
    seq(n, i => 0 as Byte)
  }

  function LowByte(n: nat): Byte {
    (n % 256) as Byte
  }

  /** The message with zeros and its length modulo 256 added, up to a whole number of words. */
  function Padded(m: seq<Byte>): (p: seq<Byte>)
    ensures WholeWords(|p|) && m <= p
  {
    m + Zeros(7 - LeftOver(|m|)) + [LowByte(|m|)]
  }

  function Finish(s: Lanes): bv64 {
    var t := SipRound(SipRound(SipRound(SipRound(s.(v2 := Xor(s.v2, 0xff))))));
    Xor(Xor(Xor(t.v0, t.v1), t.v2), t.v3)
  }

  function SipHash24(key: Seed, m: seq<Byte>): bv64 {
    Finish(AbsorbWords(Initial(key), Padded(m)))
  }

  // ----- words

  /** b << (8 * n) */
  function Shifted(b: bv64, n: nat): bv64
    requires n < 8
  {
    match n
    case 0 => b
    case 1 => b << 8
    case 2 => b << 16
    case 3 => b << 24
    case 4 => b << 32
    case 5 => b << 40
    case 6 => b << 48
    case _ => b << 56
  }

  /** The little-endian value of up to eight bytes. */
  function LittleEndian(s: seq<Byte>): bv64
    requires |s| <= 8
  {
    if s == [] then 0 else Or(LittleEndian(s[..|s| - 1]), Shifted(s[|s| - 1] as bv64, |s| - 1))
  }

  lemma OrZero(x: bv64)
    ensures Or(x, 0) == x && Or(0, x) == x
  {
  }

  /** x << 56 */
  function ToTop(x: bv64): bv64 {
    x << 56
  }

  lemma ToTopOr(x: bv64, y: bv64)
    ensures ToTop(Or(x, y)) == Or(ToTop(x), ToTop(y))
  {
  }

  lemma ToTopShifted(b: Byte, n: nat)
    requires n < 8
    ensures ToTop(Shifted(b as bv64, n)) == if n == 0 then Shifted(b as bv64, 7) else 0
  {
  }

  /** Shifting a word into the top byte drops all but its low byte. */
  lemma {:induction false} TopByte(s: seq<Byte>)
    requires 0 < |s| <= 8
    ensures ToTop(LittleEndian(s)) == Shifted(s[0] as bv64, 7)
  {
    hide ToTop, Or, Shifted;
    var k := |s| - 1;
    ToTopOr(LittleEndian(s[..k]), Shifted(s[k] as bv64, k));
    ToTopShifted(s[k], k);
    if k == 0 {
      OrZero(Shifted(s[0] as bv64, 0));
    } else {
      TopByte(s[..k]);
    }
    OrZero(Shifted(s[0] as bv64, 7));
  }

  /** A 64-bit number as a word. */
  function WordOf(n: nat): bv64 {
    LittleEndian([LowByte(n), LowByte(n / 0x100), LowByte(n / 0x1_0000), LowByte(n / 0x100_0000), LowByte(n / 0x1_0000_0000),
                  LowByte(n / 0x100_0000_0000), LowByte(n / 0x1_0000_0000_0000), LowByte(n / 0x100_0000_0000_0000)])
  }

  lemma LengthOnTop(n: nat)
    ensures ToTop(WordOf(n)) == Shifted(LowByte(n) as bv64, 7)
  {
    hide ToTop, Shifted, LowByte;
    TopByte([LowByte(n), LowByte(n / 0x100), LowByte(n / 0x1_0000), LowByte(n / 0x100_0000), LowByte(n / 0x1_0000_0000),
             LowByte(n / 0x100_0000_0000), LowByte(n / 0x1_0000_0000_0000), LowByte(n / 0x100_0000_0000_0000)]);
  }

  /** One more byte goes to the next higher position. */
  lemma LittleEndianGrows(s: seq<Byte>, b: Byte)
    requires |s| < 8
    ensures LittleEndian(s + [b]) == Or(LittleEndian(s), Shifted(b as bv64, |s|))
  {
    hide Or, Shifted;
    assert (s + [b])[..|s|] == s;
  }

  /** The bytes from the j-th on, collected from the last one down. */
  function Collected(s: seq<Byte>, j: nat): bv64
    requires j <= |s| <= 8
    decreases |s| - j
  {
    if j == |s| then 0 else Or(Collected(s, j + 1), Shifted(s[j] as bv64, j))
  }

  /** It does not matter from which end the bytes of a word are collected. */
  lemma {:induction false} CollectedIsLittleEndian(s: seq<Byte>, j: nat)
    requires j <= |s| <= 8
    ensures Or(LittleEndian(s[..j]), Collected(s, j)) == LittleEndian(s)
    decreases |s| - j
  {
    hide Shifted, Or;
    if j == |s| {
      assert s[..j] == s;
      OrZero(LittleEndian(s));
    } else {
      CollectedIsLittleEndian(s, j + 1);
      assert s[..j + 1][..j] == s[..j];
      OrRegrouped(LittleEndian(s[..j]), Shifted(s[j] as bv64, j), Collected(s, j + 1));
    }
  }

  lemma OrRegrouped(a: bv64, b: bv64, c: bv64)
    ensures Or(a, Or(c, b)) == Or(Or(a, b), c)
  {
  }

  // ----- whole words of a message

  /** n & 7 */
  function LeftOver(n: nat): (r: nat)
    ensures r < 8 && r <= n
  {
    n % 8
  }

  predicate WholeWords(n: nat) {
    LeftOver(n) == 0
  }

  /** The bytes of the last, partial word. */
  function Tail(m: seq<Byte>): (t: seq<Byte>)
    ensures |t| == LeftOver(|m|)
  {
    m[|m| - LeftOver(|m|)..]
  }

  lemma {:induction false} AbsorbSplit(s: Lanes, a: seq<Byte>, b: seq<Byte>)
    requires WholeWords(|a|)
    ensures AbsorbWords(s, a + b) == AbsorbWords(AbsorbWords(s, a), b)
    decreases |a|
  {
    hide Absorb, LittleEndian;
    if a == [] {
      assert a + b == b;
    } else {
      assert (a + b)[..8] == a[..8] && (a + b)[8..] == a[8..] + b;
      AbsorbSplit(Absorb(s, LittleEndian(a[..8])), a[8..], b);
    }
  }

  /** One more word. */
  lemma AbsorbOne(s: Lanes, a: seq<Byte>, w: seq<Byte>)
    requires WholeWords(|a|) && |w| == 8
    ensures AbsorbWords(s, a + w) == Absorb(AbsorbWords(s, a), LittleEndian(w))
  {
    hide Absorb, LittleEndian;
    AbsorbSplit(s, a, w);
    assert w[..8] == w && w[8..] == [];
  }

  /** A partial word does not count yet. */
  lemma AbsorbTail(s: Lanes, a: seq<Byte>, t: seq<Byte>)
    requires WholeWords(|a|) && |t| < 8
    ensures AbsorbWords(s, a + t) == AbsorbWords(s, a)
  {
    AbsorbSplit(s, a, t);
  }

  lemma NothingFed(k: Seed)
    ensures AbsorbWords(Initial(k), []) == Initial(k) && LittleEndian(Tail([])) == 0
  {
  }

  // ----- steps of siphash24_compress

  lemma StillPartial(s: Lanes, a: seq<Byte>, b: seq<Byte>)
    requires LeftOver(|a|) + |b| < 8
    ensures AbsorbWords(s, a + b) == AbsorbWords(s, a) && Tail(a + b) == Tail(a) + b
  {
    hide AbsorbWords, Absorb, LittleEndian;
    var n := |a| - LeftOver(|a|);
    assert a == a[..n] + Tail(a) && a + b == a[..n] + (Tail(a) + b);
    AbsorbTail(s, a[..n], Tail(a));
    AbsorbTail(s, a[..n], Tail(a) + b);
  }

  lemma WordFilled(s: Lanes, a: seq<Byte>, b: seq<Byte>)
    requires LeftOver(|a|) + |b| == 8
    ensures WholeWords(|a| + |b|)
    ensures AbsorbWords(s, a + b) == Absorb(AbsorbWords(s, a), LittleEndian(Tail(a) + b))
  {
    hide AbsorbWords, Absorb, LittleEndian;
    var n := |a| - LeftOver(|a|);
    assert a == a[..n] + Tail(a) && a + b == a[..n] + (Tail(a) + b);
    AbsorbTail(s, a[..n], Tail(a));
    AbsorbOne(s, a[..n], Tail(a) + b);
  }

  lemma NothingPending(a: seq<Byte>, b: seq<Byte>)
    requires LeftOver(|a|) == 0
    ensures WholeWords(|a|)
    ensures a + b[..0] == a && LittleEndian(Tail(a)) == 0
  {
  }

  lemma RestIsTail(s: Lanes, a: seq<Byte>, b: seq<Byte>, n: nat)
    requires n <= |b| && WholeWords(|a| + n) && |b| - n < 8
    ensures AbsorbWords(s, a + b) == AbsorbWords(s, a + b[..n]) && Tail(a + b) == b[n..]
  {
    hide AbsorbWords, Absorb, LittleEndian;
    assert a + b == a + b[..n] + b[n..];
    AbsorbTail(s, a + b[..n], b[n..]);
  }

  lemma NextWord(n: nat, left: nat)
    requires WholeWords(n) && WholeWords(left) && left > 0
    ensures left >= 8 && WholeWords(n + 8) && WholeWords(left - 8)
  {
  }

  /** The counter may wrap around, and still tells how many bytes are left over. */
  lemma WrappedLeftOver(a: nat)
    ensures LeftOver(Wrapped(a)) == LeftOver(a)
  {
  }

  /** From the end of a word to the end of the last whole word. */
  lemma WordsAhead(a: nat, i: nat, b: nat)
    requires WholeWords(a + i) && i <= b
    ensures var r := LeftOver(a + b); r <= b - i && WholeWords(b - r - i) && WholeWords(a + (b - r))
  {
    assert LeftOver(a + b) == LeftOver(b - i);
  }

  lemma AllCollected(s: seq<Byte>)
    requires |s| <= 8
    ensures Collected(s, 0) == LittleEndian(s)
  {
    hide Shifted, Or;
    CollectedIsLittleEndian(s, 0);
    OrZero(Collected(s, 0));
  }

  /** The last word: the partial word, zeros, and the length modulo 256. */
  lemma LastWord(s: Lanes, m: seq<Byte>)
    ensures AbsorbWords(s, Padded(m))
         == Absorb(AbsorbWords(s, m), Or(LittleEndian(Tail(m)), Shifted(LowByte(|m|) as bv64, 7)))
  {
    hide Shifted, Or, Absorb, AbsorbWords, LittleEndian, Zeros, LowByte;
    var n := |m| - LeftOver(|m|);
    var k := 7 - LeftOver(|m|);
    var w := Tail(m) + Zeros(k);
    var b := LowByte(|m|);
    assert m == m[..n] + Tail(m) && Padded(m) == m[..n] + (w + [b]);
    AbsorbTail(s, m[..n], Tail(m));
    AbsorbOne(s, m[..n], w + [b]);
    LittleEndianGrows(w, b);
    ZerosVanish(Tail(m), k);
  }

  lemma WrappedLowBits(n: nat)
    ensures Wrapped(n) % 256 == n % 256
  {
  }

  lemma WrappedLowByte(n: nat)
    ensures LowByte(Wrapped(n)) == LowByte(n)
  {
    hide Wrapped;
    WrappedLowBits(n);
  }

  lemma {:induction false} ZerosVanish(s: seq<Byte>, n: nat)
    requires |s| + n <= 8
    ensures LittleEndian(s + Zeros(n)) == LittleEndian(s)
  {
    hide Or, Shifted;
    if n == 0 {
      assert s + Zeros(n) == s;
    } else {
      ZerosVanish(s, n - 1);
      LittleEndianGrows(s + Zeros(n - 1), 0);
      assert s + Zeros(n - 1) + [0] == s + Zeros(n);
      ShiftedZero(|s| + n - 1);
      OrZero(LittleEndian(s));
    }
  }

  lemma ShiftedZero(n: nat)
    requires n < 8
    ensures Shifted(0 as Byte as bv64, n) == 0
  {
  }

  // ----- the streaming state

  class Siphash {
    var v0: bv64
    var v1: bv64
    var v2: bv64
    var v3: bv64
    var padding: bv64
    var inlen: nat

    ghost var key: Seed
    /** All bytes compressed so far. */
    ghost var fed: seq<Byte>

    ghost function V(): Lanes
      reads this
    {
      Lanes(v0, v1, v2, v3)
    }

    /** The whole words of the input are in v0 to v3, its remaining bytes in padding. */
    ghost predicate Valid()
      reads this
    {
      && V() == AbsorbWords(Initial(key), fed)
      && padding == LittleEndian(Tail(fed))
      && inlen == Wrapped(|fed|)
    }

    /** siphash24_init */
    constructor (k: Seed)
      ensures Valid() && key == k && fed == []
    {
      hide Initial, LittleEndian, AbsorbWords, Tail, SipRound, Absorb;
      var s := Initial(k);
      v0, v1, v2, v3 := s.v0, s.v1, s.v2, s.v3;
      padding, inlen := 0, 0;
      key, fed := k, [];
      new;
      NothingFed(k);
    }

    /** sipround */
    method Round()
      modifies this`v0, this`v1, this`v2, this`v3
      ensures V() == SipRound(old(V()))
    {
      hide RotateLeft, Plus, Xor;
      v0 := Plus(v0, v1);
      v1 := RotateLeft(v1, 13);
      v1 := Xor(v1, v0);
      v0 := RotateLeft(v0, 32);
      v2 := Plus(v2, v3);
      v3 := RotateLeft(v3, 16);
      v3 := Xor(v3, v2);
      v0 := Plus(v0, v3);
      v3 := RotateLeft(v3, 21);
      v3 := Xor(v3, v0);
      v2 := Plus(v2, v1);
      v1 := RotateLeft(v1, 17);
      v1 := Xor(v1, v2);
      v2 := RotateLeft(v2, 32);
    }

    /** The two rounds with which siphash24_compress takes in a word. */
    method CompressWord(m: bv64)
      modifies this`v0, this`v1, this`v2, this`v3
      ensures V() == Absorb(old(V()), m)
    {
      hide SipRound, Xor;
      v3 := Xor(v3, m);
      Round();
      Round();
      v0 := Xor(v0, m);
    }

    /** The loop of siphash24_compress over the whole words from in0 to end. */
    method CompressWords(ghost before: seq<Byte>, input: seq<Byte>, in0: nat, end: nat)
      requires in0 <= end <= |input| && WholeWords(|before| + in0) && WholeWords(end - in0)
      requires V() == AbsorbWords(Initial(key), before + input[..in0])
      modifies this`v0, this`v1, this`v2, this`v3
      ensures V() == AbsorbWords(Initial(key), before + input[..end])
    {
      hide Absorb, AbsorbWords, LittleEndian, Initial, WholeWords;
      var in_ := in0;
      while in_ < end
        invariant in_ <= end && WholeWords(|before| + in_) && WholeWords(end - in_)
        invariant V() == AbsorbWords(Initial(key), before + input[..in_])
      {
        NextWord(|before| + in_, end - in_);
        CompressWord(LittleEndian(input[in_..in_ + 8]));
        AbsorbOne(Initial(key), before + input[..in_], input[in_..in_ + 8]);
        assert before + input[..in_] + input[in_..in_ + 8] == before + input[..in_ + 8];
        in_ := in_ + 8;
      }
    }

    /** The loop of siphash24_compress that fills out the partial word, or takes up all of the input. */
    method FillPadding(ghost before: seq<Byte>, input: seq<Byte>, left0: nat) returns (in_: nat)
      requires left0 == LeftOver(|before|) && padding == LittleEndian(Tail(before))
      modifies this`padding
      ensures in_ == if left0 + |input| < 8 then |input| else 8 - left0
      ensures padding == LittleEndian(Tail(before) + input[..in_])
    {
      hide LittleEndian, Or, Shifted, Tail, LeftOver;
      var left := left0;
      in_ := 0;
      assert Tail(before) + input[..0] == Tail(before);
      while in_ < |input| && left < 8
        invariant in_ <= |input| && left == left0 + in_ <= 8 && padding == LittleEndian(Tail(before) + input[..in_])
      {
        padding := Or(padding, Shifted(input[in_] as bv64, left));
        LittleEndianGrows(Tail(before) + input[..in_], input[in_]);
        assert Tail(before) + input[..in_] + [input[in_]] == Tail(before) + input[..in_ + 1];
        in_, left := in_ + 1, left + 1;
      }
    }

    /** The part of siphash24_compress that goes on with the partial word: it is compressed if it is filled. */
    method FillWord(ghost before: seq<Byte>, input: seq<Byte>, left: nat) returns (in_: nat)
      requires left == LeftOver(|before|) && padding == LittleEndian(Tail(before)) && V() == AbsorbWords(Initial(key), before)
      modifies this`v0, this`v1, this`v2, this`v3, this`padding
      ensures in_ == if left + |input| < 8 then |input| else 8 - left
      ensures V() == AbsorbWords(Initial(key), before + input[..in_])
      ensures left + in_ < 8 ==> padding == LittleEndian(Tail(before + input[..in_]))
      ensures left + in_ == 8 ==> padding == 0 && WholeWords(|before| + in_)
    {
      hide Absorb, AbsorbWords, LittleEndian, Initial, Tail, LeftOver, WholeWords, SipRound;
      in_ := FillPadding(before, input, left);
      if left + in_ < 8 {
        StillPartial(Initial(key), before, input[..in_]);
      } else {
        WordFilled(Initial(key), before, input[..in_]);
        CompressWord(padding);
        padding := 0;
      }
    }

    /** siphash24_compress */
    method Compress(input: seq<Byte>)
      requires Valid() && |input| < TWO_64
      modifies this
      ensures Valid() && key == old(key) && fed == old(fed) + input
    {
      hide Absorb, AbsorbWords, LittleEndian, Initial, Collected, Tail, Wrapped, LeftOver, WholeWords, SipRound;
      var in_: nat, end: nat := 0, |input|;
      var left := LeftOver(inlen);
      ghost var before := fed;
      WrappedSum(|fed|, |input|);
      WrappedLeftOver(|fed|);
      WrappedLeftOver(|fed| + |input|);
      inlen := Wrapped(inlen + |input|);
      fed := fed + input;
      if left > 0 {
        in_ := FillWord(before, input, left);
        left := left + in_;
        if in_ == end && left < 8 {
          assert input[..in_] == input;
          return;
        }
      } else {
        NothingPending(before, input);
      }
      WordsAhead(|before|, in_, |input|);
      end := end - LeftOver(inlen);
      CompressWords(before, input, in_, end);
      RestIsTail(Initial(key), before, input, end);
      CollectPadding(input[end..], LeftOver(inlen));
    }

    /** The switch at the end of siphash24_compress: each case falls through to the next lower one. */
    method CollectPadding(rest: seq<Byte>, left: nat)
      requires |rest| == left < 8 && padding == 0
      modifies this`padding
      ensures padding == LittleEndian(rest)
    {
      hide Or, Shifted, LittleEndian;
      assert padding == Collected(rest, left);
      if left >= 7 {
        padding := Or(padding, Shifted(rest[6] as bv64, 6));
      }
      assert left >= 6 ==> padding == Collected(rest, 6);
      if left >= 6 {
        padding := Or(padding, Shifted(rest[5] as bv64, 5));
      }
      assert left >= 5 ==> padding == Collected(rest, 5);
      if left >= 5 {
        padding := Or(padding, Shifted(rest[4] as bv64, 4));
      }
      assert left >= 4 ==> padding == Collected(rest, 4);
      if left >= 4 {
        padding := Or(padding, Shifted(rest[3] as bv64, 3));
      }
      assert left >= 3 ==> padding == Collected(rest, 3);
      if left >= 3 {
        padding := Or(padding, Shifted(rest[2] as bv64, 2));
      }
      assert left >= 2 ==> padding == Collected(rest, 2);
      if left >= 2 {
        padding := Or(padding, Shifted(rest[1] as bv64, 1));
      }
      assert left >= 1 ==> padding == Collected(rest, 1);
      if left >= 1 {
        padding := Or(padding, Shifted(rest[0] as bv64, 0));
      }
      AllCollected(rest);
    }

    /** siphash24_finalize */
    method Finalize() returns (h: bv64)
      requires Valid()
      modifies this
      ensures h == SipHash24(old(key), old(fed))
    {
      hide Absorb, AbsorbWords, LittleEndian, Initial, Or, Shifted, Xor, SipRound, Tail, Padded, LowByte, Wrapped, ToTop, WordOf;
      var b := Or(padding, ToTop(WordOf(inlen)));
      LengthOnTop(inlen);
      WrappedLowByte(|fed|);
      LastWord(Initial(key), fed);
      CompressWord(b);
      v2 := Xor(v2, 0xff);
      Round();
      Round();
      Round();
      Round();
      h := Xor(Xor(Xor(v0, v1), v2), v3);
    }
  }

  /** However the input is cut into pieces, the result is the hash of the whole. */
  method HashPieces(key: Seed, pieces: seq<seq<Byte>>) returns (h: bv64)
    requires forall i :: 0 <= i < |pieces| ==> |pieces[i]| < TWO_64
    ensures h == SipHash24(key, Flattened(pieces))
  {
    hide SipHash24, AbsorbWords, LittleEndian;
    var state := new Siphash(key);
    for i := 0 to |pieces|
      invariant state.Valid() && fresh(state) && state.key == key && state.fed == Flattened(pieces[..i])
    {
      assert pieces[..i + 1][..i] == pieces[..i];
      state.Compress(pieces[i]);
    }
    assert pieces[..|pieces|] == pieces;
    h := state.Finalize();
  }

  /** The state depends on the key and the concatenated input only. */
  lemma SameInputSameState(a: Siphash, b: Siphash)
    requires a.Valid() && b.Valid() && a.key == b.key && a.fed == b.fed
    ensures a.V() == b.V() && a.padding == b.padding && a.inlen == b.inlen
    ensures |a.fed| % 8 == 0 ==> a.padding == 0
  {
  }
}
