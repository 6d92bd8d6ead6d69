/**
 The streaming form of SHA-256. Bytes arrive in pieces of any size and
 alignment; up to 64 of them wait in a buffer.
 */
module Sha256 {
  import opened Bytes
  import opened Common
  import opened Word32

  const SHA256_DIGEST_SIZE: nat := 32

  // ----- FIPS 180-2, sections 4.1.2, 4.2.2 and 6.2.2

  /** The working variables, and also a hash value. */
  datatype Vars = Vars(a: Word, b: Word, c: Word, d: Word, e: Word, f: Word, g: Word, h: Word)

  function Plus(x: Word, y: Word): Word {
    x + y
  }

  function Cyclic(w: Word, s: nat): Word
    requires s <= 32
  {
    match s
    case 2 => (w >> 2) | (w << 30)
    case 6 => (w >> 6) | (w << 26)
    case 7 => (w >> 7) | (w << 25)
    case 11 => (w >> 11) | (w << 21)
    case 13 => (w >> 13) | (w << 19)
    case 17 => (w >> 17) | (w << 15)
    case 18 => (w >> 18) | (w << 14)
    case 19 => (w >> 19) | (w << 13)
    case 22 => (w >> 22) | (w << 10)
    case 25 => (w >> 25) | (w << 7)
    case _ => (w >> s) | (w << (32 - s))
  }

  function Ch(x: Word, y: Word, z: Word): Word {
    (x & y) ^ (!x & z)
  }

  function Maj(x: Word, y: Word, z: Word): Word {
    (x & y) ^ (x & z) ^ (y & z)
  }

  function S0(x: Word): Word {
    Cyclic(x, 2) ^ Cyclic(x, 13) ^ Cyclic(x, 22)
  }

  function S1(x: Word): Word {
    Cyclic(x, 6) ^ Cyclic(x, 11) ^ Cyclic(x, 25)
  }

  function R0(x: Word): Word {
    Cyclic(x, 7) ^ Cyclic(x, 18) ^ (x >> 3)
  }

  function R1(x: Word): Word {
    Cyclic(x, 17) ^ Cyclic(x, 19) ^ (x >> 10)
  }

  /** The constant of round t. */
  function K(t: nat): Word
    requires t < 64
  {
    match t
    case 0 => 0x428a2f98 case 1 => 0x71374491 case 2 => 0xb5c0fbcf case 3 => 0xe9b5dba5
    case 4 => 0x3956c25b case 5 => 0x59f111f1 case 6 => 0x923f82a4 case 7 => 0xab1c5ed5
    case 8 => 0xd807aa98 case 9 => 0x12835b01 case 10 => 0x243185be case 11 => 0x550c7dc3
    case 12 => 0x72be5d74 case 13 => 0x80deb1fe case 14 => 0x9bdc06a7 case 15 => 0xc19bf174
    case 16 => 0xe49b69c1 case 17 => 0xefbe4786 case 18 => 0x0fc19dc6 case 19 => 0x240ca1cc
    case 20 => 0x2de92c6f case 21 => 0x4a7484aa case 22 => 0x5cb0a9dc case 23 => 0x76f988da
    case 24 => 0x983e5152 case 25 => 0xa831c66d case 26 => 0xb00327c8 case 27 => 0xbf597fc7
    case 28 => 0xc6e00bf3 case 29 => 0xd5a79147 case 30 => 0x06ca6351 case 31 => 0x14292967
    case 32 => 0x27b70a85 case 33 => 0x2e1b2138 case 34 => 0x4d2c6dfc case 35 => 0x53380d13
    case 36 => 0x650a7354 case 37 => 0x766a0abb case 38 => 0x81c2c92e case 39 => 0x92722c85
    case 40 => 0xa2bfe8a1 case 41 => 0xa81a664b case 42 => 0xc24b8b70 case 43 => 0xc76c51a3
    case 44 => 0xd192e819 case 45 => 0xd6990624 case 46 => 0xf40e3585 case 47 => 0x106aa070
    case 48 => 0x19a4c116 case 49 => 0x1e376c08 case 50 => 0x2748774c case 51 => 0x34b0bcb5
    case 52 => 0x391c0cb3 case 53 => 0x4ed8aa4a case 54 => 0x5b9cca4f case 55 => 0x682e6ff3
    case 56 => 0x748f82ee case 57 => 0x78a5636f case 58 => 0x84c87814 case 59 => 0x8cc70208
    case 60 => 0x90befffa case 61 => 0xa4506ceb case 62 => 0xbef9a3f7 case _ => 0xc67178f2
  }

  function InitialHash(): Vars {
    Vars(0x6a09e667, 0xbb67ae85, 0x3c6ef372, 0xa54ff53a, 0x510e527f, 0x9b05688c, 0x1f83d9ab, 0x5be0cd19)
  }

  /** The t-th word of the message schedule of a block. */
  function Schedule(block: seq<Byte>, t: nat): Word
    requires |block| == 64
  {
    if t < 16 then BigEndianWord(block[4 * t..4 * t + 4])
    else Plus(Plus(Plus(R1(Schedule(block, t - 2)), Schedule(block, t - 7)), R0(Schedule(block, t - 15))), Schedule(block, t - 16))
  }

  function Round(v: Vars, k: Word, w: Word): Vars {
    var t1 := Plus(Plus(Plus(Plus(v.h, S1(v.e)), Ch(v.e, v.f, v.g)), k), w);
    var t2 := Plus(S0(v.a), Maj(v.a, v.b, v.c));
    Vars(Plus(t1, t2), v.a, v.b, v.c, Plus(v.d, t1), v.e, v.f, v.g)
  }

  /** The working variables after the first t rounds. */
  function Rounds(v: Vars, block: seq<Byte>, t: nat): Vars
    requires |block| == 64 && t <= 64
  {
    if t == 0 then v else Round(Rounds(v, block, t - 1), K(t - 1), Schedule(block, t - 1))
  }

  function Sum(v: Vars, w: Vars): Vars {
    Vars(Plus(v.a, w.a), Plus(v.b, w.b), Plus(v.c, w.c), Plus(v.d, w.d),
         Plus(v.e, w.e), Plus(v.f, w.f), Plus(v.g, w.g), Plus(v.h, w.h))
  }

  function HashBlock(v: Vars, block: seq<Byte>): Vars
    requires |block| == 64
  {
    Sum(Rounds(v, block, 64), v)
  }

  /** The hash value after all blocks of m. */
  function HashBlocks(v: Vars, m: seq<Byte>): Vars
    requires WholeBlocks(|m|)
    decreases |m|
  {
    if m == [] then v else
      OneBlock(|m|);
      HashBlocks(HashBlock(v, m[..64]), m[64..])
  }

  predicate WholeBlocks(n: nat) {
    n % 64 == 0
  }

  lemma OneBlock(n: nat)
    requires WholeBlocks(n) && n > 0
    ensures n >= 64 && WholeBlocks(n - 64)
  {
  }

  lemma NoBlocks()
    ensures WholeBlocks(0)
  {
  }

  // ----- padding, section 5.1.1, and the digest

  /** The first n bytes that are added to any message. */
  function FillBuf(n: nat): (r: seq<Byte>)
    requires n > 0
    ensures |r| == n
  {
    [0x80] + seq(n - 1, i => 0 as Byte)
  }

  /** The length in bits as 64 bits. The standard is for messages below 2^61 bytes, where nothing is cut off. */
  function LengthField(n: nat): (r: seq<Byte>)
    ensures |r| == 8
  {
    var bits := Wrapped(8 * n);
    BigEndian(bits / TWO_32) + BigEndian(bits % TWO_32)
  }

  /** The least number of fill bytes, at least one, that leaves just room for the length in the last block. */
  function FillLength(n: nat): (k: nat)
    ensures 0 < k <= 64 && WholeBlocks(n + k + 8)
  {
    var r := n % 64;
    if r < 56 then 56 - r else 120 - r
  }

  lemma Remainder64(q: nat, x: nat)
    requires x < 64
    ensures (64 * q + x) % 64 == x
  {
  }

  lemma FillLengthLeast(n: nat, j: nat)
    requires 0 < j < FillLength(n)
    ensures !WholeBlocks(n + j + 8)
  {
    var q, r := n / 64, n % 64;
    if r < 56 {
      Remainder64(q, r + j + 8);
    } else {
      Remainder64(q + 1, r + j + 8 - 64);
    }
  }

  function Padded(m: seq<Byte>): (p: seq<Byte>)
    ensures WholeBlocks(|p|)
  {
    m + FillBuf(FillLength(|m|)) + LengthField(|m|)
  }

  lemma NoBytes()
    ensures BytesOf([]) == []
  {
  }

  lemma BytesOfMore(h: seq<Word>, w: Word)
    ensures BytesOf(h + [w]) == BytesOf(h) + WordBytes(w)
  {
    hide WordBytes;
    assert (h + [w])[..|h|] == h;
  }

  function Words(v: Vars): seq<Word> {
    [v.a, v.b, v.c, v.d, v.e, v.f, v.g, v.h]
  }

  function BytesOf(h: seq<Word>): (r: seq<Byte>)
    ensures |r| == 4 * |h|
  {
    if h == [] then [] else BytesOf(h[..|h| - 1]) + WordBytes(h[|h| - 1])
  }

  function Sha256(m: seq<Byte>): (r: seq<Byte>)
    ensures |r| == SHA256_DIGEST_SIZE
  {
    var v := HashBlocks(InitialHash(), Padded(m));
    BytesOf(Words(v))
  }

  lemma PadLength(n: nat, bytes: nat, pad: nat)
    requires bytes <= 64 && bytes <= n && WholeBlocks(n - bytes)
    requires pad == if bytes >= 56 then 64 + 56 - bytes else 56 - bytes
    ensures pad == FillLength(n) && WholeBlocks(bytes + pad + 8)
  {
    var q := (n - bytes) / 64;
    Remainder64(if bytes < 64 then q else q + 1, bytes % 64);
  }

  /** How the padding continues the bytes that wait in the buffer. */
  lemma PaddedTail(m: seq<Byte>, bytes: nat, pad: nat)
    requires bytes <= 64 && bytes <= |m| && WholeBlocks(|m| - bytes)
    requires pad == if bytes >= 56 then 64 + 56 - bytes else 56 - bytes
    ensures pad == FillLength(|m|) && WholeBlocks(bytes + pad + 8)
    ensures Padded(m) == m[..|m| - bytes] + (m[|m| - bytes..] + FillBuf(pad) + LengthField(|m|))
  {
    hide FillBuf, LengthField, FillLength, WholeBlocks;
    PadLength(|m|, bytes, pad);
    assert m == m[..|m| - bytes] + m[|m| - bytes..];
  }

  lemma LengthInWords(n: nat, low: nat, high: nat)
    requires low == Wrapped(n) % TWO_32 && high == Wrapped(n) / TWO_32
    ensures (high * 8) % TWO_32 + low / 0x2000_0000 < TWO_32
    ensures LengthField(n) == BigEndian((high * 8) % TWO_32 + low / 0x2000_0000) + BigEndian((low * 8) % TWO_32)
  {
    hide BigEndian;
    EightfoldWraps(n);
    var w := Wrapped(n);
    EightfoldLow(low);
    EightfoldHigh(high, low / 0x2000_0000);
    SplitProduct((8 * high) % TWO_32 + low / 0x2000_0000, 8 * high / TWO_32, (8 * low) % TWO_32);
  }

  /** The two words that sha256_finish_ctx stores are the length in bits. */
  lemma LengthStored(n: nat, low: nat, high: nat)
    requires low == Wrapped(n) % TWO_32 && high == Wrapped(n) / TWO_32
    ensures LengthField(n) == WordBytes(Merged(WordOf(high), WordOf(low))) + WordBytes(Raised(WordOf(low)))
  {
    hide BigEndian, WordBytes, WordOf, LengthField, Merged, Raised;
    LengthInWords(n, low, high);
    ShiftedWord(high, low);
    ShiftedWord(low, 0);
    NothingMerged(WordOf(low));
  }

  lemma EightfoldWraps(n: nat)
    ensures Wrapped(8 * n) == Wrapped(8 * Wrapped(n))
  {
    var q := n / TWO_64;
    assert 8 * n == TWO_64 * (8 * q) + 8 * Wrapped(n);
    WrapMultiple(8 * q, 8 * Wrapped(n));
  }

  lemma WrapMultiple(q: nat, r: nat)
    ensures Wrapped(TWO_64 * q + r) == Wrapped(r)
  {
  }

  lemma EightfoldLow(low: nat)
    requires low < TWO_32
    ensures 8 * low == TWO_32 * (low / 0x2000_0000) + (8 * low) % TWO_32 && low / 0x2000_0000 < 8
  {
  }

  lemma EightfoldHigh(high: nat, carry: nat)
    requires high < TWO_32 && carry < 8
    ensures (8 * high) % TWO_32 + carry < TWO_32
    ensures 8 * high + carry == TWO_32 * (8 * high / TWO_32) + ((8 * high) % TWO_32 + carry)
  {
  }

  lemma SplitProduct(hi: nat, over: nat, lo: nat)
    requires hi < TWO_32 && lo < TWO_32
    ensures Wrapped(TWO_32 * (TWO_32 * over + hi) + lo) == TWO_32 * hi + lo
    ensures (TWO_32 * hi + lo) / TWO_32 == hi && (TWO_32 * hi + lo) % TWO_32 == lo
  {
    WrapMultiple(over, TWO_32 * hi + lo);
  }

  // ----- processing blocks

  /** The message schedule, step 1 (2 in later editions) of section 6.2.2. */
  method PrepareSchedule(block: seq<Byte>) returns (w: array<Word>)
    requires |block| == 64
    ensures fresh(w) && w.Length == 64 && forall t :: 0 <= t < 64 ==> w[t] == Schedule(block, t)
  {
    hide Plus, R0, R1, BigEndianWord;
    w := new Word[64];
    for t := 0 to 16
      invariant forall i :: 0 <= i < t ==> w[i] == Schedule(block, i)
    {
      w[t] := BigEndianWord(block[4 * t..4 * t + 4]);
    }
    for t := 16 to 64
      invariant forall i :: 0 <= i < t ==> w[i] == Schedule(block, i)
    {
      w[t] := Plus(Plus(Plus(R1(w[t - 2]), w[t - 7]), R0(w[t - 15])), w[t - 16]);
    }
  }

  /** One turn of the loop of sha256_process_block. */
  method ProcessOne(v: Vars, block: seq<Byte>) returns (r: Vars)
    requires |block| == 64
    ensures r == HashBlock(v, block)
  {
    hide Plus, Ch, Maj, S0, S1, K, Schedule;
    var w := PrepareSchedule(block);
    var a, b, c, d := v.a, v.b, v.c, v.d;
    var e, f, g, h := v.e, v.f, v.g, v.h;
    for t := 0 to 64
      invariant Vars(a, b, c, d, e, f, g, h) == Rounds(v, block, t)
    {
      var t1 := Plus(Plus(Plus(Plus(h, S1(e)), Ch(e, f, g)), K(t)), w[t]);
      var t2 := Plus(S0(a), Maj(a, b, c));
      h := g;
      g := f;
      f := e;
      e := Plus(d, t1);
      d := c;
      c := b;
      b := a;
      a := Plus(t1, t2);
    }
    r := Vars(Plus(a, v.a), Plus(b, v.b), Plus(c, v.c), Plus(d, v.d), Plus(e, v.e), Plus(f, v.f), Plus(g, v.g), Plus(h, v.h));
  }

  lemma {:induction false} HashBlocksSplit(v: Vars, a: seq<Byte>, b: seq<Byte>)
    requires WholeBlocks(|a|) && WholeBlocks(|b|)
    ensures WholeBlocks(|a + b|) && HashBlocks(v, a + b) == HashBlocks(HashBlocks(v, a), b)
    decreases |a|
  {
    hide HashBlock;
    if a == [] {
      assert a + b == b;
    } else {
      OneBlock(|a|);
      assert (a + b)[..64] == a[..64] && (a + b)[64..] == a[64..] + b;
      HashBlocksSplit(HashBlock(v, a[..64]), a[64..], b);
    }
  }

  lemma HashBlocksOne(v: Vars, a: seq<Byte>, b: seq<Byte>)
    requires WholeBlocks(|a|) && |b| == 64
    ensures WholeBlocks(|a + b|) && HashBlocks(v, a + b) == HashBlock(HashBlocks(v, a), b)
  {
    hide HashBlock;
    HashBlocksSplit(v, a, b);
    assert b[..64] == b && b[64..] == [];
  }

  // ----- the context

  function VarsOf(h: seq<Word>): Vars
    requires |h| == 8
  {
    Vars(h[0], h[1], h[2], h[3], h[4], h[5], h[6], h[7])
  }

  /** n & ~63 */
  function Blocks(n: nat): (r: nat)
    ensures r <= n < r + 64 && WholeBlocks(r)
  {
    n - n % 64
  }

  /** The whole blocks of m are in the hash value v, its remaining bytes are waiting. There may be 64 of them. */
  ghost predicate Kept(m: seq<Byte>, v: Vars, total: nat, waiting: seq<Byte>) {
    var n := |m| - |waiting|;
    && 0 <= n && |waiting| <= 64 && WholeBlocks(n)
    && v == HashBlocks(InitialHash(), m[..n])
    && waiting == m[n..]
    && total == Wrapped(n)
  }

  /** More data comes in, and k of the bytes then at hand are processed. */
  lemma KeptGrows(m: seq<Byte>, v: Vars, total: nat, waiting: seq<Byte>, data: seq<Byte>, k: nat)
    requires Kept(m, v, total, waiting) && WholeBlocks(k) && k <= |waiting + data| <= k + 64
    ensures Kept(m + data, HashBlocks(v, (waiting + data)[..k]), Wrapped(total + k), (waiting + data)[k..])
  {
    hide HashBlocks, WholeBlocks, Wrapped, InitialHash;
    var n, y := |m| - |waiting|, m + data;
    assert waiting + data == y[n..] && m[..n] == y[..n];
    assert y[..n] + y[n..][..k] == y[..n + k] && y[n..][k..] == y[n + k..];
    HashBlocksSplit(InitialHash(), m[..n], (waiting + data)[..k]);
    WrappedSum(n, k);
  }

  lemma NothingProcessed(m: seq<Byte>, v: Vars, total: nat, waiting: seq<Byte>, data: seq<Byte>)
    requires Kept(m, v, total, waiting) && |waiting + data| <= 64
    ensures Kept(m + data, v, total, waiting + data)
  {
    hide HashBlocks, WholeBlocks, Wrapped, InitialHash;
    var n := |m| - |waiting|;
    assert m[..n] == (m + data)[..n];
  }

  lemma RestRegrouped(a: seq<Byte>, b: seq<Byte>, n: nat)
    requires n <= |b|
    ensures a + b[..n] + b[n..] == a + b
  {
  }

  /** The buffer after three copies: the fill bytes, the second half of the length, and then its first half before that. */
  lemma ThreeCopies(b0: seq<Byte>, b1: seq<Byte>, b2: seq<Byte>, b3: seq<Byte>, n: nat, fill: seq<Byte>, hi: seq<Byte>, lo: seq<Byte>)
    requires |b0| == 128 && n + |fill| + 8 <= 128 && |hi| == |lo| == 4
    requires b1 == b0[..n] + fill + b0[n + |fill|..]
    requires b2 == b1[..n + |fill| + 4] + lo + b1[n + |fill| + 8..]
    requires b3 == b2[..n + |fill|] + hi + b2[n + |fill| + 4..]
    ensures |b3| == 128 && b3[..n + |fill| + 8] == b0[..n] + fill + (hi + lo)
  {
    var k := n + |fill|;
    assert b1[..k] == b0[..n] + fill;
    assert b2[..k] == b1[..k];
    assert b2[k + 4..k + 8] == lo;
    assert b3[..k + 8] == b2[..k] + hi + b2[k + 4..k + 8];
  }

  lemma OneOrTwoBlocks(n: nat)
    requires 64 < n <= 128
    ensures Blocks(n) == if n == 128 then 128 else 64
  {
  }

  lemma OneWholeBlock()
    ensures WholeBlocks(64)
  {
  }

  class Sha256Ctx {
    const H: array<Word>
    var total64: nat
    var buflen: nat
    const buffer: array<Byte>

    /** All bytes processed so far. */
    ghost var fed: seq<Byte>

    ghost predicate Rep()
      reads this
    {
      H.Length == 8 && buffer.Length == 128
    }

    /** The context has taken in m. */
    ghost predicate Holds(m: seq<Byte>)
      requires Rep()
      reads this, H, buffer
    {
      buflen <= 64 && Kept(m, VarsOf(H[..]), total64, buffer[..buflen])
    }

    ghost predicate Valid()
      reads this, H, buffer
    {
      Rep() && Holds(fed)
    }

    /** sha256_init_ctx */
    constructor ()
      ensures Valid() && fresh(H) && fresh(buffer) && fed == []
    {
      hide HashBlock;
      var h := new Word[8] [0x6a09e667, 0xbb67ae85, 0x3c6ef372, 0xa54ff53a, 0x510e527f, 0x9b05688c, 0x1f83d9ab, 0x5be0cd19];
      H := h;
      total64, buflen := 0, 0;
      buffer := new Byte[128];
      fed := [];
      new;
      assert VarsOf(H[..]) == InitialHash();
    }

    /** sha256_process_block */
    method ProcessBlock(data: seq<Byte>)
      requires Rep() && WholeBlocks(|data|)
      modifies this`total64, H
      ensures VarsOf(H[..]) == HashBlocks(old(VarsOf(H[..])), data)
      ensures total64 == Wrapped(old(total64) + |data|)
    {
      hide HashBlock, Wrapped, WholeBlocks;
      var v := Vars(H[0], H[1], H[2], H[3], H[4], H[5], H[6], H[7]);
      total64 := Wrapped(total64 + |data|);
      ghost var v0 := v;
      var done := 0;
      NoBlocks();
      while done < |data|
        invariant total64 == Wrapped(old(total64) + |data|)
        invariant done <= |data| && WholeBlocks(done) && WholeBlocks(|data| - done) && v == HashBlocks(v0, data[..done])
      {
        OneBlock(|data| - done);
        var r := ProcessOne(v, data[done..done + 64]);
        HashBlocksOne(v0, data[..done], data[done..done + 64]);
        assert data[..done] + data[done..done + 64] == data[..done + 64];
        v := r;
        done := done + 64;
      }
      assert data[..done] == data;
      H[0], H[1], H[2], H[3], H[4], H[5], H[6], H[7] := v.a, v.b, v.c, v.d, v.e, v.f, v.g, v.h;
    }

    /** The part of sha256_process_bytes that completes the buffered bytes to one or two blocks; add bytes of data are taken. */
    method FillBuffer(ghost m: seq<Byte>, data: seq<Byte>) returns (add: nat)
      requires Rep() && Holds(m) && buflen != 0
      modifies this`total64, this`buflen, H, buffer
      ensures add <= |data| && (add < |data| ==> buflen == 0)
      ensures Holds(m + data[..add]) && (buflen == 64 <==> old(buflen) + |data| == 64)
    {
      hide HashBlocks, WholeBlocks, Wrapped, Kept, InitialHash, Blocks, VarsOf;
      var left := buflen;
      add := if 128 - left > |data| then |data| else 128 - left;
      ghost var v, total, waiting, taken := VarsOf(H[..]), total64, buffer[..left], data[..add];
      ghost var y := waiting + taken;
      CopyTo(buffer, left, data[..add]);
      assert buffer[..left + add] == y;
      buflen := buflen + add;
      if buflen > 64 {
        var k := Blocks(buflen);
        OneOrTwoBlocks(buflen);
        KeptGrows(m, v, total, waiting, taken, k);
        assert buffer[..k] == y[..k];
        ProcessBlock(buffer[..k]);
        assert VarsOf(H[..]) == HashBlocks(v, y[..k]) && total64 == Wrapped(total + k);
        buflen := buflen - k;
        CopyTo(buffer, 0, buffer[k..k + buflen]);
        assert buffer[..buflen] == y[k..];
      } else {
        NothingProcessed(m, v, total, waiting, taken);
      }
    }

    /** The part of sha256_process_bytes for whole blocks of aligned data. */
    method ProcessAligned(ghost m: seq<Byte>, data: seq<Byte>) returns (n: nat)
      requires Rep() && Holds(m) && buflen == 0
      modifies this`total64, H
      ensures n == Blocks(|data|) && Holds(m + data[..n])
    {
      hide HashBlocks, WholeBlocks, Wrapped, Kept, InitialHash;
      n := Blocks(|data|);
      assert buffer[..0] + data[..n] == data[..n] && data[..n][..n] == data[..n] && data[..n][n..] == buffer[..0];
      KeptGrows(m, VarsOf(H[..]), total64, buffer[..0], data[..n], n);
      ProcessBlock(data[..n]);
    }

    /** One turn of the copying loop: a block is copied into the buffer and processed there. */
    method ProcessCopied(ghost m: seq<Byte>, block: seq<Byte>)
      requires Rep() && Holds(m) && buflen == 0 && |block| == 64
      modifies this`total64, H, buffer
      ensures Holds(m + block)
    {
      hide HashBlocks, WholeBlocks, Wrapped, Kept, InitialHash;
      assert buffer[..0] == [];
      CopyTo(buffer, 0, block);
      OneWholeBlock();
      assert [] + block == block && block[..64] == block && block[64..] == buffer[..0];
      assert buffer[..64] == block;
      KeptGrows(m, VarsOf(H[..]), total64, [], block, 64);
      ProcessBlock(buffer[..64]);
    }

    /** The loop of sha256_process_bytes for data that is not aligned: block by block through the buffer. */
    method ProcessUnaligned(ghost m: seq<Byte>, data: seq<Byte>) returns (n: nat)
      requires Rep() && Holds(m) && buflen == 0
      modifies this`total64, H, buffer
      ensures n <= |data| <= n + 64 && Holds(m + data[..n])
    {
      hide HashBlocks, WholeBlocks, Wrapped, Kept, InitialHash;
      n := 0;
      assert m + data[..0] == m;
      while |data| - n > 64
        invariant n <= |data| && buflen == 0 && Holds(m + data[..n])
      {
        ProcessCopied(m + data[..n], data[n..n + 64]);
        assert m + data[..n] + data[n..n + 64] == m + data[..n + 64];
        n := n + 64;
      }
    }

    /** The part of sha256_process_bytes that buffers what remains. */
    method KeepRest(ghost m: seq<Byte>, data: seq<Byte>)
      requires Rep() && Holds(m) && 0 < |data| <= 64 && buflen == 0
      modifies this`total64, this`buflen, H, buffer
      ensures Holds(m + data) && buflen < 64
    {
      hide HashBlocks, WholeBlocks, Wrapped, Kept, InitialHash;
      var left := buflen;
      ghost var waiting := buffer[..left];
      CopyTo(buffer, left, data);
      left := left + |data|;
      assert buffer[..left] == waiting + data;
      if left >= 64 {
        OneWholeBlock();
        KeptGrows(m, VarsOf(H[..]), total64, waiting, data, 64);
        assert buffer[..64] == (waiting + data)[..64];
        ProcessBlock(buffer[..64]);
        left := left - 64;
        CopyTo(buffer, 0, buffer[64..64 + left]);
        assert buffer[..left] == (waiting + data)[64..];
      } else {
        NothingProcessed(m, VarsOf(H[..]), total64, waiting, data);
      }
      buflen := left;
    }

    /** sha256_process_bytes; addr is the address data starts at. */
    method ProcessBytes(addr: nat, data: seq<Byte>)
      requires Valid()
      modifies this`total64, this`buflen, this`fed, H, buffer
      ensures Valid() && fed == old(fed) + data
      ensures buflen == 64 <==> old(buflen) != 0 && old(buflen) + |data| == 64
    {
      hide Kept, VarsOf;
      ghost var m := fed;
      var rest, at := data, addr;
      if buflen != 0 {
        var add := FillBuffer(m, rest);
        RestRegrouped(m, rest, add);
        m, rest, at := m + rest[..add], rest[add..], at + add;
      }
      if |rest| >= 64 {
        if at % 4 == 0 {
          var n := ProcessAligned(m, rest);
          RestRegrouped(m, rest, n);
          m, rest := m + rest[..n], rest[n..];
        } else {
          var n := ProcessUnaligned(m, rest);
          RestRegrouped(m, rest, n);
          m, rest := m + rest[..n], rest[n..];
        }
      }
      if |rest| > 0 {
        KeepRest(m, rest);
        m := m + rest;
      } else {
        assert m + rest == m;
      }
      fed := fed + data;
    }

    /** sha256_finish_ctx */
    method FinishCtx(resbuf: array<Byte>)
      requires Valid() && resbuf.Length == SHA256_DIGEST_SIZE && resbuf != buffer
      modifies this`total64, H, buffer, resbuf
      ensures resbuf[..] == Sha256(old(fed))
    {
      hide HashBlocks, WholeBlocks, Wrapped, InitialHash, Padded, BytesOf;
      AppendPadding();
      assert H[..] == Words(VarsOf(H[..]));
      WriteDigest(resbuf);
    }

    /** The part of sha256_finish_ctx that puts the result into resbuf. */
    method WriteDigest(resbuf: array<Byte>)
      requires Rep() && resbuf.Length == SHA256_DIGEST_SIZE
      modifies resbuf
      ensures resbuf[..] == BytesOf(H[..])
    {
      hide WordBytes, BytesOf;
      assert resbuf[..0] == BytesOf(H[..0]) by {
        NoBytes();
      }
      for i := 0 to 8
        invariant resbuf[..4 * i] == BytesOf(H[..i])
      {
        ghost var before := resbuf[..4 * i];
        var b := WordBytes(H[i]);
        resbuf[4 * i], resbuf[4 * i + 1], resbuf[4 * i + 2], resbuf[4 * i + 3] := b[0], b[1], b[2], b[3];
        assert H[..i + 1] == H[..i] + [H[i]];
        BytesOfMore(H[..i], H[i]);
        assert resbuf[..4 * i + 4] == before + b;
      }
      assert H[..8] == H[..] && resbuf[..32] == resbuf[..];
    }

    /** The fill bytes, the second half of the length, and then its first half go into the buffer. */
    method StorePadding(bytes: nat, fill: seq<Byte>, hi: seq<Byte>, lo: seq<Byte>)
      requires buffer.Length == 128 && bytes + |fill| + 8 <= 128 && |hi| == |lo| == 4
      modifies buffer
      ensures buffer[..][..bytes + |fill| + 8] == old(buffer[..bytes]) + fill + (hi + lo)
    {
      ghost var b0 := buffer[..];
      CopyTo(buffer, bytes, fill);
      ghost var b1 := buffer[..];
      CopyTo(buffer, bytes + |fill| + 4, lo);
      ghost var b2 := buffer[..];
      CopyTo(buffer, bytes + |fill|, hi);
      ThreeCopies(b0, b1, b2, buffer[..], bytes, fill, hi, lo);
    }

    /** The part of sha256_finish_ctx that pads and processes the last one or two blocks. */
    method AppendPadding()
      requires Valid()
      modifies this`total64, H, buffer
      ensures VarsOf(H[..]) == HashBlocks(InitialHash(), Padded(fed))
    {
      hide HashBlocks, WholeBlocks, Wrapped, InitialHash, VarsOf, WordBytes, WordOf, Merged, Raised, LengthField, FillBuf, FillLength, Padded;
      var bytes := buflen;
      ghost var n := |fed| - bytes;
      WrappedSum(n, bytes);
      total64 := Wrapped(total64 + bytes);
      var pad: nat := if bytes >= 56 then 64 + 56 - bytes else 56 - bytes;
      var low, high := WordOf(total64 % TWO_32), WordOf(total64 / TWO_32);
      StorePadding(bytes, FillBuf(pad), WordBytes(Merged(high, low)), WordBytes(Raised(low)));
      LengthStored(|fed|, total64 % TWO_32, total64 / TWO_32);
      PaddedTail(fed, bytes, pad);
      HashBlocksSplit(InitialHash(), fed[..n], fed[n..] + FillBuf(pad) + LengthField(|fed|));
      ProcessBlock(buffer[..][..bytes + pad + 8]);
    }
  }

  /** sha256_direct */
  method Sha256Direct(addr: nat, data: seq<Byte>, result: array<Byte>)
    requires result.Length == SHA256_DIGEST_SIZE
    modifies result
    ensures result[..] == Sha256(data)
  {
    hide Sha256, HashBlocks;
    var ctx := new Sha256Ctx();
    ctx.ProcessBytes(addr, data);
    assert [] + data == data;
    ctx.FinishCtx(result);
  }

  /** However a message is cut into pieces, and wherever they start, the digest is that of the whole. */
  method DigestPieces(addrs: seq<nat>, pieces: seq<seq<Byte>>, result: array<Byte>)
    requires |addrs| == |pieces| && result.Length == SHA256_DIGEST_SIZE
    modifies result
    ensures result[..] == Sha256(Flattened(pieces))
  {
    hide Sha256, HashBlocks;
    var ctx := new Sha256Ctx();
    for i := 0 to |pieces|
      invariant ctx.Valid() && fresh(ctx) && fresh(ctx.H) && fresh(ctx.buffer) && ctx.fed == Flattened(pieces[..i])
    {
      assert pieces[..i + 1][..i] == pieces[..i];
      ctx.ProcessBytes(addrs[i], pieces[i]);
    }
    assert pieces[..|pieces|] == pieces;
    ctx.FinishCtx(result);
  }
}
