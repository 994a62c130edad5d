/** Streaming SHA-256: whatever way the input is cut into updates, the digest is
    the one-shot digest of the whole, padded as section 5.1.1 of FIPS 180-4
    requires.  The compression of one 64-byte block is a parameter: the results
    hold for any block function. */
module Digest {
  import opened Bytes

  type Words = seq<bv32>

  /** The compression function of one block. */
  type Compression = (Words, seq<byte>) -> Words

  const BLOCK := 64

  function InitialHash(): Words {
    [0x6a09e667, 0xbb67ae85, 0x3c6ef372, 0xa54ff53a, 0x510e527f, 0x9b05688c, 0x1f83d9ab, 0x5be0cd19]
  }

  /** "FFV2-D1-REQ-v1" in ASCII. */
  function DigestDomain(): (s: seq<byte>)
    ensures |s| == 14
  {
    [70, 70, 86, 50, 45, 68, 49, 45, 82, 69, 81, 45, 118, 49]
  }

  // ----- the definition of the digest

  /** Compress every whole block of `s`, first to last. */
  function Absorb(f: Compression, h: Words, s: seq<byte>): Words
    decreases |s|
  {
    if |s| < BLOCK then h else Absorb(f, f(h, s[..BLOCK]), s[BLOCK..])
  }

  /** The number of zero bytes that bring a message and its marker to 56 modulo 64. */
  function ZeroPad(n: nat): (k: nat)
    ensures k < BLOCK && (n + 1 + k) % BLOCK == 56
  {
    (55 + BLOCK - n % BLOCK) % BLOCK
  }

  lemma PadsToBlock(n: nat)
    requires n % BLOCK == 56
    ensures (n + 8) % BLOCK == 0
  {}

  function Zeros(n: nat): (s: seq<byte>)
    ensures |s| == n
  {
    seq(n, _ => 0)
  }

  /** FIPS 180-4, 5.1.1: the message, a one bit, the least number of zero bits, the 64-bit length. */
  function Padded(msg: seq<byte>): (s: seq<byte>)
    requires |msg| * 8 < 0x1_0000_0000_0000_0000
    ensures |s| % BLOCK == 0
  {
    PadsToBlock(|msg| + 1 + ZeroPad(|msg|));
    msg + [0x80] + Zeros(ZeroPad(|msg|)) + EncU64(|msg| * 8)
  }

  /** The padding, byte by byte: the message, 0x80, zeros, and the length in bits in the last
      eight bytes of the first block boundary that has room for them. */
  lemma PaddedIs(msg: seq<byte>)
    requires |msg| * 8 < 0x1_0000_0000_0000_0000
    ensures var s, n := Padded(msg), |msg|;
            && n + 9 <= |s| < n + 9 + BLOCK && |s| % BLOCK == 0
            && s[..n] == msg && s[n] == 0x80
            && (forall i :: n < i < |s| - 8 ==> s[i] == 0)
            && s[|s| - 8..] == EncU64(n * 8)
  {
    hide EncU64, ZeroPad;
    var s, n := Padded(msg), |msg|;
    assert s == msg + ([0x80] + Zeros(ZeroPad(n)) + EncU64(n * 8));
  }

  /** No two messages are padded to the same blocks. */
  lemma PaddingInjective(a: seq<byte>, b: seq<byte>)
    requires |a| * 8 < 0x1_0000_0000_0000_0000 && |b| * 8 < 0x1_0000_0000_0000_0000 && Padded(a) == Padded(b)
    ensures a == b
  {
    hide Padded, EncU64, DecU64;
    PaddedIs(a);
    PaddedIs(b);
    U64RoundTrip(|a| * 8, EncU64(0));
    U64RoundTrip(|b| * 8, EncU64(0));
  }

  function WordBytes(w: bv32): (s: seq<byte>)
    ensures |s| == 4
  {
    [(w >> 24) as int, ((w >> 16) & 0xff) as int, ((w >> 8) & 0xff) as int, (w & 0xff) as int]
  }

  function OutputBytes(h: Words): seq<byte> {
    if h == [] then [] else WordBytes(h[0]) + OutputBytes(h[1..])
  }

  /** Reading a word back, as the block function does: most significant byte first. */
  function LoadWord(s: seq<byte>): bv32
    requires |s| == 4
  {
    ((s[0] as bv32) << 24) | ((s[1] as bv32) << 16) | ((s[2] as bv32) << 8) | (s[3] as bv32)
  }

  lemma Parts(w: bv32)
    ensures ((w >> 24) << 24) | (((w >> 16) & 0xff) << 16) | (((w >> 8) & 0xff) << 8) | (w & 0xff) == w
  {}

  lemma ThereAndBack(x: bv32)
    ensures (x as int) as bv32 == x
  {}

  lemma WordRoundTrip(w: bv32)
    ensures LoadWord(WordBytes(w)) == w
  {
    var a, b, c, d := w >> 24, (w >> 16) & 0xff, (w >> 8) & 0xff, w & 0xff;
    ThereAndBack(a); ThereAndBack(b); ThereAndBack(c); ThereAndBack(d);
    Parts(w);
  }

  /** The digest is the state, word by word, most significant byte first: from it every
      word can be read back. */
  lemma {:induction false} OutputAt(h: Words, i: nat)
    requires i < |h|
    ensures |OutputBytes(h)| == 4 * |h| && LoadWord(OutputBytes(h)[4 * i..4 * i + 4]) == h[i]
  {
    hide LoadWord, WordBytes;
    OutputSize(h);
    if i == 0 {
      WordRoundTrip(h[0]);
      assert OutputBytes(h)[..4] == WordBytes(h[0]);
    } else {
      OutputAt(h[1..], i - 1);
      assert OutputBytes(h)[4 * i..4 * i + 4] == OutputBytes(h[1..])[4 * (i - 1)..4 * (i - 1) + 4];
    }
  }

  lemma {:induction false} OutputSize(h: Words)
    ensures |OutputBytes(h)| == 4 * |h|
  {
    if h != [] {
      OutputSize(h[1..]);
    }
  }

  /** The initial state of section 5.3.3 of FIPS 180-4: the first 32 bits of the fractional
      parts of the square roots of the first eight primes. */
  lemma InitialHashIsRoots(i: nat)
    requires i < 8
    ensures |InitialHash()| == 8
    ensures var prime, whole := [2, 3, 5, 7, 11, 13, 17, 19][i], [1, 1, 2, 2, 3, 3, 4, 4][i];
            var root := whole * 0x1_0000_0000 + InitialHash()[i] as int;
            root * root <= prime * 0x1_0000_0000_0000_0000 < (root + 1) * (root + 1)
  {
  }

  function Sha256Of(f: Compression, msg: seq<byte>): seq<byte>
    requires |msg| * 8 < 0x1_0000_0000_0000_0000
  {
    OutputBytes(Absorb(f, InitialHash(), Padded(msg)))
  }

  // ----- absorbing in pieces

  lemma {:induction false} AbsorbWhole(f: Compression, h: Words, s: seq<byte>, t: seq<byte>)
    requires |s| % BLOCK == 0
    ensures Absorb(f, h, s + t) == Absorb(f, Absorb(f, h, s), t)
    decreases |s|
  {
    if s == [] {
      assert s + t == t;
    } else {
      assert |s| >= BLOCK;
      assert (s + t)[..BLOCK] == s[..BLOCK] && (s + t)[BLOCK..] == s[BLOCK..] + t;
      AbsorbWhole(f, f(h, s[..BLOCK]), s[BLOCK..], t);
    }
  }

  lemma AbsorbOne(f: Compression, h: Words, s: seq<byte>)
    requires |s| == BLOCK
    ensures Absorb(f, h, s) == f(h, s)
  {
    assert s[..BLOCK] == s && s[BLOCK..] == [];
  }

  // ----- the whole blocks of a message, and what is left over

  function Whole(s: seq<byte>): (r: seq<byte>)
    ensures |r| % BLOCK == 0
  {
    s[..|s| - |s| % BLOCK]
  }

  function Rest(s: seq<byte>): (r: seq<byte>)
    ensures |r| < BLOCK && |r| == |s| % BLOCK
  {
    s[|s| - |s| % BLOCK..]
  }

  lemma StillPartial(s: seq<byte>, d: seq<byte>)
    requires |Rest(s)| + |d| < BLOCK
    ensures Whole(s + d) == Whole(s) && Rest(s + d) == Rest(s) + d
  {
    assert (|s| + |d|) % BLOCK == |s| % BLOCK + |d|;
  }

  lemma BlockComplete(s: seq<byte>, d: seq<byte>)
    requires |Rest(s)| + |d| == BLOCK
    ensures Whole(s + d) == Whole(s) + (Rest(s) + d) && Rest(s + d) == []
  {
    assert (|s| + |d|) % BLOCK == 0;
  }

  lemma NothingFed(f: Compression, h: Words)
    ensures Whole([]) == [] && Rest([]) == [] && Absorb(f, h, []) == h
  {}

  function BitLength(n: nat): u64 {
    (n * 8) % 0x1_0000_0000_0000_0000
  }

  lemma BitLengthAdd(m: nat, n: nat)
    ensures (BitLength(m) + BitLength(n)) % 0x1_0000_0000_0000_0000 == BitLength(m + n)
  {}

  // ----- the streaming context

  class Context {
    const f: Compression
    var h: Words
    var bits: u64
    var block: array<byte>
    var used: nat

    /** Hash state and partial block are those of the bytes `fed`. */
    ghost predicate Absorbed(fed: seq<byte>)
      reads this`h, this`used, this`block, block
    {
      && block.Length == BLOCK && used == |Rest(fed)|
      && block[..used] == Rest(fed) && h == Absorb(f, InitialHash(), Whole(fed))
    }

    /** The context has been fed exactly `fed`. */
    ghost predicate Fed(fed: seq<byte>)
      reads this, block
    {
      Absorbed(fed) && bits == BitLength(|fed|)
    }

    constructor (f: Compression)
      ensures fresh(block) && this.f == f && Fed([])
    {
      hide InitialHash, Absorb, Whole, Rest;
      this.f := f;
      h, bits, used := InitialHash(), 0, 0;
      block := new byte[BLOCK](_ => 0);
      new;
      NothingFed(f, h);
    }

    /** Take the next piece of the current block; compress the block when it is full. */
    method Take(data: seq<byte>, ghost fed: seq<byte>) returns (take: nat)
      requires data != [] && Absorbed(fed)
      modifies this`h, this`used, block
      ensures 0 < take <= |data| && Absorbed(fed + data[..take])
    {
      hide Absorb, InitialHash, Whole, Rest;
      take := BLOCK - used;
      if take > |data| {
        take := |data|;
      }
      ghost var piece := data[..take];
      forall i | 0 <= i < take {
        block[used + i] := data[i];
      }
      assert block[..used + take] == Rest(fed) + piece;
      used := used + take;
      if used == BLOCK {
        assert block[..] == block[..used];
        BlockComplete(fed, piece);
        AbsorbWhole(f, InitialHash(), Whole(fed), block[..]);
        AbsorbOne(f, h, block[..]);
        h := f(h, block[..]);
        used := 0;
      } else {
        StillPartial(fed, piece);
      }
    }

    method Update(data: seq<byte>, ghost fed: seq<byte>)
      requires Fed(fed)
      modifies this`h, this`used, this`bits, block
      ensures Fed(fed + data)
    {
      hide Absorbed, BitLength;
      bits := (bits + BitLength(|data|)) % 0x1_0000_0000_0000_0000;
      BitLengthAdd(|fed|, |data|);
      var p := 0;
      assert fed + data[..0] == fed;
      while p < |data|
        invariant p <= |data| && Absorbed(fed + data[..p])
        invariant bits == BitLength(|fed + data|)
      {
        ghost var now := fed + data[..p];
        var take := Take(data[p..], now);
        assert now + data[p..][..take] == fed + data[..p + take];
        p := p + take;
      }
      assert data[..p] == data;
    }

    lemma StateIs(fed: seq<byte>)
      requires Fed(fed)
      ensures h == Absorb(f, InitialHash(), Whole(fed))
    {
    }

    lemma UsedIs(fed: seq<byte>)
      requires Fed(fed)
      ensures used == |fed| % BLOCK && bits == BitLength(|fed|)
    {
    }

    /** The digest of everything fed so far. */
    method Final(ghost fed: seq<byte>) returns (out: seq<byte>)
      requires Fed(fed) && |fed| * 8 < 0x1_0000_0000_0000_0000
      modifies this`h, this`used, this`bits, block
      ensures out == Sha256Of(f, fed)
    {
      hide Absorb, EncU64, OutputBytes, InitialHash, Whole, Rest, ZeroPad, Fed;
      UsedIs(fed);
      var total := bits;
      Update([0x80], fed);
      ghost var k := 0;
      ghost var soFar := fed + [0x80];
      assert soFar == soFar + Zeros(0);
      UsedIs(soFar);
      while used != 56
        invariant Fed(soFar + Zeros(k)) && k <= ZeroPad(|fed|) && used == (|fed| + 1 + k) % BLOCK
        decreases ZeroPad(|fed|) - k
      {
        PadNotDone(|fed|, k, used);
        Update([0x00], soFar + Zeros(k));
        assert soFar + Zeros(k) + [0] == soFar + Zeros(k + 1);
        k := k + 1;
        UsedIs(soFar + Zeros(k));
      }
      PadDone(|fed|, k);
      Update(EncU64(total), soFar + Zeros(k));
      assert soFar + Zeros(k) + EncU64(total) == Padded(fed);
      AllWhole(Padded(fed));
      StateIs(Padded(fed));
      out := OutputBytes(h);
    }
  }

  lemma AllWhole(s: seq<byte>)
    requires |s| % BLOCK == 0
    ensures Whole(s) == s
  {}

  lemma PadNotDone(n: nat, k: nat, used: nat)
    requires k <= ZeroPad(n) && used == (n + 1 + k) % BLOCK && used != 56
    ensures k < ZeroPad(n)
  {}

  lemma PadDone(n: nat, k: nat)
    requires k <= ZeroPad(n) && (n + 1 + k) % BLOCK == 56
    ensures k == ZeroPad(n)
  {
    var d := ZeroPad(n) - k;
    assert (n + 1 + k + d) % BLOCK == 56 && 0 <= d < BLOCK;
  }

  /** One-shot digest. */
  method Sha256(f: Compression, data: seq<byte>) returns (out: seq<byte>)
    requires |data| * 8 < 0x1_0000_0000_0000_0000
    ensures out == Sha256Of(f, data)
  {
    hide Sha256Of;
    var ctx := new Context(f);
    assert [] + data == data;
    ctx.Update(data, []);
    out := ctx.Final(data);
  }

  function Joined(pieces: seq<seq<byte>>): seq<byte> {
    if pieces == [] then [] else Joined(pieces[..|pieces| - 1]) + pieces[|pieces| - 1]
  }

  /** Any way of cutting the input into updates gives the digest of the whole. */
  method Sha256InPieces(f: Compression, pieces: seq<seq<byte>>) returns (out: seq<byte>)
    requires |Joined(pieces)| * 8 < 0x1_0000_0000_0000_0000
    ensures out == Sha256Of(f, Joined(pieces))
  {
    hide Sha256Of;
    var ctx := new Context(f);
    for i := 0 to |pieces|
      invariant ctx.f == f && fresh(ctx) && fresh(ctx.block) && ctx.Fed(Joined(pieces[..i]))
    {
      assert pieces[..i + 1][..i] == pieces[..i];
      ctx.Update(pieces[i], Joined(pieces[..i]));
    }
    assert pieces[..|pieces|] == pieces;
    out := ctx.Final(Joined(pieces));
  }

  /** The request digest is the digest of the domain followed by the data. */
  method RequestDigest(f: Compression, data: seq<byte>) returns (out: seq<byte>)
    requires (|DigestDomain()| + |data|) * 8 < 0x1_0000_0000_0000_0000
    ensures out == Sha256Of(f, DigestDomain() + data)
  {
    hide Sha256Of;
    var ctx := new Context(f);
    assert [] + DigestDomain() == DigestDomain();
    ctx.Update(DigestDomain(), []);
    ctx.Update(data, DigestDomain());
    out := ctx.Final(DigestDomain() + data);
  }
}
