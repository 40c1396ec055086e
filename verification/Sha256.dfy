/** Numbers and octets. */
module Octets {

  /** A number below 256 is read back from the octet it is cast to. */
  lemma CastBack(v: nat)
    requires v < 256
    ensures (v as bv8) as nat == v
  {}
}

/** The hand-written SHA-256 of aifw-api/src/ca.rs, against FIPS 180-4. */
module Fips180 {
  import opened Basics
  import Octets

  type word = bv32

  /** The eight working variables, and equally the eight hash words. */
  datatype Vars = Vars(a: word, b: word, c: word, d: word, e: word, f: word, g: word, h: word)

  /** Section 3.2: addition modulo 2^32. */
  function Add(x: word, y: word): word { x + y }

  function Sum4(a: word, b: word, c: word, d: word): word { a + b + c + d }

  // Section 4.1.2: the six logical functions, with rotation spelled out as in section 3.2.

  function Ch(x: word, y: word, z: word): word { (x & y) ^ (!x & z) }

  function Maj(x: word, y: word, z: word): word { (x & y) ^ (x & z) ^ (y & z) }

  function BigSigma0(x: word): word {
    ((x >> 2) | (x << 30)) ^ ((x >> 13) | (x << 19)) ^ ((x >> 22) | (x << 10))
  }

  function BigSigma1(x: word): word {
    ((x >> 6) | (x << 26)) ^ ((x >> 11) | (x << 21)) ^ ((x >> 25) | (x << 7))
  }

  function SmallSigma0(x: word): word {
    ((x >> 7) | (x << 25)) ^ ((x >> 18) | (x << 14)) ^ (x >> 3)
  }

  function SmallSigma1(x: word): word {
    ((x >> 17) | (x << 15)) ^ ((x >> 19) | (x << 13)) ^ (x >> 10)
  }

  // Section 4.2.2: the sixty-four constants, in eight rows of eight, and the primes they come from.

  function KRow(r: nat): (row: seq<nat>)
    requires r < 8
    ensures |row| == 8
  {
    if r == 0 then [0x428a2f98, 0x71374491, 0xb5c0fbcf, 0xe9b5dba5, 0x3956c25b, 0x59f111f1, 0x923f82a4, 0xab1c5ed5]
    else if r == 1 then [0xd807aa98, 0x12835b01, 0x243185be, 0x550c7dc3, 0x72be5d74, 0x80deb1fe, 0x9bdc06a7, 0xc19bf174]
    else if r == 2 then [0xe49b69c1, 0xefbe4786, 0x0fc19dc6, 0x240ca1cc, 0x2de92c6f, 0x4a7484aa, 0x5cb0a9dc, 0x76f988da]
    else if r == 3 then [0x983e5152, 0xa831c66d, 0xb00327c8, 0xbf597fc7, 0xc6e00bf3, 0xd5a79147, 0x06ca6351, 0x14292967]
    else if r == 4 then [0x27b70a85, 0x2e1b2138, 0x4d2c6dfc, 0x53380d13, 0x650a7354, 0x766a0abb, 0x81c2c92e, 0x92722c85]
    else if r == 5 then [0xa2bfe8a1, 0xa81a664b, 0xc24b8b70, 0xc76c51a3, 0xd192e819, 0xd6990624, 0xf40e3585, 0x106aa070]
    else if r == 6 then [0x19a4c116, 0x1e376c08, 0x2748774c, 0x34b0bcb5, 0x391c0cb3, 0x4ed8aa4a, 0x5b9cca4f, 0x682e6ff3]
    else [0x748f82ee, 0x78a5636f, 0x84c87814, 0x8cc70208, 0x90befffa, 0xa4506ceb, 0xbef9a3f7, 0xc67178f2]
  }

  function PrimeRow(r: nat): (row: seq<nat>)
    requires r < 8
    ensures |row| == 8
  {
    if r == 0 then [2, 3, 5, 7, 11, 13, 17, 19]
    else if r == 1 then [23, 29, 31, 37, 41, 43, 47, 53]
    else if r == 2 then [59, 61, 67, 71, 73, 79, 83, 89]
    else if r == 3 then [97, 101, 103, 107, 109, 113, 127, 131]
    else if r == 4 then [137, 139, 149, 151, 157, 163, 167, 173]
    else if r == 5 then [179, 181, 191, 193, 197, 199, 211, 223]
    else if r == 6 then [227, 229, 233, 239, 241, 251, 257, 263]
    else [269, 271, 277, 281, 283, 293, 307, 311]
  }

  function K(t: nat): nat
    requires t < 64
  {
    KRow(t / 8)[t % 8]
  }

  function Prime(t: nat): nat
    requires t < 64
  {
    PrimeRow(t / 8)[t % 8]
  }

  /** The integer part of the cube root of the t-th prime. */
  function RootFloor(t: nat): nat {
    if t < 4 then 1 else if t < 9 then 2 else if t < 18 then 3 else if t < 30 then 4 else if t < 47 then 5 else 6
  }

  const TWO32: nat := 0x1_0000_0000

  function Cube(x: nat): nat { x * x * x }

  function Square(x: nat): nat { x * x }

  /** n is the integer part and k the first 32 bits of the fraction of the cube root of p. */
  predicate IsCubeRoot(n: nat, k: nat, p: nat) {
    k < TWO32 && Cube(n * TWO32 + k) <= p * Cube(TWO32) < Cube(n * TWO32 + k + 1)
  }

  predicate IsSquareRoot(n: nat, k: nat, p: nat) {
    k < TWO32 && Square(n * TWO32 + k) <= p * Square(TWO32) < Square(n * TWO32 + k + 1)
  }

  lemma RootsInRows0(r: nat, j: nat)
    requires 0 <= r < 2 && j < 8
    ensures IsCubeRoot(RootFloor(8 * r + j), KRow(r)[j], PrimeRow(r)[j])
  {}

  lemma RootsInRows1(r: nat, j: nat)
    requires 2 <= r < 4 && j < 8
    ensures IsCubeRoot(RootFloor(8 * r + j), KRow(r)[j], PrimeRow(r)[j])
  {}

  lemma RootsInRows2(r: nat, j: nat)
    requires 4 <= r < 6 && j < 8
    ensures IsCubeRoot(RootFloor(8 * r + j), KRow(r)[j], PrimeRow(r)[j])
  {}

  lemma RootsInRows3(r: nat, j: nat)
    requires 6 <= r < 8 && j < 8
    ensures IsCubeRoot(RootFloor(8 * r + j), KRow(r)[j], PrimeRow(r)[j])
  {}

  /** Section 4.2.2: every round constant is the fraction of the cube root of its prime. */
  lemma RoundConstantsAreCubeRoots(t: nat)
    requires t < 64
    ensures IsCubeRoot(RootFloor(t), K(t), Prime(t))
  {
    var r, j := t / 8, t % 8;
    hide IsCubeRoot, KRow, PrimeRow, RootFloor;
    assert t == 8 * r + j;
    if r < 2 {
      RootsInRows0(r, j);
    } else if r < 4 {
      RootsInRows1(r, j);
    } else if r < 6 {
      RootsInRows2(r, j);
    } else {
      RootsInRows3(r, j);
    }
  }

  /** Section 5.3.3: the initial hash value. */
  function H0Row(): (row: seq<nat>)
    ensures |row| == 8
  {
    [0x6a09e667, 0xbb67ae85, 0x3c6ef372, 0xa54ff53a, 0x510e527f, 0x9b05688c, 0x1f83d9ab, 0x5be0cd19]
  }

  /** Section 5.3.3: every initial word is the fraction of the square root of its prime. */
  lemma InitialHashIsSquareRoots(i: nat)
    requires i < 8
    ensures IsSquareRoot(if i < 2 then 1 else if i < 4 then 2 else if i < 6 then 3 else 4, H0Row()[i], Prime(i))
  {
    if i == 0 {} else if i == 1 {} else if i == 2 {} else if i == 3 {} else if i == 4 {} else if i == 5 {} else if i == 6 {} else {}
  }

  /** The word that four octets of the number make up. */
  function AsWord(n: nat): word {
    WordAt(BigEndian(n, 4), 0)
  }

  function InitialHash(): Vars {
    var h := H0Row();
    Vars(AsWord(h[0]), AsWord(h[1]), AsWord(h[2]), AsWord(h[3]), AsWord(h[4]), AsWord(h[5]), AsWord(h[6]), AsWord(h[7]))
  }

  // ---------------------------------------------------------------- section 5: padding and parsing

  function Zeros(n: nat): (z: seq<byte>)
    ensures |z| == n
  {
    seq(n, _ => 0)
  }

  /** `n` octets of `v`, most significant first. */
  function BigEndian(v: nat, n: nat): (r: seq<byte>)
    ensures |r| == n
  {
    if n == 0 then [] else BigEndian(v / 256, n - 1) + [(v % 256) as bv8]
  }

  /** Section 5.1.1: the number of zero octets, the least that leaves room for the length field. */
  function ZeroCount(len: nat): nat {
    (119 - len % 64) % 64
  }

  /** Section 5.1.1: the message, a one bit, zeros, and the 64-bit length in bits. */
  function Pad(msg: seq<byte>): seq<byte> {
    msg + [0x80] + Zeros(ZeroCount(|msg|)) + BigEndian(8 * |msg|, 8)
  }

  /** The big-endian word at octet `4 * i` of a block. */
  function WordAt(block: seq<byte>, i: nat): word
    requires 4 * i + 4 <= |block|
  {
    ((block[4 * i] as word) << 24) | ((block[4 * i + 1] as word) << 16) | ((block[4 * i + 2] as word) << 8) | (block[4 * i + 3] as word)
  }

  // ---------------------------------------------------------------- section 6.2.2: the hash computation

  /** Step 1, the message schedule. */
  function W(block: seq<byte>, t: nat): word
    requires |block| == 64 && t < 64
  {
    if t < 16 then WordAt(block, t)
    else Sum4(SmallSigma1(W(block, t - 2)), W(block, t - 7), SmallSigma0(W(block, t - 15)), W(block, t - 16))
  }

  /** Step 3, one round. */
  function Round(v: Vars, k: word, w: word): Vars {
    var t1 := Add(Add(Add(Add(v.h, BigSigma1(v.e)), Ch(v.e, v.f, v.g)), k), w);
    var t2 := Add(BigSigma0(v.a), Maj(v.a, v.b, v.c));
    Vars(Add(t1, t2), v.a, v.b, v.c, Add(v.d, t1), v.e, v.f, v.g)
  }

  function Rounds(v: Vars, block: seq<byte>, n: nat): Vars
    requires |block| == 64 && n <= 64
  {
    if n == 0 then v
    else Round(Rounds(v, block, n - 1), AsWord(K(n - 1)), W(block, n - 1))
  }

  /** Step 4, the intermediate hash value. */
  function AddVars(v: Vars, w: Vars): Vars {
    Vars(Add(v.a, w.a), Add(v.b, w.b), Add(v.c, w.c), Add(v.d, w.d), Add(v.e, w.e), Add(v.f, w.f), Add(v.g, w.g), Add(v.h, w.h))
  }

  function Compress(v: Vars, block: seq<byte>): Vars
    requires |block| == 64
  {
    AddVars(v, Rounds(v, block, 64))
  }

  /** The hash value after the first `n` blocks. */
  function HashAfter(data: seq<byte>, n: nat): Vars
    requires 64 * n <= |data|
  {
    if n == 0 then InitialHash()
    else Compress(HashAfter(data, n - 1), data[64 * (n - 1)..64 * n])
  }

  function WordBytes(w: word): (r: seq<byte>)
    ensures |r| == 4
  {
    [((w >> 24) & 0xFF) as bv8, ((w >> 16) & 0xFF) as bv8, ((w >> 8) & 0xFF) as bv8, (w & 0xFF) as bv8]
  }

  function VarsBytes(v: Vars): (r: seq<byte>)
    ensures |r| == 32
  {
    WordBytes(v.a) + WordBytes(v.b) + WordBytes(v.c) + WordBytes(v.d) +
    WordBytes(v.e) + WordBytes(v.f) + WordBytes(v.g) + WordBytes(v.h)
  }

  /** SHA-256 of a message. */
  function Sha256(msg: seq<byte>): (digest: seq<byte>)
    ensures |digest| == 32
  {
    var data := Pad(msg);
    VarsBytes(HashAfter(data, |data| / 64))
  }

  // ---------------------------------------------------------------- octets and words

  /** The number that octets stand for, the most significant first. */
  function ValueOf(octets: seq<byte>): nat {
    if octets == [] then 0 else 256 * ValueOf(octets[..|octets| - 1]) + octets[|octets| - 1] as nat
  }

  function Power256(n: nat): nat {
    if n == 0 then 1 else 256 * Power256(n - 1)
  }

  /** The length field is read back, most significant octet first. */
  lemma {:induction false} BigEndianIsRead(v: nat, n: nat)
    requires v < Power256(n)
    ensures ValueOf(BigEndian(v, n)) == v
  {
    if n > 0 {
      BigEndianIsRead(v / 256, n - 1);
      Octets.CastBack(v % 256);
      var r := BigEndian(v, n);
      assert r[..n - 1] == BigEndian(v / 256, n - 1);
    }
  }

  lemma Power256Is()
    ensures Power256(4) == TWO32 && Power256(8) == 0x1_0000_0000_0000_0000
  {
    assert Power256(1) == 256 && Power256(2) == 65536 && Power256(3) == 16777216;
    assert Power256(4) == 4294967296;
    assert Power256(5) == 1099511627776;
    assert Power256(6) == 281474976710656;
    assert Power256(7) == 72057594037927936;
  }

  /** The last eight octets of a padded message are its length in bits. */
  lemma LengthIsRead(msg: seq<byte>)
    requires |msg| < 0x2000_0000_0000_0000
    ensures |Pad(msg)| >= 8 && ValueOf(Pad(msg)[|Pad(msg)| - 8..]) == 8 * |msg|
  {
    hide BigEndian, Zeros, ValueOf, Power256;
    Power256Is();
    BigEndianIsRead(8 * |msg|, 8);
    assert Pad(msg)[|Pad(msg)| - 8..] == BigEndian(8 * |msg|, 8);
  }

  /** A word is its octets, the most significant in the highest bits; and its octets make it up again. */
  lemma WordIsOctets(block: seq<byte>, i: nat)
    requires 4 * i + 4 <= |block|
    ensures WordBytes(WordAt(block, i)) == block[4 * i..4 * i + 4]
  {
    FourOctets(block[4 * i], block[4 * i + 1], block[4 * i + 2], block[4 * i + 3]);
  }

  lemma FourOctets(a: byte, b: byte, c: byte, d: byte)
    ensures var w := ((a as word) << 24) | ((b as word) << 16) | ((c as word) << 8) | (d as word);
      && ((w >> 24) & 0xFF) as bv8 == a && ((w >> 16) & 0xFF) as bv8 == b && ((w >> 8) & 0xFF) as bv8 == c && (w & 0xFF) as bv8 == d
      && w >> 24 == a as word
  {}

  lemma WordRebuilt(w: word)
    ensures ((((w >> 24) & 0xFF) as bv8) as word << 24) | ((((w >> 16) & 0xFF) as bv8) as word << 16)
          | ((((w >> 8) & 0xFF) as bv8) as word << 8) | (((w & 0xFF) as bv8) as word) == w
  {}

  function VarOf(v: Vars, i: nat): word
    requires i < 8
  {
    [v.a, v.b, v.c, v.d, v.e, v.f, v.g, v.h][i]
  }

  /** The eight words of a digest are read back in their order. */
  lemma DigestIsRead(v: Vars, i: nat)
    requires i < 8
    ensures WordAt(VarsBytes(v), i) == VarOf(v, i)
  {
    hide VarsBytes, VarOf, WordBytes;
    DigestSlice(v, i);
    var t := VarsBytes(v)[4 * i..4 * i + 4];
    assert t[0] == VarsBytes(v)[4 * i] && t[1] == VarsBytes(v)[4 * i + 1] && t[2] == VarsBytes(v)[4 * i + 2] && t[3] == VarsBytes(v)[4 * i + 3];
    OctetsAreWord(VarOf(v, i), t, 0);
    assert WordAt(VarsBytes(v), i) == WordAt(t, 0);
  }

  lemma OctetsAreWord(w: word, t: seq<byte>, i: nat)
    requires t == WordBytes(w) && i == 0
    ensures WordAt(t, i) == w
  {
    WordRebuilt(w);
  }

  lemma DigestSlice(v: Vars, i: nat)
    requires i < 8
    ensures VarsBytes(v)[4 * i..4 * i + 4] == WordBytes(VarOf(v, i))
  {
    hide WordBytes;
    var p := [WordBytes(v.a), WordBytes(v.b), WordBytes(v.c), WordBytes(v.d), WordBytes(v.e), WordBytes(v.f), WordBytes(v.g), WordBytes(v.h)];
    SliceOfEight(p, i);
    assert p[i] == WordBytes(VarOf(v, i));
  }

  lemma SliceOfEight(p: seq<seq<byte>>, i: nat)
    requires |p| == 8 && i < 8 && forall j :: 0 <= j < 8 ==> |p[j]| == 4
    ensures (p[0] + p[1] + p[2] + p[3] + p[4] + p[5] + p[6] + p[7])[4 * i..4 * i + 4] == p[i]
  {
    if i == 0 {} else if i == 1 {} else if i == 2 {} else if i == 3 {} else if i == 4 {} else if i == 5 {} else if i == 6 {} else {}
  }

  /** Each constant becomes the word with its value. */
  lemma AsWordIs(n: nat)
    requires n < TWO32
    ensures ValueOf(WordBytes(AsWord(n))) == n
  {
    hide BigEndian, WordBytes, WordAt, ValueOf, Power256;
    Power256Is();
    BigEndianIsRead(n, 4);
    WordIsOctets(BigEndian(n, 4), 0);
    assert BigEndian(n, 4)[0..4] == BigEndian(n, 4);
  }

  /** The initial hash value is the eight square roots, in the order of the primes. */
  lemma InitialWords(i: nat)
    requires i < 8
    ensures VarOf(InitialHash(), i) == AsWord(H0Row()[i])
  {
    hide AsWord;
  }

  /** Addition keeps the low 32 bits of the sum. */
  lemma AddIs(x: word, y: word)
    ensures Add(x, y) as bv33 == ((x as bv33) + (y as bv33)) & 0xFFFF_FFFF
  {}

  lemma Sum4Is(a: word, b: word, c: word, d: word)
    ensures Sum4(a, b, c, d) as bv34 == ((a as bv34) + (b as bv34) + (c as bv34) + (d as bv34)) & 0xFFFF_FFFF
  {}

  // ---------------------------------------------------------------- padding is what section 5.1.1 asks for

  /** Whole blocks, and no shorter ending would do: the least multiple of 64 that holds the message,
    * the marker octet and the eight length octets.
    */
  lemma PaddingMinimal(msg: seq<byte>)
    ensures |Pad(msg)| % 64 == 0
    ensures |msg| + 9 <= |Pad(msg)| < |msg| + 9 + 64
    ensures msg <= Pad(msg)
  {
    hide BigEndian, Zeros, ZeroCount;
    assert |Pad(msg)| == |msg| + 9 + ZeroCount(|msg|);
    ZerosFill(|msg|);
    assert Pad(msg)[..|msg|] == msg;
  }

  lemma ZerosFill(n: nat)
    ensures (n + 9 + ZeroCount(n)) % 64 == 0 && ZeroCount(n) < 64
  {
    var q, r := n / 64, n % 64;
    assert n == 64 * q + r;
    if r <= 55 {
      assert ZeroCount(n) == 55 - r;
      assert n + 9 + ZeroCount(n) == 64 * (q + 1);
    } else {
      assert ZeroCount(n) == 119 - r;
      assert n + 9 + ZeroCount(n) == 64 * (q + 2);
    }
  }

  /** Two messages with the same padding are the same message: were one shorter, the octet after the
    * longer one would be the marker in one padding and a zero in the other.
    */
  lemma PaddingInjective(a: seq<byte>, b: seq<byte>)
    requires Pad(a) == Pad(b)
    ensures a == b
  {
    hide Pad;
    PadParts(a);
    PadParts(b);
    assert |a| == |b|;
    assert a == Pad(a)[..|a|] && b == Pad(b)[..|b|];
  }

  lemma PadParts(m: seq<byte>)
    ensures |m| + 9 <= |Pad(m)| && Pad(m)[..|m|] == m && Pad(m)[|m|] == 0x80
    ensures forall i :: |m| < i < |Pad(m)| - 8 ==> Pad(m)[i] == 0
  {
    hide BigEndian;
    PaddingMinimal(m);
    var z := Zeros(ZeroCount(|m|));
    var p := m + [0x80] + z + BigEndian(8 * |m|, 8);
    assert p == Pad(m);
    assert forall i :: |m| < i < |p| - 8 ==> p[i] == z[i - |m| - 1];
  }
}

/** The incremental hasher (aifw-api/src/ca.rs:152-247). */
module Sha256Code {
  import opened Basics
  import opened Fips180

  lemma RotatesSmall0(x: word)
    ensures x.RotateRight(7) ^ x.RotateRight(18) ^ (x >> 3) == SmallSigma0(x)
  {}

  lemma RotatesSmall1(x: word)
    ensures x.RotateRight(17) ^ x.RotateRight(19) ^ (x >> 10) == SmallSigma1(x)
  {}

  lemma RotatesBig0(x: word)
    ensures x.RotateRight(2) ^ x.RotateRight(13) ^ x.RotateRight(22) == BigSigma0(x)
  {}

  lemma RotatesBig1(x: word)
    ensures x.RotateRight(6) ^ x.RotateRight(11) ^ x.RotateRight(25) == BigSigma1(x)
  {}

  /** The code adds the schedule terms in the opposite order. */
  lemma SumOrder(a: word, b: word, c: word, d: word)
    ensures Sum4(a, b, c, d) == Sum4(d, c, b, a)
  {}

  class Hasher {
    var state: Vars
    var buf: seq<byte>

    constructor ()
      ensures state == InitialHash() && buf == []
    {
      state := InitialHash();
      buf := [];
    }

    /** Splitting the input across calls does not matter: the hasher only remembers the whole. */
    method Update(data: seq<byte>)
      modifies this
      ensures buf == old(buf) + data && state == old(state)
    {
      buf := buf + data;
    }

    /** The digest is the FIPS 180-4 hash of everything fed in, for every input whose length in
      * bits fits the 64-bit counter.
      */
    method Finalize() returns (digest: seq<byte>)
      requires state == InitialHash()
      requires |buf| < 0x2000_0000_0000_0000
      ensures digest == Sha256(buf)
    {
      hide Compress, Pad, VarsBytes, InitialHash;
      var data := PadLoop(buf);
      var h := state;
      var n := |data| / 64;
      for i := 0 to n
        invariant h == HashAfter(data, i)
      {
        h := CompressLoop(h, data[64 * i..64 * i + 64]);
      }
      digest := VarsBytes(h);
    }
  }

  /** Feeding a message in pieces, however it is cut, gives the digest of the whole. */
  method DigestInPieces(pieces: seq<seq<byte>>) returns (digest: seq<byte>)
    requires |Flatten(pieces)| < 0x2000_0000_0000_0000
    ensures digest == Sha256(Flatten(pieces))
  {
    hide Sha256, InitialHash;
    var hasher := new Hasher();
    FlattenNothing<byte>();
    for i := 0 to |pieces|
      invariant hasher.buf == Flatten(pieces[..i]) && hasher.state == InitialHash()
    {
      FlattenSnoc(pieces[..i], pieces[i]);
      assert pieces[..i + 1] == pieces[..i] + [pieces[i]];
      hasher.Update(pieces[i]);
    }
    assert pieces[..|pieces|] == pieces;
    digest := hasher.Finalize();
  }

  lemma ZerosLeft(len: nat, pushed: nat)
    requires pushed <= ZeroCount(len)
    ensures (len + 1 + pushed) % 64 == 56 <==> pushed == ZeroCount(len)
  {}

  lemma ZerosSnoc(prefix: seq<byte>, n: nat)
    ensures prefix + Zeros(n) + [0] == prefix + Zeros(n + 1)
  {}

  /** Push the marker, then zeros until the length is 56 modulo 64, then the bit count. */
  method PadLoop(buf: seq<byte>) returns (data: seq<byte>)
    requires |buf| < 0x2000_0000_0000_0000
    ensures data == Pad(buf)
    ensures |data| % 64 == 0
  {
    hide ZeroCount, BigEndian, Zeros;
    var bitLen := |buf| * 8 % 0x1_0000_0000_0000_0000;
    data := buf + [0x80];
    ghost var pushed: nat := 0;
    assert data == buf + [0x80] + Zeros(0);
    while |data| % 64 != 56
      invariant data == buf + [0x80] + Zeros(pushed)
      invariant pushed <= ZeroCount(|buf|)
      decreases ZeroCount(|buf|) - pushed
    {
      ZerosLeft(|buf|, pushed);
      ZerosSnoc(buf + [0x80], pushed);
      data := data + [0];
      pushed := pushed + 1;
    }
    ZerosLeft(|buf|, pushed);
    data := data + BigEndian(bitLen, 8);
  }

  /** One chunk: fill the schedule array, run the rounds on the working variables, add. */
  method CompressLoop(h: Vars, chunk: seq<byte>) returns (r: Vars)
    requires |chunk| == 64
    ensures r == Compress(h, chunk)
  {
    hide Round, W, K, AsWord, Add;
    var w := ScheduleLoop(chunk);
    var v := h;
    for i := 0 to 64
      invariant v == Rounds(h, chunk, i)
    {
      v := RoundCode(v, AsWord(K(i)), w[i]);
    }
    r := Vars(Add(h.a, v.a), Add(h.b, v.b), Add(h.c, v.c), Add(h.d, v.d), Add(h.e, v.e), Add(h.f, v.f), Add(h.g, v.g), Add(h.h, v.h));
  }

  /** One schedule word, with the code's rotations and order of addition. */
  function Expand(w16: word, w15: word, w7: word, w2: word): word {
    var s0 := w15.RotateRight(7) ^ w15.RotateRight(18) ^ (w15 >> 3);
    var s1 := w2.RotateRight(17) ^ w2.RotateRight(19) ^ (w2 >> 10);
    Sum4(w16, s0, w7, s1)
  }

  lemma ExpandMeetsFips(w16: word, w15: word, w7: word, w2: word)
    ensures Expand(w16, w15, w7, w2) == Sum4(SmallSigma1(w2), w7, SmallSigma0(w15), w16)
  {
    hide SmallSigma0, SmallSigma1, Sum4;
    RotatesSmall0(w15);
    RotatesSmall1(w2);
    SumOrder(w16, SmallSigma0(w15), w7, SmallSigma1(w2));
  }

  method ScheduleLoop(chunk: seq<byte>) returns (words: seq<word>)
    requires |chunk| == 64
    ensures |words| == 64 && forall t :: 0 <= t < 64 ==> words[t] == W(chunk, t)
  {
    hide SmallSigma0, SmallSigma1, WordAt, Sum4, Expand;
    var w := new word[64](_ => 0);
    for i := 0 to 16
      invariant forall t :: 0 <= t < i ==> w[t] == W(chunk, t)
    {
      w[i] := WordAt(chunk, i);
    }
    for i := 16 to 64
      invariant forall t :: 0 <= t < i ==> w[t] == W(chunk, t)
    {
      ExpandMeetsFips(w[i - 16], w[i - 15], w[i - 7], w[i - 2]);
      w[i] := Expand(w[i - 16], w[i - 15], w[i - 7], w[i - 2]);
    }
    words := w[..];
  }

  method RoundCode(v: Vars, k: word, w: word) returns (r: Vars)
    ensures r == Round(v, k, w)
  {
    hide BigSigma0, BigSigma1, Ch, Maj, Add;
    var Vars(a, b, c, d, e, f, g, hh) := v;
    RotatesBig1(e);
    RotatesBig0(a);
    Choices(a, b, c, e, f, g);
    var s1 := e.RotateRight(6) ^ e.RotateRight(11) ^ e.RotateRight(25);
    var ch := (e & f) ^ (!e & g);
    var t1 := Add(Add(Add(Add(hh, s1), ch), k), w);
    var s0 := a.RotateRight(2) ^ a.RotateRight(13) ^ a.RotateRight(22);
    var maj := (a & b) ^ (a & c) ^ (b & c);
    var t2 := Add(s0, maj);
    hh := g;
    g := f;
    f := e;
    e := Add(d, t1);
    d := c;
    c := b;
    b := a;
    a := Add(t1, t2);
    r := Vars(a, b, c, d, e, f, g, hh);
  }

  lemma Choices(a: word, b: word, c: word, e: word, f: word, g: word)
    ensures (e & f) ^ (!e & g) == Ch(e, f, g)
    ensures (a & b) ^ (a & c) ^ (b & c) == Maj(a, b, c)
  {}
}
