/** The base64 decoder and the certificate fingerprint of aifw-api/src/ca.rs, against section 4 of
  * RFC 4648 and the PEM shape of section 2 of RFC 7468.
  */
module Base64 {
  import opened Basics

  /** Table 1 of RFC 4648, the letter for a six-bit value. */
  function Letter(v: byte): byte {
    if v < 26 then 65 + v          // A-Z
    else if v < 52 then 71 + v     // a-z
    else if v < 62 then v - 4      // 0-9
    else if v == 62 then 43 else 47
  }

  /** The position of a letter in the table. */
  function Position(c: byte): (p: Option<byte>)
    ensures p.Some? ==> p.value < 64 && Letter(p.value) == c
    ensures p.None? ==> forall v: byte | v < 64 :: Letter(v) != c
  {
    if 65 <= c <= 90 then Some(c - 65)
    else if 97 <= c <= 122 then Some(c - 71)
    else if 48 <= c <= 57 then Some(c + 4)
    else if c == 43 then Some(62)
    else if c == 47 then Some(63)
    else None
  }

  lemma PositionOfLetter(v: byte)
    requires v < 64
    ensures Position(Letter(v)) == Some(v)
  {}

  const PAD: byte := 61
  const CR: byte := 13
  const LF: byte := 10

  /** Padding and line breaks, which the decoder passes over wherever they stand. */
  predicate Ignored(c: byte) {
    c == PAD || c == LF || c == CR
  }

  function Significant(t: seq<byte>): (r: seq<byte>)
    ensures |r| <= |t|
  {
    if t == [] then [] else (if Ignored(t[0]) then [] else [t[0]]) + Significant(t[1..])
  }

  // ---------------------------------------------------------------- section 4: groups of four for three

  function ByteA(s0: byte, s1: byte): byte { (s0 << 2) | (s1 >> 4) }

  function ByteB(s1: byte, s2: byte): byte { (s1 << 4) | (s2 >> 2) }

  function ByteC(s2: byte, s3: byte): byte { (s2 << 6) | s3 }

  /** Four letters carry three octets; a short last group carries as many whole octets as it has. */
  function DecodeGroups(s: seq<byte>): (r: seq<byte>)
    ensures |r| <= |s|
  {
    if |s| <= 1 then []
    else if |s| == 2 then [ByteA(s[0], s[1])]
    else if |s| == 3 then [ByteA(s[0], s[1]), ByteB(s[1], s[2])]
    else [ByteA(s[0], s[1]), ByteB(s[1], s[2]), ByteC(s[2], s[3])] + DecodeGroups(s[4..])
  }

  function Sextet0(a: byte): byte { a >> 2 }

  function Sextet1(a: byte, b: byte): byte { ((a & 3) << 4) | (b >> 4) }

  function Sextet2(b: byte, c: byte): byte { ((b & 15) << 2) | (c >> 6) }

  function Sextet3(c: byte): byte { c & 63 }

  /** The six-bit values of the encoding of `d`; a short last group is filled up with zero bits. */
  function EncodeGroups(d: seq<byte>): seq<byte> {
    if d == [] then []
    else if |d| == 1 then [Sextet0(d[0]), Sextet1(d[0], 0)]
    else if |d| == 2 then [Sextet0(d[0]), Sextet1(d[0], d[1]), Sextet2(d[1], 0)]
    else [Sextet0(d[0]), Sextet1(d[0], d[1]), Sextet2(d[1], d[2]), Sextet3(d[2])] + EncodeGroups(d[3..])
  }

  function Letters(s: seq<byte>): seq<byte> {
    seq(|s|, i requires 0 <= i < |s| => Letter(s[i]))
  }

  /** Section 4 of RFC 4648: the letters, then padding to a multiple of four. */
  function Encode(d: seq<byte>): seq<byte> {
    Letters(EncodeGroups(d)) + (if |d| % 3 == 1 then [PAD, PAD] else if |d| % 3 == 2 then [PAD] else [])
  }

  function Positions(t: seq<byte>): Option<seq<byte>> {
    if t == [] then Some([])
    else
      match (Position(t[0]), Positions(t[1..]))
      case (Some(v), Some(vs)) => Some([v] + vs)
      case _ => None
  }

  /** What the decoder promises for a whole text. */
  function Decoded(t: seq<byte>): (r: Option<seq<byte>>)
    ensures r.Some? ==> |r.value| <= |t|
  {
    match Positions(Significant(t))
    case None => None
    case Some(s) => PositionsLength(Significant(t)); Some(DecodeGroups(s))
  }

  lemma PositionsLength(t: seq<byte>)
    ensures Positions(t).Some? ==> |Positions(t).value| == |t|
  {}

  // ---------------------------------------------------------------- decoding inverts encoding

  lemma GroupRoundTrip(a: byte, b: byte, c: byte)
    ensures ByteA(Sextet0(a), Sextet1(a, b)) == a
    ensures ByteB(Sextet1(a, b), Sextet2(b, c)) == b
    ensures ByteC(Sextet2(b, c), Sextet3(c)) == c
    ensures Sextet0(a) < 64 && Sextet1(a, b) < 64 && Sextet2(b, c) < 64 && Sextet3(c) < 64
  {}

  lemma {:induction false} GroupsRoundTrip(d: seq<byte>)
    ensures DecodeGroups(EncodeGroups(d)) == d
    ensures AllSextets(EncodeGroups(d))
  {
    hide ByteA, ByteB, ByteC, Sextet0, Sextet1, Sextet2, Sextet3;
    if |d| == 1 {
      GroupRoundTrip(d[0], 0, 0);
    } else if |d| == 2 {
      GroupRoundTrip(d[0], d[1], 0);
    } else if |d| > 2 {
      GroupRoundTrip(d[0], d[1], d[2]);
      GroupsRoundTrip(d[3..]);
      FullGroup(Sextet0(d[0]), Sextet1(d[0], d[1]), Sextet2(d[1], d[2]), Sextet3(d[2]), EncodeGroups(d[3..]));
      assert d == [d[0], d[1], d[2]] + d[3..];
    }
  }

  lemma FullGroup(s0: byte, s1: byte, s2: byte, s3: byte, rest: seq<byte>)
    ensures DecodeGroups([s0, s1, s2, s3] + rest) == [ByteA(s0, s1), ByteB(s1, s2), ByteC(s2, s3)] + DecodeGroups(rest)
  {
    hide ByteA, ByteB, ByteC;
    assert ([s0, s1, s2, s3] + rest)[4..] == rest;
  }

  predicate AllSextets(s: seq<byte>) {
    forall i :: 0 <= i < |s| ==> s[i] < 64
  }

  lemma {:induction false} PositionsOfLetters(s: seq<byte>)
    requires AllSextets(s)
    ensures Positions(Letters(s)) == Some(s)
    ensures Significant(Letters(s)) == Letters(s)
  {
    hide Letter, Position;
    if s != [] {
      var t := Letters(s);
      assert t[1..] == Letters(s[1..]);
      PositionsOfLetters(s[1..]);
      PositionOfLetter(s[0]);
      LetterNotIgnored(s[0]);
      assert t == [t[0]] + t[1..] && s == [s[0]] + s[1..];
    }
  }

  lemma LetterNotIgnored(v: byte)
    requires v < 64
    ensures !Ignored(Letter(v))
    ensures Letter(v) != 45
  {}

  lemma {:induction false} SignificantConcat(a: seq<byte>, b: seq<byte>)
    ensures Significant(a + b) == Significant(a) + Significant(b)
  {
    if a == [] {
      assert a + b == b;
    } else {
      assert (a + b)[1..] == a[1..] + b;
      SignificantConcat(a[1..], b);
    }
  }

  lemma EncodeSignificant(d: seq<byte>)
    ensures Significant(Encode(d)) == Letters(EncodeGroups(d))
    ensures Positions(Letters(EncodeGroups(d))) == Some(EncodeGroups(d))
  {
    hide EncodeGroups, Letters;
    GroupsRoundTrip(d);
    PositionsOfLetters(EncodeGroups(d));
    var tail := if |d| % 3 == 1 then [PAD, PAD] else if |d| % 3 == 2 then [PAD] else [];
    SignificantConcat(Letters(EncodeGroups(d)), tail);
    assert Significant(tail) == [];
  }

  /** Any text with the letters of the encoding of `d`, in order, decodes to `d`, wherever the line
    * breaks and padding stand.
    */
  lemma DecodeInvertsEncode(t: seq<byte>, d: seq<byte>)
    requires Significant(t) == Significant(Encode(d))
    ensures Decoded(t) == Some(d)
  {
    hide Encode, Significant;
    EncodeSignificant(d);
    GroupsRoundTrip(d);
  }

  /** A line feed, carriage return or equals sign changes nothing anywhere in a text. */
  lemma DecodeSkips(a: seq<byte>, c: byte, b: seq<byte>)
    requires c == 10 || c == 13 || c == 61
    ensures Decoded(a + [c] + b) == Decoded(a + b)
  {
    hide Positions, Significant;
    SignificantConcat(a + [c], b);
    SignificantConcat(a, [c]);
    SignificantConcat(a, b);
    SignificantOne(c);
    assert Significant(a) + [] == Significant(a);
  }

  /** Any other character outside the alphabet makes the text undecodable. */
  lemma DecodeRefuses(a: seq<byte>, c: byte, b: seq<byte>)
    requires c !in {10, 13, 61} && !(65 <= c <= 90 || 97 <= c <= 122 || 48 <= c <= 57 || c == 43 || c == 47)
    ensures Decoded(a + [c] + b) == None
  {
    hide Positions, Significant;
    SignificantConcat(a + [c], b);
    SignificantConcat(a, [c]);
    SignificantOne(c);
    PositionsRefuse(Significant(a), c);
    PositionsFail(Significant(a) + [c], Significant(b));
  }

  lemma {:induction false} PositionsRefuse(a: seq<byte>, c: byte)
    requires Position(c).None?
    ensures Positions(a + [c]).None?
  {
    hide Position;
    if a == [] {
      assert a + [c] == [c];
    } else {
      assert (a + [c])[1..] == a[1..] + [c];
      PositionsRefuse(a[1..], c);
    }
  }

  /** Four letters for every three octets or part of them. */
  lemma {:induction false} EncodeLength(d: seq<byte>)
    ensures |Encode(d)| == 4 * ((|d| + 2) / 3)
  {
    GroupsLength(d);
  }

  lemma {:induction false} GroupsLength(d: seq<byte>)
    ensures |EncodeGroups(d)| == 4 * (|d| / 3) + (if |d| % 3 == 0 then 0 else |d| % 3 + 1)
  {
    if |d| > 2 {
      GroupsLength(d[3..]);
    }
  }

  /** The example of section 10 of RFC 4648: "fo" is encoded as "Zm8=". */
  lemma EncodeExample()
    ensures Encode([102, 111]) == [90, 109, 56, 61]
  {}

  // ---------------------------------------------------------------- the loop

  /** What the bit buffer holds after the values `s`: the bits not yet put out. */
  predicate Residue(s: seq<byte>, buf: bv32, bits: bv4) {
    match |s| % 4
    case 0 => bits == 0 && buf == 0
    case 1 => bits == 6 && buf == s[|s| - 1] as bv32
    case 2 => bits == 4 && buf == (s[|s| - 1] & 15) as bv32
    case _ => bits == 2 && buf == (s[|s| - 1] & 3) as bv32
  }

  /** The octet completed by one more value, if any. */
  function Completed(s: seq<byte>, v: byte): seq<byte> {
    match |s| % 4
    case 0 => []
    case 1 => [ByteA(s[|s| - 1], v)]
    case 2 => [ByteB(s[|s| - 1], v)]
    case _ => [ByteC(s[|s| - 1], v)]
  }

  lemma {:induction false} DecodeSnoc(s: seq<byte>, v: byte)
    ensures DecodeGroups(s + [v]) == DecodeGroups(s) + Completed(s, v)
  {
    hide ByteA, ByteB, ByteC, Completed;
    if |s| >= 4 {
      assert (s + [v])[4..] == s[4..] + [v];
      DecodeSnoc(s[4..], v);
      CompletedLater(s, v);
    } else {
      DecodeSnocShort(s, v);
    }
  }

  lemma {:induction false} CompletedLater(s: seq<byte>, v: byte)
    requires |s| >= 4
    ensures Completed(s, v) == Completed(s[4..], v)
  {
    hide ByteA, ByteB, ByteC;
    assert (|s| - 4) % 4 == |s| % 4;
  }

  lemma {:induction false} DecodeSnocShort(s: seq<byte>, v: byte)
    requires |s| < 4
    ensures DecodeGroups(s + [v]) == DecodeGroups(s) + Completed(s, v)
  {
    hide ByteA, ByteB, ByteC;
    var t := s + [v];
    if |s| == 0 {
      assert DecodeGroups(t) == [];
    } else if |s| == 1 {
      assert DecodeGroups(t) == [ByteA(s[0], v)];
    } else if |s| == 2 {
      assert DecodeGroups(t) == [ByteA(s[0], s[1]), ByteB(s[1], v)];
    } else {
      assert t[4..] == [];
      assert DecodeGroups(t) == [ByteA(s[0], s[1]), ByteB(s[1], s[2]), ByteC(s[2], v)];
    }
  }

  function Shifted(buf: bv32, v: byte): bv32 { (buf << 6) | (v as bv32) }

  function TopByte(buf: bv32, bits: bv4): byte { ((buf >> bits) & 0xFF) as bv8 }

  function LowBits(buf: bv32, bits: bv4): bv32 { buf & (((1 as bv32) << bits) - 1) }

  lemma OneMoreBits(last: byte, v: byte)
    requires last < 64 && v < 64
    ensures Shifted(0, v) == v as bv32
    ensures TopByte(Shifted(last as bv32, v), 4) == ByteA(last, v)
    ensures LowBits(Shifted(last as bv32, v), 4) == (v & 15) as bv32
    ensures TopByte(Shifted((last & 15) as bv32, v), 2) == ByteB(last, v)
    ensures LowBits(Shifted((last & 15) as bv32, v), 2) == (v & 3) as bv32
    ensures TopByte(Shifted((last & 3) as bv32, v), 0) == ByteC(last, v)
    ensures LowBits(Shifted((last & 3) as bv32, v), 0) == 0
  {}

  /** `base64_decode`: skip padding and line breaks, fail on any other stranger, otherwise shift six
    * bits in and eight bits out. At each loop head `bits` is 0, 2, 4 or 6 and `buf` fits in it.
    */
  method Base64Decode(t: seq<byte>) returns (r: Option<seq<byte>>)
    ensures r == Decoded(t)
  {
    hide Letter, Position, DecodeGroups, Residue, Positions, Significant, AllSextets;
    var out: seq<byte> := [];
    var buf: bv32 := 0;
    var bits: bv4 := 0;
    ghost var s: seq<byte> := [];
    DecodeNothing();
    assert t[..0] == [];
    for i := 0 to |t|
      invariant Positions(Significant(t[..i])) == Some(s)
      invariant out == DecodeGroups(s) && AllSextets(s)
      invariant Residue(s, buf, bits)
    {
      var c := t[i];
      assert t[..i + 1] == t[..i] + [c];
      SignificantConcat(t[..i], [c]);
      SignificantOne(c);
      if Ignored(c) {
        assert Significant(t[..i]) + [] == Significant(t[..i]);
      } else {
        var p := Position(c);
        PositionsSnoc(Significant(t[..i]), c);
        if p.None? {
          assert t == t[..i + 1] + t[i + 1..];
          SignificantConcat(t[..i + 1], t[i + 1..]);
          PositionsFail(Significant(t[..i + 1]), Significant(t[i + 1..]));
          return None;
        }
        buf, bits, out := ShiftIn(s, buf, bits, out, p.value);
        s := s + [p.value];
      }
    }
    assert t[..|t|] == t;
    r := Some(out);
  }

  method ShiftIn(ghost s: seq<byte>, buf0: bv32, bits0: bv4, out0: seq<byte>, v: byte)
    returns (buf: bv32, bits: bv4, out: seq<byte>)
    requires v < 64 && AllSextets(s)
    requires Residue(s, buf0, bits0) && out0 == DecodeGroups(s)
    ensures Residue(s + [v], buf, bits) && out == DecodeGroups(s + [v]) && AllSextets(s + [v])
  {
    hide DecodeGroups, ByteA, ByteB, ByteC, Shifted, TopByte, LowBits;
    DecodeSnoc(s, v);
    OneMoreBits(if s == [] then 0 else s[|s| - 1], v);
    out := out0;
    buf := Shifted(buf0, v);
    bits := bits0 + 6;
    if bits >= 8 {
      bits := bits - 8;
      out := out + [TopByte(buf, bits)];
      buf := LowBits(buf, bits);
    }
  }

  lemma DecodeNothing()
    ensures DecodeGroups([]) == [] && Significant([]) == [] && Positions([]) == Some([])
    ensures Residue([], 0, 0) && AllSextets([])
  {}

  lemma SignificantOne(c: byte)
    ensures Significant([c]) == if Ignored(c) then [] else [c]
  {
    assert [c][1..] == [];
  }

  lemma {:induction false} PositionsSnoc(t: seq<byte>, c: byte)
    requires Positions(t).Some?
    ensures Positions(t + [c])
         == if Position(c).Some? then Some(Positions(t).value + [Position(c).value]) else None
  {
    hide Position;
    if t == [] {
      assert t + [c] == [c] && [c][1..] == [];
      assert Positions([c][1..]) == Some([]);
      assert forall v: byte :: [v] + [] == [] + [v];
    } else {
      assert (t + [c])[1..] == t[1..] + [c] && (t + [c])[0] == t[0];
      PositionsSnoc(t[1..], c);
      if Position(c).Some? {
        var v, vs, x := Position(t[0]).value, Positions(t[1..]).value, Position(c).value;
        assert [v] + (vs + [x]) == ([v] + vs) + [x];
      }
    }
  }

  lemma {:induction false} PositionsFail(a: seq<byte>, b: seq<byte>)
    requires Positions(a).None?
    ensures Positions(a + b).None?
  {
    hide Position;
    if a != [] {
      assert (a + b)[1..] == a[1..] + b;
      if Positions(a[1..]).None? {
        PositionsFail(a[1..], b);
      }
    }
  }
}

module Pem {
  import opened Basics
  import opened Fips180
  import opened Base64
  import Sha256Code

  const DASH: byte := 45

  const DASHES: seq<byte> := [DASH, DASH, DASH, DASH, DASH]

  function Undashed(lines: seq<seq<byte>>): (r: seq<seq<byte>>) {
    if lines == [] then []
    else (if DASHES <= lines[0] then [] else [lines[0]]) + Undashed(lines[1..])
  }

  /** The base64 text of a PEM file: every line that is not an encapsulation boundary. */
  function Body(pem: seq<byte>): seq<byte> {
    Flatten(Undashed(Lines(pem, LF, CR)))
  }

  /** What is hashed: the decoded body, or the text itself when the body does not decode. */
  function Hashed(pem: seq<byte>): seq<byte> {
    match Decoded(Body(pem))
    case Some(der) => der
    case None => pem
  }

  function HexDigit(n: byte): char {
    if n == 0 then '0' else if n == 1 then '1' else if n == 2 then '2' else if n == 3 then '3'
    else if n == 4 then '4' else if n == 5 then '5' else if n == 6 then '6' else if n == 7 then '7'
    else if n == 8 then '8' else if n == 9 then '9' else if n == 10 then 'A' else if n == 11 then 'B'
    else if n == 12 then 'C' else if n == 13 then 'D' else if n == 14 then 'E' else 'F'
  }

  /** Two upper-case hex digits per octet, joined by colons. */
  function HexColons(d: seq<byte>): string {
    if d == [] then ""
    else
      [HexDigit(d[0] >> 4), HexDigit(d[0] & 15)] + (if |d| == 1 then "" else ":" + HexColons(d[1..]))
  }

  lemma HexDigitsInjective(a: byte, b: byte)
    requires HexDigit(a >> 4) == HexDigit(b >> 4) && HexDigit(a & 15) == HexDigit(b & 15)
    ensures a == b
  {}

  /** Equal fingerprints mean equal digests. */
  lemma {:induction false} HexColonsInjective(a: seq<byte>, b: seq<byte>)
    requires HexColons(a) == HexColons(b)
    ensures a == b
  {
    hide HexDigit;
    if a == [] || b == [] {
    } else {
      var x, y := HexColons(a), HexColons(b);
      assert x[0] == y[0] && x[1] == y[1];
      HexDigitsInjective(a[0], b[0]);
      if |a| == 1 || |b| == 1 {
        assert |x| == 2 && |y| == 2;
      } else {
        assert x[3..] == HexColons(a[1..]) && y[3..] == HexColons(b[1..]);
        HexColonsInjective(a[1..], b[1..]);
      }
    }
  }

  /** The value of an upper-case hexadecimal digit. */
  function HexValue(c: char): Option<nat> {
    if '0' <= c <= '9' then Some(c as nat - '0' as nat)
    else if 'A' <= c <= 'F' then Some(c as nat - 'A' as nat + 10)
    else None
  }

  lemma HexDigitIs(n: byte)
    requires n < 16
    ensures HexValue(HexDigit(n)) == Some(n as nat)
  {
    if n == 0 {} else if n == 1 {} else if n == 2 {} else if n == 3 {} else if n == 4 {} else if n == 5 {}
    else if n == 6 {} else if n == 7 {} else if n == 8 {} else if n == 9 {} else if n == 10 {} else if n == 11 {}
    else if n == 12 {} else if n == 13 {} else if n == 14 {} else {}
  }

  lemma Nibbles(b: byte)
    ensures b >> 4 < 16 && b & 15 < 16 && (b >> 4) as nat * 16 + (b & 15) as nat == b as nat
  {}

  /** Reading the text: two digits for each octet, the higher first, and a colon between octets. */
  lemma {:induction false} FingerprintIsRead(d: seq<byte>, i: nat)
    requires i < |d|
    ensures var t := HexColons(d);
      && |t| == 3 * |d| - 1
      && HexValue(t[3 * i]).Some? && HexValue(t[3 * i + 1]).Some?
      && HexValue(t[3 * i]).value * 16 + HexValue(t[3 * i + 1]).value == d[i] as nat
      && (i + 1 < |d| ==> t[3 * i + 2] == ':')
  {
    hide HexDigit, HexValue, HexColons;
    OctetIsRead(d);
    if |d| > 1 {
      FingerprintIsRead(d[1..], if i > 0 then i - 1 else 0);
      var t, later := HexColons(d), HexColons(d[1..]);
      if i > 0 {
        assert t[3 * i] == later[3 * i - 3] && t[3 * i + 1] == later[3 * i - 2];
        assert i + 1 < |d| ==> t[3 * i + 2] == later[3 * i - 1];
      }
    }
  }

  lemma OctetIsRead(d: seq<byte>)
    requires d != []
    ensures var t := HexColons(d);
      && |t| >= 2
      && HexValue(t[0]).Some? && HexValue(t[1]).Some? && HexValue(t[0]).value * 16 + HexValue(t[1]).value == d[0] as nat
      && (if |d| == 1 then |t| == 2 else t[2..] == ":" + HexColons(d[1..]) && t[3..] == HexColons(d[1..]))
  {
    hide HexDigit, HexValue;
    Nibbles(d[0]);
    HexDigitIs(d[0] >> 4);
    HexDigitIs(d[0] & 15);
  }

  /** `sha256_fingerprint`. */
  method Fingerprint(pem: seq<byte>) returns (text: string)
    requires |pem| < 0x2000_0000_0000_0000
    ensures text == HexColons(Sha256(Hashed(pem)))
  {
    hide HexColons, Sha256, Lines, Flatten, Undashed, Decoded;
    var hasher := new Sha256Code.Hasher();
    var lines := Lines(pem, LF, CR);
    var der := Flatten(Undashed(lines));
    BodyShorter(pem);
    var bytes := Base64Decode(der);
    if bytes.Some? {
      hasher.Update(bytes.value);
    } else {
      hasher.Update(pem);
    }
    assert hasher.buf == Hashed(pem);
    var hash := hasher.Finalize();
    text := HexColons(hash);
  }

  lemma {:induction false} UndashedShorter(lines: seq<seq<byte>>)
    ensures |Flatten(Undashed(lines))| <= |Flatten(lines)|
  {
    if lines != [] {
      UndashedShorter(lines[1..]);
      if DASHES <= lines[0] {
        assert Undashed(lines) == Undashed(lines[1..]);
      } else {
        assert Undashed(lines)[1..] == Undashed(lines[1..]);
      }
    }
  }

  lemma {:induction false} LinesShorter(s: seq<byte>)
    ensures |Flatten(Lines(s, LF, CR))| <= |s|
    decreases |s|
  {
    if s != [] {
      var e := LineEnd(s, LF);
      if e == |s| {
        assert [s][1..] == [];
      } else {
        LinesShorter(s[e + 1..]);
        var l := Lines(s, LF, CR);
        assert l[0] == DropFinal(s[..e], CR) && l[1..] == Lines(s[e + 1..], LF, CR);
      }
    }
  }

  lemma BodyShorter(pem: seq<byte>)
    ensures |Body(pem)| <= |pem|
  {
    UndashedShorter(Lines(pem, LF, CR));
    LinesShorter(pem);
  }

  // ---------------------------------------------------------------- any line wrapping

  /** A text made of these lines, each ended by LF, or by CR LF where `crlf` says so, and then `tail`. */
  function Text(lines: seq<seq<byte>>, crlf: seq<bool>, tail: seq<byte>): seq<byte>
    requires |crlf| == |lines|
  {
    if lines == [] then tail
    else (lines[0] + Ending(crlf[0])) + [LF] + Text(lines[1..], crlf[1..], tail)
  }

  ghost predicate PlainLine(line: seq<byte>) {
    LF !in line && CR !in line
  }

  function Ending(crlf: bool): seq<byte> {
    if crlf then [CR] else []
  }

  lemma DropTerminator(line: seq<byte>, crlf: bool)
    requires PlainLine(line)
    ensures LF !in line + Ending(crlf)
    ensures DropFinal(line + Ending(crlf), CR) == line
  {
    if crlf {
      assert (line + [CR])[..|line|] == line;
    } else {
      assert line + [] == line;
    }
  }

  lemma FirstTextLine(lines: seq<seq<byte>>, crlf: seq<bool>, tail: seq<byte>)
    requires |crlf| == |lines| && lines != [] && PlainLine(lines[0])
    ensures Lines(Text(lines, crlf, tail), LF, CR) == [lines[0]] + Lines(Text(lines[1..], crlf[1..], tail), LF, CR)
  {
    hide Lines, DropFinal, Ending, PlainLine;
    DropTerminator(lines[0], crlf[0]);
    LinesOfTerminated(lines[0] + Ending(crlf[0]), Text(lines[1..], crlf[1..], tail), LF, CR);
  }

  lemma {:induction false} LinesOfText(lines: seq<seq<byte>>, crlf: seq<bool>, tail: seq<byte>)
    requires |crlf| == |lines| && forall i :: 0 <= i < |lines| ==> PlainLine(lines[i])
    ensures Lines(Text(lines, crlf, tail), LF, CR) == lines + Lines(tail, LF, CR)
  {
    hide PlainLine, Lines;
    if lines != [] {
      hide Text;
      FirstTextLine(lines, crlf, tail);
      LinesOfText(lines[1..], crlf[1..], tail);
    }
  }

  /** A last line without a newline is a line all the same. */
  lemma LinesOfTail(line: seq<byte>)
    requires LF !in line
    ensures Lines(line, LF, CR) == if line == [] then [] else [line]
  {
    assert LineEnd(line, LF) == |line|;
  }

  /** Wrapped base64 lines are never mistaken for boundaries. */
  lemma {:induction false} UndashedWrap(wrap: seq<seq<byte>>)
    requires forall i :: 0 <= i < |wrap| ==> DASH !in wrap[i]
    ensures Undashed(wrap) == wrap
  {
    if wrap != [] {
      assert DASH !in wrap[0];
      assert DASHES[0] == DASH && !(DASHES <= wrap[0]);
      UndashedWrap(wrap[1..]);
    }
  }

  lemma {:induction false} UndashedConcat(a: seq<seq<byte>>, b: seq<seq<byte>>)
    ensures Undashed(a + b) == Undashed(a) + Undashed(b)
  {
    if a == [] {
      assert a + b == b;
    } else {
      assert (a + b)[1..] == a[1..] + b && (a + b)[0] == a[0];
      UndashedConcat(a[1..], b);
    }
  }

  lemma {:induction false} FlattenMember(wrap: seq<seq<byte>>, i: nat, c: byte)
    requires i < |wrap| && c in wrap[i]
    ensures c in Flatten(wrap)
  {
    if i > 0 {
      FlattenMember(wrap[1..], i - 1, c);
    }
  }

  /** A base64 text holds letters and padding only: no dash, no line break. */
  lemma EncodeAlphabet(der: seq<byte>)
    ensures DASH !in Encode(der) && LF !in Encode(der) && CR !in Encode(der)
  {
    hide Letter, EncodeGroups;
    var s := EncodeGroups(der);
    GroupsRoundTrip(der);
    forall i | 0 <= i < |s| ensures !Ignored(Letter(s[i])) && Letter(s[i]) != DASH {
      LetterNotIgnored(s[i]);
    }
  }

  /** For every certificate, every pair of boundary lines and every wrapping of the base64 text, with
    * either line ending, and with or without a newline after the last line, the fingerprint is that of the
    * DER octets.
    */
  lemma PemFingerprint(der: seq<byte>, head: seq<byte>, foot: seq<byte>, wrap: seq<seq<byte>>, crlf: seq<bool>, ending: seq<byte>)
    requires DASHES <= head && PlainLine(head) && DASHES <= foot && PlainLine(foot)
    requires Flatten(wrap) == Encode(der)
    requires |crlf| == |wrap| + 1 && ending in {[], [LF], [CR, LF]}
    ensures Hashed(Text([head] + wrap, crlf, foot + ending)) == der
  {
    hide *;
    var pem := Text([head] + wrap, crlf, foot + ending);
    WrapPlain(wrap, der);
    assert forall i :: 0 <= i < |[head] + wrap| ==> PlainLine(([head] + wrap)[i]);
    LinesOfText([head] + wrap, crlf, foot + ending);
    LinesOfFoot(foot, ending);
    var lines := [head] + wrap + [foot];
    UndashedConcat([head] + wrap, [foot]);
    UndashedConcat([head], wrap);
    UndashedWrap(wrap);
    UndashedBoundary(head);
    UndashedBoundary(foot);
    assert [] + wrap + [] == wrap;
    HashedBody(pem, lines, wrap, der);
  }

  lemma LinesOfFoot(foot: seq<byte>, ending: seq<byte>)
    requires DASHES <= foot && PlainLine(foot) && ending in {[], [LF], [CR, LF]}
    ensures Lines(foot + ending, LF, CR) == [foot]
  {
    hide Lines;
    assert foot != [];
    LinesOfTail(foot);
    LinesOfTail([]);
    if ending == [] {
      assert foot + ending == foot;
    } else {
      var crlf := ending == [CR, LF];
      DropTerminator(foot, crlf);
      LinesOfTerminated(foot + Ending(crlf), [], LF, CR);
      assert foot + ending == foot + Ending(crlf) + [LF] + [];
    }
  }

  lemma HashedBody(pem: seq<byte>, lines: seq<seq<byte>>, wrap: seq<seq<byte>>, der: seq<byte>)
    requires Lines(pem, LF, CR) == lines && Undashed(lines) == wrap && Flatten(wrap) == Encode(der)
    ensures Hashed(pem) == der
  {
    hide Lines, Undashed, Flatten, Encode, Decoded;
    DecodeInvertsEncode(Encode(der), der);
  }

  lemma WrapPlain(wrap: seq<seq<byte>>, der: seq<byte>)
    requires Flatten(wrap) == Encode(der)
    ensures forall i :: 0 <= i < |wrap| ==> PlainLine(wrap[i]) && DASH !in wrap[i]
  {
    hide Flatten, Encode;
    EncodeAlphabet(der);
    forall i | 0 <= i < |wrap| ensures PlainLine(wrap[i]) && DASH !in wrap[i] {
      if c :| c in wrap[i] && (c == LF || c == CR || c == DASH) {
        FlattenMember(wrap, i, c);
      }
    }
  }

  /** A line is a boundary exactly when it starts with five dashes. */
  lemma BoundaryExactly(line: seq<byte>)
    ensures Undashed([line]) == if |line| >= 5 && line[..5] == [45, 45, 45, 45, 45] then [] else [line]
  {
    assert [line][1..] == [];
    assert DASHES <= line <==> |line| >= 5 && line[..5] == DASHES;
  }

  lemma UndashedBoundary(line: seq<byte>)
    requires DASHES <= line
    ensures Undashed([line]) == []
  {
    assert [line][1..] == [];
  }
}
