/** Vocabulary shared by the component models. */
module Basics {

  /** One octet of a file, a message or an encoded text. */
  type byte = bv8

  datatype Option<+T> = None | Some(value: T)

  datatype Result<+T, +E> = Ok(value: T) | Err(error: E)

  function Min(a: nat, b: nat): (m: nat)
    ensures m <= a && m <= b && (m == a || m == b)
  {
    if a <= b then a else b
  }

  function Max(a: int, b: int): int {
    if a >= b then a else b
  }

  /** The first `n` elements, or all of them when there are fewer. */
  function Take<T>(s: seq<T>, n: nat): seq<T> {
    if |s| <= n then s else s[..n]
  }

  function Reverse<T>(s: seq<T>): (r: seq<T>)
    ensures |r| == |s|
  {
    if s == [] then [] else Reverse(s[1..]) + [s[0]]
  }

  lemma {:induction false} ReverseSnoc<T>(s: seq<T>, x: T)
    ensures Reverse(s + [x]) == [x] + Reverse(s)
  {
    if s != [] {
      assert (s + [x])[1..] == s[1..] + [x];
      ReverseSnoc(s[1..], x);
    }
  }

  function Flatten<T>(pieces: seq<seq<T>>): seq<T> {
    if pieces == [] then [] else pieces[0] + Flatten(pieces[1..])
  }

  lemma FlattenNothing<T>()
    ensures Flatten<T>([]) == []
  {}

  lemma {:induction false} FlattenSnoc<T>(pieces: seq<seq<T>>, piece: seq<T>)
    ensures Flatten(pieces + [piece]) == Flatten(pieces) + piece
  {
    if pieces == [] {
      assert [piece][1..] == [] && Flatten<T>([]) == [];
      assert pieces + [piece] == [piece];
    } else {
      assert (pieces + [piece])[1..] == pieces[1..] + [piece];
      FlattenSnoc(pieces[1..], piece);
    }
  }

  /** Unicode White_Space, the characters `str::trim` removes. */
  predicate IsSpace(c: char) {
    || '\U{9}' <= c <= '\U{D}'
    || c in {' ', '\U{85}', '\U{A0}', '\U{1680}', '\U{2028}', '\U{2029}', '\U{202F}', '\U{205F}', '\U{3000}'}
    || '\U{2000}' <= c <= '\U{200A}'
  }

  function TrimStart(s: string): string {
    if s != "" && IsSpace(s[0]) then TrimStart(s[1..]) else s
  }

  function TrimEnd(s: string): string {
    if s != "" && IsSpace(s[|s| - 1]) then TrimEnd(s[..|s| - 1]) else s
  }

  function Trim(s: string): string {
    TrimEnd(TrimStart(s))
  }

  lemma {:induction false} TrimSnocSpace(s: string, c: char)
    requires IsSpace(c)
    ensures Trim(s + [c]) == Trim(s)
  {
    if s == "" {
      assert s + [c] == [c] && [c][1..] == "";
    } else if IsSpace(s[0]) {
      assert (s + [c])[1..] == s[1..] + [c];
      TrimSnocSpace(s[1..], c);
    } else {
      assert (s + [c])[..|s|] == s;
      assert TrimStart(s + [c]) == s + [c];
    }
  }

  /** The characters of Unicode White_Space, one by one. */
  lemma SpacesExactly(c: char)
    ensures IsSpace(c) <==> c in {
      '\U{9}', '\U{A}', '\U{B}', '\U{C}', '\U{D}', '\U{20}', '\U{85}', '\U{A0}', '\U{1680}', '\U{2000}', '\U{2001}',
      '\U{2002}', '\U{2003}', '\U{2004}', '\U{2005}', '\U{2006}', '\U{2007}', '\U{2008}', '\U{2009}', '\U{200A}',
      '\U{2028}', '\U{2029}', '\U{202F}', '\U{205F}', '\U{3000}'}
  {}

  lemma {:induction false} TrimStartAt(s: string) returns (i: nat)
    ensures i <= |s| && TrimStart(s) == s[i..] && (i < |s| ==> !IsSpace(s[i]))
    ensures forall j :: 0 <= j < i ==> IsSpace(s[j])
  {
    hide IsSpace;
    i := 0;
    if s != "" && IsSpace(s[0]) {
      var k := TrimStartAt(s[1..]);
      i := k + 1;
      assert s[1..][k..] == s[i..];
      assert forall j :: 1 <= j < i ==> s[j] == s[1..][j - 1];
    }
  }

  lemma {:induction false} TrimEndAt(s: string) returns (i: nat)
    ensures i <= |s| && TrimEnd(s) == s[..i] && (i > 0 ==> !IsSpace(s[i - 1]))
    ensures forall j :: i <= j < |s| ==> IsSpace(s[j])
  {
    hide IsSpace;
    i := |s|;
    if s != "" && IsSpace(s[|s| - 1]) {
      i := TrimEndAt(s[..|s| - 1]);
      assert s[..|s| - 1][..i] == s[..i];
    }
  }

  /** Trimming cuts the blanks at both ends and nothing else. */
  lemma TrimExactly(s: string) returns (i: nat, j: nat)
    ensures i <= j <= |s| && Trim(s) == s[i..j]
    ensures forall m :: 0 <= m < i || j <= m < |s| ==> IsSpace(s[m])
    ensures i < j ==> !IsSpace(s[i]) && !IsSpace(s[j - 1])
  {
    hide IsSpace, TrimStart, TrimEnd;
    i := TrimStartAt(s);
    var n := TrimEndAt(s[i..]);
    j := i + n;
    assert s[i..][..n] == s[i..j];
    assert forall m :: j <= m < |s| ==> s[m] == s[i..][m - i];
  }

  lemma TrimBlankExactly(s: string)
    ensures Trim(s) == "" <==> forall i :: 0 <= i < |s| ==> IsSpace(s[i])
  {
    hide IsSpace, Trim;
    var i, j := TrimExactly(s);
  }

  // ---------------------------------------------------------------- lines of a text

  /** The offset of the first `nl`, or the length when there is none. */
  function LineEnd<T(==)>(s: seq<T>, nl: T): (e: nat)
    ensures e <= |s| && nl !in s[..e] && (e < |s| ==> s[e] == nl)
  {
    if s == [] || s[0] == nl then 0
    else
      var e := 1 + LineEnd(s[1..], nl);
      assert s[..e] == [s[0]] + s[1..][..e - 1];
      e
  }

  function DropFinal<T(==)>(s: seq<T>, x: T): seq<T> {
    if s != [] && s[|s| - 1] == x then s[..|s| - 1] else s
  }

  /** `str::lines`: split after each newline, drop the newline and one carriage return before it;
    * no line follows a final newline.
    */
  function Lines<T(==)>(s: seq<T>, nl: T, cr: T): seq<seq<T>>
    decreases |s|
  {
    if s == [] then []
    else
      var e := LineEnd(s, nl);
      if e == |s| then [s] else [DropFinal(s[..e], cr)] + Lines(s[e + 1..], nl, cr)
  }

  lemma LineEndAt<T>(a: seq<T>, b: seq<T>, nl: T)
    requires nl !in a
    ensures LineEnd(a + [nl] + b, nl) == |a|
  {
    var s := a + [nl] + b;
    assert s[..|a|] == a && s[|a|] == nl;
    assert forall i :: 0 <= i < |a| ==> s[i] == a[i];
  }

  /** The first line of a text that starts with a terminated line. */
  lemma LinesOfTerminated<T>(line: seq<T>, rest: seq<T>, nl: T, cr: T)
    requires nl !in line
    ensures Lines(line + [nl] + rest, nl, cr) == [DropFinal(line, cr)] + Lines(rest, nl, cr)
  {
    var s := line + [nl] + rest;
    LineEndAt(line, rest, nl);
    assert s[..|line|] == line && s[|line| + 1..] == rest;
  }
}
