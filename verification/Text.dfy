/** Text codecs of the key/value tables: comma-separated lists (aifw-api/src/backup.rs:1035-1044) and the decimal
  * printing and parsing of unsigned integers.
  */
module Csv {
  import opened Basics

  function Pieces(s: string): (ps: seq<string>)
    ensures ps != []
    decreases |s|
  {
    var e := LineEnd(s, ',');
    if e == |s| then [s] else [s[..e]] + Pieces(s[e + 1..])
  }

  /** The trimmed pieces that are not empty. */
  function Kept(pieces: seq<string>): seq<string> {
    if pieces == [] then []
    else (if Trim(pieces[0]) != "" then [Trim(pieces[0])] else []) + Kept(pieces[1..])
  }

  /** `split_csv`. */
  function SplitCsv(s: string): seq<string> {
    Kept(Pieces(s))
  }

  function Join(tokens: seq<string>): string {
    if tokens == [] then ""
    else if |tokens| == 1 then tokens[0]
    else tokens[0] + "," + Join(tokens[1..])
  }

  ghost predicate Token(t: string) {
    t != "" && Trim(t) == t && ',' !in t
  }

  ghost predicate Tokens(ts: seq<string>) {
    forall i :: 0 <= i < |ts| ==> Token(ts[i])
  }

  lemma {:induction false} TrimStartSpec(s: string)
    ensures TrimStart(s) == "" || !IsSpace(TrimStart(s)[0])
    ensures forall c :: c in TrimStart(s) ==> c in s
  {
    hide IsSpace;
    if s != "" && IsSpace(s[0]) {
      TrimStartSpec(s[1..]);
    }
  }

  lemma {:induction false} TrimEndSpec(s: string)
    ensures TrimEnd(s) <= s
    ensures TrimEnd(s) == "" || !IsSpace(TrimEnd(s)[|TrimEnd(s)| - 1])
  {
    hide IsSpace;
    if s != "" && IsSpace(s[|s| - 1]) {
      TrimEndSpec(s[..|s| - 1]);
    }
  }

  lemma TrimSpec(s: string)
    ensures Trim(Trim(s)) == Trim(s)
    ensures forall c :: c in Trim(s) ==> c in s
  {
    hide IsSpace;
    TrimStartSpec(s);
    TrimEndSpec(TrimStart(s));
    var t := Trim(s);
    if t != "" {
      assert t[0] == TrimStart(s)[0];
    }
    assert TrimStart(t) == t && TrimEnd(t) == t;
  }

  lemma {:induction false} PiecesHaveNoComma(s: string)
    ensures forall i :: 0 <= i < |Pieces(s)| ==> ',' !in Pieces(s)[i]
    decreases |s|
  {
    var e := LineEnd(s, ',');
    if e == |s| {
      assert s[..e] == s;
    } else {
      PiecesHaveNoComma(s[e + 1..]);
    }
  }

  lemma {:induction false} KeptAreTokens(pieces: seq<string>)
    requires forall i :: 0 <= i < |pieces| ==> ',' !in pieces[i]
    ensures Tokens(Kept(pieces))
  {
    hide Trim;
    if pieces != [] {
      TrimSpec(pieces[0]);
      KeptAreTokens(pieces[1..]);
    }
  }

  /** Every element `split_csv` returns is trimmed, not empty and free of commas. */
  lemma SplitGivesTokens(s: string)
    ensures Tokens(SplitCsv(s))
  {
    PiecesHaveNoComma(s);
    KeptAreTokens(Pieces(s));
  }

  lemma {:induction false} PiecesOfJoin(ts: seq<string>)
    requires ts != [] && Tokens(ts)
    ensures Pieces(Join(ts)) == ts
  {
    hide Trim;
    assert Token(ts[0]);
    if |ts| > 1 {
      var s := Join(ts);
      LineEndAt(ts[0], Join(ts[1..]), ',');
      assert s == ts[0] + [','] + Join(ts[1..]);
      assert s[..|ts[0]|] == ts[0] && s[|ts[0]| + 1..] == Join(ts[1..]);
      PiecesOfJoin(ts[1..]);
    }
  }

  lemma {:induction false} KeptKeepsTokens(ts: seq<string>)
    requires Tokens(ts)
    ensures Kept(ts) == ts
  {
    hide Trim;
    if ts != [] {
      assert Token(ts[0]);
      KeptKeepsTokens(ts[1..]);
    }
  }

  /** `split_csv` undoes `join` exactly on lists of trimmed, non-empty, comma-free tokens. */
  lemma SplitUndoesJoinExactly(ts: seq<string>)
    ensures SplitCsv(Join(ts)) == ts <==> Tokens(ts)
  {
    hide Trim;
    SplitGivesTokens(Join(ts));
    if ts == [] {
      EmptyTrims();
      assert Pieces("") == [""];
      assert Kept([""]) == Kept([""][1..]);
    } else if Tokens(ts) {
      PiecesOfJoin(ts);
      KeptKeepsTokens(ts);
    }
  }

  lemma EmptyTrims()
    ensures Trim("") == ""
  {}

  /** A list text without blanks around its parts and without empty parts. */
  predicate CanonicalList(text: string) {
    text == "" || forall i :: 0 <= i < |Pieces(text)| ==> Pieces(text)[i] != "" && Trim(Pieces(text)[i]) == Pieces(text)[i]
  }

  lemma {:induction false} JoinOfPieces(s: string)
    ensures Join(Pieces(s)) == s
    decreases |s|
  {
    hide Pieces, Join;
    PiecesStep(s);
    var e := LineEnd(s, ',');
    if e < |s| {
      JoinOfPieces(s[e + 1..]);
      JoinCons(s[..e], Pieces(s[e + 1..]));
      assert s == s[..e] + "," + s[e + 1..];
    } else {
      JoinOne(s);
    }
  }

  lemma {:induction false} PiecesStep(s: string)
    ensures var e := LineEnd(s, ','); Pieces(s) == if e < |s| then [s[..e]] + Pieces(s[e + 1..]) else [s]
  {}

  lemma JoinOne(t: string)
    ensures Join([t]) == t
  {}

  lemma {:induction false} JoinCons(t: string, ts: seq<string>)
    requires ts != []
    ensures Join([t] + ts) == t + "," + Join(ts)
  {
    assert ([t] + ts)[1..] == ts;
  }

  /** Splitting and joining gives back exactly such texts. */
  lemma CanonicalListExactly(text: string)
    ensures Join(SplitCsv(text)) == text <==> CanonicalList(text)
  {
    hide Trim;
    var ts := SplitCsv(text);
    SplitGivesTokens(text);
    PiecesHaveNoComma(text);
    if text == "" {
      SplitUndoesJoinExactly([]);
    } else if CanonicalList(text) {
      assert Tokens(Pieces(text));
      KeptKeepsTokens(Pieces(text));
      JoinOfPieces(text);
    } else if Join(ts) == text {
      assert ts != [];
      PiecesOfJoin(ts);
    }
  }

  /** Only the empty list of tokens joins to the empty text. */
  lemma JoinIsEmpty(ts: seq<string>)
    requires Tokens(ts)
    ensures Join(ts) == "" <==> ts == []
  {
    hide Trim;
    if ts != [] {
      assert Token(ts[0]);
    }
  }
}

/** Unsigned integers as `to_string` prints them and `parse` reads them. */
module Decimal {
  import opened Basics

  predicate IsDigit(c: char) { '0' <= c <= '9' }

  function DigitValue(c: char): nat
    requires IsDigit(c)
  {
    c as nat - '0' as nat
  }

  function Digit(d: nat): (c: char)
    requires d < 10
    ensures IsDigit(c) && DigitValue(c) == d
  {
    '0' + d as char
  }

  function Print(n: nat): string {
    if n < 10 then [Digit(n)] else Print(n / 10) + [Digit(n % 10)]
  }

  /** The value of a run of digits. */
  function Value(s: string): Option<nat> {
    if s == "" then Some(0)
    else if !IsDigit(s[|s| - 1]) then None
    else
      match Value(s[..|s| - 1])
      case None => None
      case Some(v) => Some(10 * v + DigitValue(s[|s| - 1]))
  }

  /** One leading plus sign is allowed; no digits, another character or a value above `max` is an error. */
  function Parse(s: string, max: nat): Option<nat> {
    var digits := if s != "" && s[0] == '+' then s[1..] else s;
    if digits == "" then None
    else
      match Value(digits)
      case Some(v) => if v <= max then Some(v) else None
      case None => None
  }

  lemma {:induction false} ValueOfPrint(n: nat)
    ensures Print(n) != "" && Print(n)[0] != '+' && Value(Print(n)) == Some(n)
  {
    if n < 10 {
      assert Print(n)[..0] == "";
      assert Value("") == Some(0);
    } else {
      ValueOfPrint(n / 10);
      var front, s := Print(n / 10), Print(n);
      assert s[..|s| - 1] == front;
    }
  }

  lemma ParseOfPrint(n: nat, max: nat)
    ensures Parse(Print(n), max) == if n <= max then Some(n) else None
  {
    ValueOfPrint(n);
  }

  predicate AllDigits(s: string) {
    forall i :: 0 <= i < |s| ==> '0' <= s[i] <= '9'
  }

  lemma {:induction false} ValueExactly(s: string)
    ensures Value(s).Some? <==> AllDigits(s)
  {
    if s != "" {
      var n := |s| - 1;
      ValueExactly(s[..n]);
      assert AllDigits(s) <==> AllDigits(s[..n]) && '0' <= s[n] <= '9' by {
        assert forall i :: 0 <= i < n ==> s[i] == s[..n][i];
      }
    }
  }

  lemma {:induction false} LeadingZeros(s: string)
    ensures Value("0" + s) == Value(s)
  {
    var t := "0" + s;
    if s == "" {
      assert t[..0] == "";
      assert Value("") == Some(0);
    } else {
      var n := |s| - 1;
      assert t[..|t| - 1] == "0" + s[..n] && t[|t| - 1] == s[n];
      LeadingZeros(s[..n]);
    }
  }

  /** What parses: digits after at most one plus sign, up to the maximum. The sign and leading zeros change nothing. */
  lemma ParseExactly(s: string, max: nat)
    ensures s != "" && s[0] != '+' ==> Parse("+" + s, max) == Parse(s, max)
    ensures AllDigits(s) && s != "" ==> Parse("0" + s, max) == Parse(s, max)
    ensures s != "" && s[0] != '+' && !AllDigits(s) ==> Parse(s, max) == None && Parse("+" + s, max) == None
    ensures Parse("", max) == None && Parse("+", max) == None
  {
    assert ("+" + s)[1..] == s;
    assert "+"[1..] == "";
    ValueExactly(s);
    LeadingZeros(s);
  }

  lemma ParseOfNothing(max: nat)
    ensures Parse("", max) == None
  {}

  lemma ParseInRange(s: string, max: nat)
    ensures Parse(s, max).Some? ==> Parse(s, max).value <= max
  {}
}
