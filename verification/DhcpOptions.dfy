/** Validation of DHCP option overrides (aifw-api/src/dhcp.rs:690-815), its mirror on restore
  * (aifw-api/src/backup.rs:1218-1257), and the TOML text generated from them (aifw-api/src/dhcp.rs:1032-1059).
  */
module DhcpOptions {
  import opened Basics
  import opened Csv
  import Decimal

  datatype ValueType = Ip | Ips | Str | U8 | U16 | U32 | Hex | Unknown(name: string)

  datatype Override = Override(code: nat, valueType: ValueType, value: string)

  const RESERVED: set<nat> := {0, 1, 28, 50, 51, 53, 54, 55, 57, 58, 59, 82, 255}
  const COLLISIONS: set<nat> := {3, 6, 15, 42}

  /** The bytes UTF-8 takes. */
  function Utf8Len(s: string): nat {
    if s == "" then 0 else Utf8Size(s[0]) + Utf8Len(s[1..])
  }

  function Utf8Size(c: char): nat {
    if c < '\U{80}' then 1 else if c < '\U{800}' then 2 else if c < '\U{10000}' then 3 else 4
  }

  predicate Printable(c: char) { ' ' <= c <= '~' }

  predicate HexDigit(c: char) { '0' <= c <= '9' || 'a' <= c <= 'f' || 'A' <= c <= 'F' }

  predicate AllPrintable(s: string) { forall i :: 0 <= i < |s| ==> Printable(s[i]) }

  predicate AllHex(s: string) { forall i :: 0 <= i < |s| ==> HexDigit(s[i]) }

  predicate AllAddresses(ipv4: string -> bool, parts: seq<string>) {
    forall i :: 0 <= i < |parts| ==> ipv4(parts[i])
  }

  /** The `match` on the value type in the validator; `ipv4` is the library's address parser. */
  predicate ValueValid(ipv4: string -> bool, o: Override) {
    match o.valueType
    case Ip => ipv4(Trim(o.value))
    case Ips => SplitCsv(o.value) != [] && AllAddresses(ipv4, SplitCsv(o.value))
    case Str => o.value != "" && Utf8Len(o.value) <= 255 && AllPrintable(o.value)
    case U8 => Decimal.Parse(Trim(o.value), 0xFF).Some?
    case U16 => Decimal.Parse(Trim(o.value), 0xFFFF).Some?
    case U32 => Decimal.Parse(Trim(o.value), 0xFFFF_FFFF).Some?
    case Hex =>
      var v := Trim(o.value);
      v != "" && Utf8Len(v) % 2 == 0 && Utf8Len(v) <= 510 && AllHex(v)
    case Unknown(_) => false
  }

  predicate CodeAllowed(code: nat) {
    code !in RESERVED && code !in COLLISIONS
  }

  datatype OptionError = Reserved(code: nat) | Collides(code: nat) | Duplicated(code: nat) | BadValue(code: nat)

  ghost predicate Acceptable(ipv4: string -> bool, options: seq<Override>) {
    && (forall i :: 0 <= i < |options| ==> CodeAllowed(options[i].code) && ValueValid(ipv4, options[i]))
    && (forall i, j :: 0 <= i < j < |options| ==> options[i].code != options[j].code)
  }

  /** What is wrong with entry `i`, in the order of the checks. */
  ghost function Fault(ipv4: string -> bool, options: seq<Override>, i: nat): Option<OptionError>
    requires i < |options|
  {
    var o := options[i];
    if o.code in RESERVED then Some(Reserved(o.code))
    else if o.code in COLLISIONS then Some(Collides(o.code))
    else if exists j :: 0 <= j < i && options[j].code == o.code then Some(Duplicated(o.code))
    else if !ValueValid(ipv4, o) then Some(BadValue(o.code))
    else None
  }

  ghost predicate FirstFault(ipv4: string -> bool, options: seq<Override>, i: nat, e: OptionError) {
    && i < |options|
    && Fault(ipv4, options, i) == Some(e)
    && forall j :: 0 <= j < i ==> Fault(ipv4, options, j) == None
  }

  /** `validate_option_overrides`: accepts exactly the lists of valid entries with distinct codes, and otherwise
    * reports the first entry at fault.
    */
  method ValidateOptionOverrides(ipv4: string -> bool, options: seq<Override>) returns (r: Result<(), OptionError>)
    ensures r.Ok? <==> Acceptable(ipv4, options)
    ensures r.Err? ==> exists i :: FirstFault(ipv4, options, i, r.error)
  {
    hide ValueValid, RESERVED, COLLISIONS;
    var seen: set<nat> := {};
    for i := 0 to |options|
      invariant forall code :: code in seen <==> exists j :: 0 <= j < i && options[j].code == code
      invariant Acceptable(ipv4, options[..i])
      invariant forall j :: 0 <= j < i ==> Fault(ipv4, options, j) == None
    {
      var o := options[i];
      if o.code in RESERVED {
        assert FirstFault(ipv4, options, i, Reserved(o.code));
        return Err(Reserved(o.code));
      }
      if o.code in COLLISIONS {
        assert FirstFault(ipv4, options, i, Collides(o.code));
        return Err(Collides(o.code));
      }
      if o.code in seen {
        assert FirstFault(ipv4, options, i, Duplicated(o.code));
        return Err(Duplicated(o.code));
      }
      seen := seen + {o.code};
      if !ValueValid(ipv4, o) {
        assert FirstFault(ipv4, options, i, BadValue(o.code));
        return Err(BadValue(o.code));
      }
    }
    assert options[..|options|] == options;
    r := Ok(());
  }

  // ---------------------------------------------------------------- the mirror

  /** `is_option_override_safe`. */
  predicate Safe(ipv4: string -> bool, o: Override) {
    var v := Trim(o.value);
    && CodeAllowed(o.code)
    && v != ""
    && match o.valueType
       case Ip => ipv4(v)
       case Ips => SplitCsv(v) != [] && AllAddresses(ipv4, SplitCsv(v))
       case Str => Utf8Len(v) <= 255 && AllPrintable(v)
       case U8 => Decimal.Parse(v, 0xFF).Some?
       case U16 => Decimal.Parse(v, 0xFFFF).Some?
       case U32 => Decimal.Parse(v, 0xFFFF_FFFF).Some?
       case Hex => Utf8Len(v) <= 510 && Utf8Len(v) % 2 == 0 && AllHex(v)
       case Unknown(_) => false
  }

  /** The texts on which the two disagree. They have blanks at their ends, and either nothing but up to 255
    * plain spaces, or a core that passes while the blanks around it are not plain spaces or make it too long.
    */
  predicate Disputed(v: string) {
    && Trim(v) != v
    && if Trim(v) == "" then AllPrintable(v) && Utf8Len(v) <= 255
       else AllPrintable(Trim(v)) && Utf8Len(Trim(v)) <= 255 && (!AllPrintable(v) || Utf8Len(v) > 255)
  }

  lemma {:induction false} KeptOfConcat(a: seq<string>, b: seq<string>)
    ensures Kept(a + b) == Kept(a) + Kept(b)
  {
    hide Trim;
    if a == [] {
      assert a + b == b;
    } else {
      assert (a + b)[1..] == a[1..] + b;
      KeptOfConcat(a[1..], b);
    }
  }

  /** A space in front of the text changes no piece but the first, and that one only at its edge. */
  lemma SplitIgnoresLeadingSpace(s: string)
    requires s != "" && IsSpace(s[0])
    ensures SplitCsv(s) == SplitCsv(s[1..])
  {
    hide TrimEnd;
    var t := s[1..];
    var e := LineEnd(t, ',');
    assert LineEnd(s, ',') == 1 + e;
    if e < |t| {
      assert s[1 + e + 1..] == t[e + 1..];
      assert s[..1 + e][1..] == t[..e];
      assert Trim(s[..1 + e]) == Trim(t[..e]);
      assert Pieces(s)[1..] == Pieces(t)[1..];
    } else {
      assert Trim(s) == Trim(t);
      assert Pieces(s) == [s] && Pieces(t) == [t];
      KeptOne(s);
      KeptOne(t);
    }
  }

  lemma KeptOne(s: string)
    ensures Kept([s]) == if Trim(s) != "" then [Trim(s)] else []
  {
    hide Trim;
    assert [s][1..] == [];
  }

  lemma {:induction false} SplitIgnoresTrimStart(s: string)
    ensures SplitCsv(TrimStart(s)) == SplitCsv(s)
  {
    hide SplitCsv;
    if s != "" && IsSpace(s[0]) {
      SplitIgnoresLeadingSpace(s);
      SplitIgnoresTrimStart(s[1..]);
    }
  }

  lemma {:induction false} SplitIgnoresTrailingSpace(s: string, c: char)
    requires IsSpace(c)
    ensures SplitCsv(s + [c]) == SplitCsv(s)
    decreases |s|
  {
    hide Trim;
    assert c != ',';
    var e, t := LineEnd(s, ','), s + [c];
    if e == |s| {
      assert ',' !in s by { assert s[..e] == s; }
      LineEndAbsent(t);
      TrimSnocSpace(s, c);
      assert Pieces(t) == [t] && Pieces(s) == [s];
      KeptOne(s);
      KeptOne(t);
    } else {
      assert t == s[..e] + [','] + (s[e + 1..] + [c]);
      LineEndAt(s[..e], s[e + 1..] + [c], ',');
      assert t[..e] == s[..e] && t[e + 1..] == s[e + 1..] + [c];
      SplitIgnoresTrailingSpace(s[e + 1..], c);
      KeptOfConcat([s[..e]], Pieces(s[e + 1..]));
      KeptOfConcat([s[..e]], Pieces(s[e + 1..] + [c]));
    }
  }

  lemma LineEndAbsent(s: string)
    requires ',' !in s
    ensures LineEnd(s, ',') == |s|
  {}

  lemma {:induction false} SplitIgnoresTrimEnd(s: string)
    ensures SplitCsv(TrimEnd(s)) == SplitCsv(s)
  {
    hide SplitCsv;
    if s != "" && IsSpace(s[|s| - 1]) {
      var front := s[..|s| - 1];
      assert s == front + [s[|s| - 1]];
      SplitIgnoresTrailingSpace(front, s[|s| - 1]);
      SplitIgnoresTrimEnd(front);
    }
  }

  lemma SplitIgnoresTrim(s: string)
    ensures SplitCsv(Trim(s)) == SplitCsv(s)
  {
    hide SplitCsv;
    SplitIgnoresTrimStart(s);
    SplitIgnoresTrimEnd(TrimStart(s));
  }

  lemma TrimPrintable(s: string)
    requires AllPrintable(s)
    ensures AllPrintable(Trim(s))
  {
    hide Trim;
    TrimSpec(s);
    var t := Trim(s);
    forall i | 0 <= i < |t| ensures Printable(t[i]) {
      assert t[i] in s;
    }
  }

  lemma {:induction false} Utf8Snoc(s: string, c: char)
    ensures Utf8Len(s + [c]) == Utf8Len(s) + Utf8Size(c)
  {
    hide Utf8Size;
    if s == "" {
      assert s + [c] == [c] && [c][1..] == "";
    } else {
      assert (s + [c])[1..] == s[1..] + [c];
      Utf8Snoc(s[1..], c);
    }
  }

  lemma {:induction false} TrimStartShrinks(s: string)
    ensures Utf8Len(TrimStart(s)) <= Utf8Len(s)
  {
    hide IsSpace;
    if s != "" && IsSpace(s[0]) {
      TrimStartShrinks(s[1..]);
    }
  }

  lemma {:induction false} TrimEndShrinks(s: string)
    ensures Utf8Len(TrimEnd(s)) <= Utf8Len(s)
  {
    hide IsSpace, Utf8Len;
    if s != "" && IsSpace(s[|s| - 1]) {
      var front := s[..|s| - 1];
      assert s == front + [s[|s| - 1]];
      Utf8Snoc(front, s[|s| - 1]);
      TrimEndShrinks(front);
    }
  }

  lemma TrimShrinks(s: string)
    ensures Utf8Len(Trim(s)) <= Utf8Len(s)
  {
    TrimStartShrinks(s);
    TrimEndShrinks(TrimStart(s));
  }

  /** The mirror agrees with the validator on an entry unless it is a disputed text under an allowed code. */
  lemma MirrorExactly(ipv4: string -> bool, o: Override)
    requires !ipv4("")
    ensures (Safe(ipv4, o) <==> CodeAllowed(o.code) && ValueValid(ipv4, o))
       <==> !(o.valueType == Str && CodeAllowed(o.code) && Disputed(o.value))
  {
    hide Trim, SplitCsv, Utf8Len, CodeAllowed;
    SplitIgnoresTrim(o.value);
    TrimShrinks(o.value);
    EmptyTrims();
    if AllPrintable(o.value) { TrimPrintable(o.value); }
    assert SplitCsv("") == [] by { SplitUndoesJoinExactly([]); }
  }

  /** Blank text passes validation and is dropped by a restore; text with a newline at its edge is refused by
    * validation and kept by a restore; and a restore does not look for duplicates.
    */
  lemma MirrorExamples(ipv4: string -> bool)
    ensures ValueValid(ipv4, Override(66, Str, " ")) && !Safe(ipv4, Override(66, Str, " "))
    ensures !ValueValid(ipv4, Override(66, Str, "a\n")) && Safe(ipv4, Override(66, Str, "a\n"))
    ensures var twice := [Override(66, Str, "a"), Override(66, Str, "a")];
      !Acceptable(ipv4, twice) && Safe(ipv4, twice[0]) && Safe(ipv4, twice[1])
  {
    assert TrimStart(" ") == TrimStart(" "[1..]);
    assert TrimEnd("a\n") == TrimEnd("a\n"[..1]) && "a\n"[..1] == "a";
    assert Utf8Len(" ") == 1 && Utf8Len("a") == 1 by {
      assert " "[1..] == "" && "a"[1..] == "";
    }
    assert !Printable("a\n"[1]);
    var twice := [Override(66, Str, "a"), Override(66, Str, "a")];
    assert twice[0].code == twice[1].code;
  }

  // ---------------------------------------------------------------- limits and alphabets

  lemma {:induction false} AsciiLength(s: string)
    requires forall i :: 0 <= i < |s| ==> s[i] < '\U{80}'
    ensures Utf8Len(s) == |s|
  {
    if s != "" {
      AsciiLength(s[1..]);
    }
  }

  /** The bytes of one character, at the edges of each length. */
  lemma Utf8Edges()
    ensures Utf8Size('\U{7F}') == 1 && Utf8Size('\U{80}') == 2 && Utf8Size('\U{7FF}') == 2
    ensures Utf8Size('\U{800}') == 3 && Utf8Size('\U{FFFF}') == 3 && Utf8Size('\U{10000}') == 4
  {}

  /** The codes that may be overridden. */
  lemma CodesExactly(code: nat)
    requires code < 256
    ensures !CodeAllowed(code) <==>
      code in {0, 1, 3, 6, 15, 28, 42, 50, 51, 53, 54, 55, 57, 58, 59, 82, 255}
  {}

  /** A text is accepted exactly when it has 1 to 255 characters, each from space to tilde. */
  lemma TextAcceptedExactly(ipv4: string -> bool, o: Override)
    requires o.valueType == Str
    ensures ValueValid(ipv4, o) <==> 1 <= |o.value| <= 255 && forall i :: 0 <= i < |o.value| ==> 32 <= o.value[i] as int <= 126
  {
    if AllPrintable(o.value) {
      AsciiLength(o.value);
    }
    forall i | 0 <= i < |o.value| ensures Printable(o.value[i]) <==> 32 <= o.value[i] as int <= 126 {}
  }

  /** A hex value is accepted exactly when what is left of it after trimming is an even number of hexadecimal digits of
    * either case, from 2 to 510.
    */
  lemma HexAcceptedExactly(ipv4: string -> bool, o: Override)
    requires o.valueType == Hex
    ensures ValueValid(ipv4, o) <==>
      var v := Trim(o.value);
      2 <= |v| <= 510 && |v| % 2 == 0 && forall i :: 0 <= i < |v| ==>
        48 <= v[i] as int <= 57 || 65 <= v[i] as int <= 70 || 97 <= v[i] as int <= 102
  {
    hide Trim;
    var v := Trim(o.value);
    if AllHex(v) {
      AsciiLength(v);
    }
    forall i | 0 <= i < |v|
      ensures HexDigit(v[i]) <==> 48 <= v[i] as int <= 57 || 65 <= v[i] as int <= 70 || 97 <= v[i] as int <= 102
    {}
  }

  /** A number is accepted exactly up to the maximum of its width. */
  lemma NumberAcceptedExactly(ipv4: string -> bool, code: nat, n: nat)
    ensures ValueValid(ipv4, Override(code, U8, Decimal.Print(n))) <==> n <= 255
    ensures ValueValid(ipv4, Override(code, U16, Decimal.Print(n))) <==> n <= 65535
    ensures ValueValid(ipv4, Override(code, U32, Decimal.Print(n))) <==> n <= 4294967295
  {
    hide Decimal.Parse, Trim;
    PrintTrims(n);
    Decimal.ParseOfPrint(n, 0xFF);
    Decimal.ParseOfPrint(n, 0xFFFF);
    Decimal.ParseOfPrint(n, 0xFFFF_FFFF);
  }

  lemma PrintTrims(n: nat)
    ensures Trim(Decimal.Print(n)) == Decimal.Print(n)
  {
    var s := Decimal.Print(n);
    Decimal.ValueOfPrint(n);
    Decimal.ValueExactly(s);
    hide IsSpace;
    var i, j := TrimExactly(s);
    assert forall m :: 0 <= m < |s| ==> !IsSpace(s[m]) by { DigitsAreNoSpaces(); }
    assert s[0..|s|] == s;
  }

  lemma DigitsAreNoSpaces()
    ensures forall c: char :: '0' <= c <= '9' ==> !IsSpace(c)
  {}
}
