/** The TOML text of an option override (aifw-api/src/dhcp.rs:1032-1059) against a reader for basic strings and
  * decimal integers of TOML v1.0.0.
  */
module Toml {
  import opened Basics
  import opened DhcpOptions
  import Decimal

  /** `str::replace` of one character. */
  function Replace(s: string, c: char, instead: string): string {
    if s == "" then "" else (if s[0] == c then instead else [s[0]]) + Replace(s[1..], c, instead)
  }

  /** The code's escaping: first backslashes, then quotes. */
  function Escape(s: string): string {
    Replace(Replace(s, '\\', "\\\\"), '"', "\\\"")
  }

  /** One pass, character by character. */
  function EscapeEach(s: string): string {
    if s == "" then ""
    else (if s[0] == '\\' then "\\\\" else if s[0] == '"' then "\\\"" else [s[0]]) + EscapeEach(s[1..])
  }

  lemma {:induction false} ReplaceConcat(a: string, b: string, c: char, instead: string)
    ensures Replace(a + b, c, instead) == Replace(a, c, instead) + Replace(b, c, instead)
  {
    if a == "" {
      assert a + b == b;
    } else {
      assert (a + b)[1..] == a[1..] + b;
      ReplaceConcat(a[1..], b, c, instead);
    }
  }

  lemma ReplaceOther(s: string, c: char, instead: string)
    requires c !in s
    ensures Replace(s, c, instead) == s
  {
    if s != "" {
      ReplaceOther(s[1..], c, instead);
    }
  }

  /** The two passes do not interfere. */
  lemma {:induction false} EscapeIsOnePass(s: string)
    ensures Escape(s) == EscapeEach(s)
  {
    if s != "" {
      var head := if s[0] == '\\' then "\\\\" else [s[0]];
      ReplaceConcat(head, Replace(s[1..], '\\', "\\\\"), '"', "\\\"");
      EscapeIsOnePass(s[1..]);
      if s[0] == '"' {
        assert Replace(head, '"', "\\\"") == "\\\"" + Replace(head[1..], '"', "\\\"");
      } else {
        ReplaceOther(head, '"', "\\\"");
      }
    }
  }

  // ---------------------------------------------------------------- the reader

  /** `basic-unescaped`: what may stand for itself between the quotes. */
  predicate Unescaped(c: char) {
    c == '\t' || (' ' <= c && c != '"' && c != '\\' && c != '\U{7F}')
  }

  function HexValue(s: string): Option<nat> {
    if s == "" then Some(0)
    else if !HexDigit(s[|s| - 1]) then None
    else
      match HexValue(s[..|s| - 1])
      case None => None
      case Some(v) => Some(16 * v + HexDigitValue(s[|s| - 1]))
  }

  function HexDigitValue(c: char): nat
    requires HexDigit(c)
  {
    if c <= '9' then c as nat - '0' as nat
    else if c <= 'F' then 10 + c as nat - 'A' as nat
    else 10 + c as nat - 'a' as nat
  }

  /** The character that the escape at the start of `s`, after its backslash, stands for, and its length. */
  function Escaped(s: string): Option<(char, nat)> {
    if s == "" then None
    else
      match s[0]
      case 'b' => Some(('\U{8}', 1))
      case 't' => Some(('\t', 1))
      case 'n' => Some(('\n', 1))
      case 'f' => Some(('\U{C}', 1))
      case 'r' => Some(('\r', 1))
      case '"' => Some(('"', 1))
      case '\\' => Some(('\\', 1))
      case 'u' => if |s| < 5 then None else Scalar(HexValue(s[1..5]), 5)
      case 'U' => if |s| < 9 then None else Scalar(HexValue(s[1..9]), 9)
      case _ => None
  }

  function Scalar(v: Option<nat>, n: nat): Option<(char, nat)> {
    match v
    case None => None
    case Some(x) => if x < 0xD800 || 0xE000 <= x < 0x11_0000 then Some((x as char, n)) else None
  }

  /** Reads a basic string from just after its opening quote: the value, and the text after the closing quote. */
  function ReadBasic(s: string): Option<(string, string)>
    decreases |s|
  {
    if s == "" then None
    else if s[0] == '"' then Some(("", s[1..]))
    else if s[0] == '\\' then
      match Escaped(s[1..])
      case None => None
      case Some((c, n)) => if 1 + n <= |s| then Prepend(c, ReadBasic(s[1 + n..])) else None
    else if Unescaped(s[0]) then Prepend(s[0], ReadBasic(s[1..]))
    else None
  }

  function Prepend(c: char, r: Option<(string, string)>): Option<(string, string)> {
    match r
    case None => None
    case Some((value, rest)) => Some(([c] + value, rest))
  }

  /** What may be in a value for its text to be readable. */
  predicate Readable(v: string) {
    forall i :: 0 <= i < |v| ==> Unescaped(v[i]) || v[i] == '"' || v[i] == '\\'
  }

  /** Readable values are those without control characters other than tabs. */
  lemma ReadableExactly(v: string)
    ensures Readable(v) <==> forall i :: 0 <= i < |v| ==> v[i] as int == 9 || (32 <= v[i] as int && v[i] as int != 127)
  {
    forall i | 0 <= i < |v|
      ensures (Unescaped(v[i]) || v[i] == '"' || v[i] == '\\') <==> v[i] as int == 9 || (32 <= v[i] as int && v[i] as int != 127)
    {}
  }

  /** The escapes of the standard. */
  lemma EscapesRead(rest: string)
    ensures ReadBasic("\\b\"" + rest) == Some(("\U{8}", rest)) && ReadBasic("\\t\"" + rest) == Some(("\t", rest))
    ensures ReadBasic("\\n\"" + rest) == Some(("\n", rest)) && ReadBasic("\\r\"" + rest) == Some(("\r", rest))
    ensures ReadBasic("\\f\"" + rest) == Some(("\U{C}", rest))
  {
    ReadOneEscape('b', '\U{8}', rest);
    ReadOneEscape('t', '\t', rest);
    ReadOneEscape('n', '\n', rest);
    ReadOneEscape('r', '\r', rest);
    ReadOneEscape('f', '\U{C}', rest);
  }

  lemma ReadOneEscape(e: char, c: char, rest: string)
    requires (e, c) in {('b', '\U{8}'), ('t', '\t'), ('n', '\n'), ('r', '\r'), ('f', '\U{C}')}
    ensures ReadBasic(['\\', e, '"'] + rest) == Some(([c], rest))
  {
    var s := ['\\', e, '"'] + rest;
    assert s[1..][0] == e && s[2..] == ['"'] + rest;
    assert Escaped(s[1..]) == Some((c, 1));
    assert (['"'] + rest)[1..] == rest;
    assert ReadBasic(s[2..]) == Some(("", rest));
    assert [c] + "" == [c];
  }

  /** The reader returns the original and stops at the closing quote exactly when the value has no control
    * character other than a tab; otherwise the text is not TOML at all.
    */
  lemma {:induction false} ReadsBackExactly(v: string, rest: string)
    ensures ReadBasic(Escape(v) + "\"" + rest) == if Readable(v) then Some((v, rest)) else None
  {
    EscapeIsOnePass(v);
    ReadsBackEach(v, rest);
  }

  lemma ReadEscape(c: char, tail: string)
    requires c == '"' || c == '\\'
    ensures ReadBasic(['\\', c] + tail) == Prepend(c, ReadBasic(tail))
  {
    var text := ['\\', c] + tail;
    assert text[1..] == [c] + tail && text[2..] == tail;
    assert Escaped(text[1..]) == Some((c, 1));
  }

  lemma ReadPlain(c: char, tail: string)
    requires c != '"' && c != '\\'
    ensures ReadBasic([c] + tail) == if Unescaped(c) then Prepend(c, ReadBasic(tail)) else None
  {
    hide Escaped;
    assert ([c] + tail)[1..] == tail;
  }

  lemma {:induction false} ReadsBackEach(v: string, rest: string)
    ensures ReadBasic(EscapeEach(v) + "\"" + rest) == if Readable(v) then Some((v, rest)) else None
  {
    hide Escaped, ReadBasic, Readable;
    if v == "" {
      assert EscapeEach(v) + "\"" + rest == "\"" + rest;
      NothingToRead(rest);
    } else {
      var c, tail := v[0], EscapeEach(v[1..]) + "\"" + rest;
      ReadsBackEach(v[1..], rest);
      ReadableStep(v);
      assert [c] + v[1..] == v;
      if c == '\\' || c == '"' {
        assert EscapeEach(v) + "\"" + rest == ['\\', c] + tail;
        ReadEscape(c, tail);
      } else {
        assert EscapeEach(v) + "\"" + rest == [c] + tail;
        ReadPlain(c, tail);
      }
    }
  }

  lemma NothingToRead(rest: string)
    ensures ReadBasic("\"" + rest) == Some(("", rest)) && Readable("")
  {
    assert ("\"" + rest)[1..] == rest;
  }

  lemma ReadableStep(v: string)
    requires v != ""
    ensures Readable(v) <==> (Unescaped(v[0]) || v[0] == '"' || v[0] == '\\') && Readable(v[1..])
  {
    if Readable(v[1..]) {
      forall i | 1 <= i < |v| ensures Unescaped(v[i]) || v[i] == '"' || v[i] == '\\' {
        assert v[i] == v[1..][i - 1];
      }
    }
  }

  /** Every text value the validator accepts is read back. */
  lemma ValidatedReadsBack(ipv4: string -> bool, o: Override, rest: string)
    requires o.valueType == Str && ValueValid(ipv4, o)
    ensures ReadBasic(Escape(o.value) + "\"" + rest) == Some((o.value, rest))
  {
    ReadsBackExactly(o.value, rest);
    forall i | 0 <= i < |o.value| ensures Unescaped(o.value[i]) || o.value[i] == '"' || o.value[i] == '\\' {
      assert Printable(o.value[i]);
    }
  }

  /** A restored text value is read back exactly when it has no control character but tabs: its edges are not
    * checked by the restore.
    */
  lemma RestoredReadsBackExactly(ipv4: string -> bool, o: Override, rest: string)
    requires o.valueType == Str && Safe(ipv4, o)
    ensures ReadBasic(Escape(o.value) + "\"" + rest) == Some((o.value, rest)) <==> Readable(o.value)
  {
    ReadsBackExactly(o.value, rest);
  }

  lemma RestoredNotReadBack(ipv4: string -> bool, rest: string)
    ensures Safe(ipv4, Override(66, Str, "a\n")) && ReadBasic(Escape("a\n") + "\"" + rest) == None
  {
    hide Escape;
    MirrorExamples(ipv4);
    ReadsBackExactly("a\n", rest);
    assert !Unescaped("a\n"[1]);
  }

  // ---------------------------------------------------------------- integers

  /** A decimal integer with an optional plus sign; no leading zero. (Underscores cannot pass validation.) */
  function ReadInteger(s: string): Option<nat> {
    var digits := if s != "" && s[0] == '+' then s[1..] else s;
    if digits == "" || (|digits| > 1 && digits[0] == '0') then None else Decimal.Value(digits)
  }

  predicate LeadingZero(s: string) {
    var digits := if s != "" && s[0] == '+' then s[1..] else s;
    |digits| > 1 && digits[0] == '0'
  }

  /** The number emitted for an accepted value is read as that number exactly when it has no leading zero;
    * otherwise the line is not TOML.
    */
  lemma IntegerReadsBackExactly(s: string, max: nat)
    requires Decimal.Parse(s, max).Some?
    ensures ReadInteger(s) == if LeadingZero(s) then None else Decimal.Parse(s, max)
  {}

  /** Validation accepts such a value. */
  lemma LeadingZeroAccepted(ipv4: string -> bool)
    ensures ValueValid(ipv4, Override(23, U8, "064")) && ReadInteger("064") == None
  {
    assert "064"[..2] == "06" && "06"[..1] == "0" && "0"[..0] == "";
    assert Decimal.Value("0") == Some(0) && Decimal.Value("06") == Some(6) && Decimal.Value("064") == Some(64);
    assert !IsSpace('0') && !IsSpace('4');
    assert Trim("064") == "064";
  }
}
