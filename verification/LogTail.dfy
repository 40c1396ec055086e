/** The bounded backwards log tail (aifw-api/src/log_tail.rs).
  *
  * `ReverseTail` scans a file from its end in chunks. It is proved equal, for every chunk
  * size, to the obvious function: split into lines, reverse, limit, filter, take.
  */
module LogTail {
  import opened Basics

  const NL: byte := 10

  /** What one call asks for. Lossy UTF-8 decoding and lower-casing belong to the standard
    * library; they are arbitrary functions here.
    */
  datatype Query = Query(
    decode: seq<byte> -> string,
    lower: string -> string,
    needle: Option<string>,
    tailLines: nat,
    take: nat
  )

  // ---------------------------------------------------------------- specification

  /** The pieces between newlines, in file order; n newlines give n + 1 pieces. */
  function Split(file: seq<byte>): (pieces: seq<seq<byte>>)
    ensures |pieces| > 0
  {
    if file == [] then [[]]
    else
      var rest := Split(file[1..]);
      if file[0] == NL then [[]] + rest
      else [[file[0]] + rest[0]] + rest[1..]
  }

  /** The lines of a file: no piece after a final newline, and no empty first line. */
  function LinesOf(file: seq<byte>): seq<seq<byte>> {
    var pieces := Split(file);
    var body := if pieces[|pieces| - 1] == [] then pieces[..|pieces| - 1] else pieces;
    if body != [] && body[0] == [] then body[1..] else body
  }

  function StripCr(line: string): string {
    if line != "" && line[|line| - 1] == '\r' then line[..|line| - 1] else line
  }

  predicate Contains(text: string, needle: string) {
    needle <= text || (text != "" && Contains(text[1..], needle))
  }

  function Shown(q: Query, raw: seq<byte>): string {
    StripCr(q.decode(raw))
  }

  predicate Wanted(q: Query, raw: seq<byte>) {
    match q.needle
    case None => true
    case Some(n) => Contains(q.lower(Shown(q, raw)), n)
  }

  function Filtered(q: Query, lines: seq<seq<byte>>): (shown: seq<string>)
    ensures |shown| <= |lines|
  {
    if lines == [] then []
    else (if Wanted(q, lines[0]) then [Shown(q, lines[0])] else []) + Filtered(q, lines[1..])
  }

  /** How many lines a call may examine. A limit of zero still lets one line through, because
    * the limits are tested after a line has been handled.
    */
  function LineLimit(q: Query): nat {
    if q.take == 0 || q.tailLines == 0 then 1 else q.tailLines
  }

  /** Newest first: limit the lines, filter them, keep the first matches. */
  function TailSpec(q: Query, file: seq<byte>): seq<string> {
    Take(Filtered(q, Take(Reverse(LinesOf(file)), LineLimit(q))), Max(1, q.take))
  }

  // ---------------------------------------------------------------- the scan, line by line

  function LastNewline(s: seq<byte>): (p: Option<nat>)
    ensures p.Some? ==> p.value < |s| && s[p.value] == NL && NL !in s[p.value + 1..]
    ensures p.None? <==> NL !in s
  {
    if s == [] then None
    else if s[|s| - 1] == NL then Some(|s| - 1)
    else
      assert s == s[..|s| - 1] + [s[|s| - 1]];
      var p := LastNewline(s[..|s| - 1]);
      assert p.Some? ==> s[p.value + 1..] == s[..|s| - 1][p.value + 1..] + [s[|s| - 1]];
      p
  }

  /** The lines still to be reported when everything from `|prefix|` on has been handled. */
  function Rest(prefix: seq<byte>, atEof: bool): seq<seq<byte>>
    decreases |prefix|
  {
    match LastNewline(prefix)
    case None => if prefix == [] then [] else [prefix]
    case Some(nl) =>
      (if atEof && prefix[nl + 1..] == [] then [] else [prefix[nl + 1..]]) + Rest(prefix[..nl], false)
  }

  predicate Enough(q: Query, out: seq<string>, examined: nat) {
    |out| >= q.take || examined >= q.tailLines
  }

  function Push(q: Query, out: seq<string>, raw: seq<byte>): seq<string> {
    if Wanted(q, raw) then out + [Shown(q, raw)] else out
  }

  /** Handling `lines` in order, stopping as soon as a limit is reached. */
  function Emit(q: Query, lines: seq<seq<byte>>, out: seq<string>, examined: nat): seq<string> {
    if lines == [] then out
    else
      var out' := Push(q, out, lines[0]);
      if Enough(q, out', examined + 1) then out' else Emit(q, lines[1..], out', examined + 1)
  }

  lemma {:induction false} LastNewlineUnique(s: seq<byte>, nl: nat)
    requires nl < |s| && s[nl] == NL && NL !in s[nl + 1..]
    ensures LastNewline(s) == Some(nl)
  {
    var p := LastNewline(s);
    assert p.Some? && s[p.value] == NL;
  }

  // ---------------------------------------------------------------- Rest is the reversed line list

  /** All pieces newest first, the scan's own order. */
  function Pieces(prefix: seq<byte>): seq<seq<byte>>
    decreases |prefix|
  {
    match LastNewline(prefix)
    case None => [prefix]
    case Some(nl) => [prefix[nl + 1..]] + Pieces(prefix[..nl])
  }

  lemma {:induction false} SplitPlain(s: seq<byte>)
    requires NL !in s
    ensures Split(s) == [s]
  {
    if s != [] {
      assert NL !in s[1..];
      SplitPlain(s[1..]);
      assert [s[0]] + s[1..] == s;
    }
  }

  lemma {:induction false} SplitAtLast(a: seq<byte>, b: seq<byte>)
    requires NL !in b
    ensures Split(a + [NL] + b) == Split(a) + [b]
  {
    if a == [] {
      assert (a + [NL] + b)[1..] == b;
      SplitPlain(b);
    } else {
      assert (a + [NL] + b)[1..] == a[1..] + [NL] + b;
      SplitAtLast(a[1..], b);
    }
  }

  lemma {:induction false} PiecesReverseSplit(s: seq<byte>)
    ensures Pieces(s) == Reverse(Split(s))
    decreases |s|
  {
    match LastNewline(s)
    case None =>
      SplitPlain(s);
      assert [s][1..] == [];
    case Some(nl) =>
      assert s == s[..nl] + [NL] + s[nl + 1..];
      SplitAtLast(s[..nl], s[nl + 1..]);
      PiecesReverseSplit(s[..nl]);
      ReverseSnoc(Split(s[..nl]), s[nl + 1..]);
  }

  /** Dropping an empty oldest piece. */
  function DropLastEmpty(p: seq<seq<byte>>): seq<seq<byte>> {
    if p != [] && p[|p| - 1] == [] then p[..|p| - 1] else p
  }

  lemma Unfold(s: seq<byte>, atEof: bool)
    ensures LastNewline(s).None? ==> Pieces(s) == [s] && Rest(s, atEof) == if s == [] then [] else [s]
    ensures LastNewline(s).Some? ==>
      var nl := LastNewline(s).value;
      && Pieces(s) == [s[nl + 1..]] + Pieces(s[..nl])
      && Rest(s, atEof) == (if atEof && s[nl + 1..] == [] then [] else [s[nl + 1..]]) + Rest(s[..nl], false)
  {}

  lemma PiecesNonEmpty(s: seq<byte>)
    ensures Pieces(s) != []
  {}

  lemma DropsUnderHead(newest: seq<byte>, older: seq<seq<byte>>)
    requires older != []
    ensures DropLastEmpty([newest] + older) == [newest] + DropLastEmpty(older)
    ensures DropFirstEmpty([newest] + older) == (if newest == [] then older else [newest] + older)
  {
    var all := [newest] + older;
    assert all[|older|] == older[|older| - 1];
    assert all[..|older|] == [newest] + older[..|older| - 1];
    assert all[1..] == older;
  }

  lemma {:induction false} RestIsPieces(s: seq<byte>)
    ensures Rest(s, false) == DropLastEmpty(Pieces(s))
    decreases |s|
  {
    hide Rest, Pieces;
    Unfold(s, false);
    if LastNewline(s).Some? {
      var nl := LastNewline(s).value;
      RestIsPieces(s[..nl]);
      PiecesNonEmpty(s[..nl]);
      DropsUnderHead(s[nl + 1..], Pieces(s[..nl]));
    }
  }

  lemma {:induction false} ReverseEnds<T>(s: seq<T>)
    requires s != []
    ensures Reverse(s)[|s| - 1] == s[0] && Reverse(s)[..|s| - 1] == Reverse(s[1..])
    ensures Reverse(s)[0] == s[|s| - 1] && Reverse(s)[1..] == Reverse(s[..|s| - 1])
  {
    var last, init, r := s[|s| - 1], s[..|s| - 1], Reverse(s);
    assert r == Reverse(s[1..]) + [s[0]];
    assert s == init + [last];
    ReverseSnoc(init, last);
    assert r == [last] + Reverse(init);
  }

  function DropFirstEmpty(p: seq<seq<byte>>): seq<seq<byte>> {
    if p != [] && p[0] == [] then p[1..] else p
  }

  /** Dropping at one end before reversing is dropping at the other end after it. */
  lemma {:induction false} ReversedDrops(p: seq<seq<byte>>)
    requires p != []
    ensures Reverse(DropFirstEmpty(p)) == DropLastEmpty(Reverse(p))
    ensures Reverse(DropLastEmpty(p)) == DropFirstEmpty(Reverse(p))
  {
    hide Reverse;
    ReverseEnds(p);
  }

  /** The scan meets exactly the lines of the file, newest first. */
  lemma {:induction false} RestIsReversedLines(file: seq<byte>)
    ensures Rest(file, true) == Reverse(LinesOf(file))
  {
    hide Split, Reverse;
    var pieces := Split(file);
    PiecesReverseSplit(file);
    var newestFirst := Pieces(file);
    ReversedDrops(pieces);
    var body := DropLastEmpty(pieces);
    assert Reverse(body) == DropFirstEmpty(newestFirst);
    assert LinesOf(file) == DropFirstEmpty(body);
    if body == [] {
      ReverseNil();
    } else {
      ReversedDrops(body);
    }
    assert Reverse(LinesOf(file)) == DropLastEmpty(DropFirstEmpty(newestFirst));
    RestFromPieces(file);
  }

  lemma ReverseNil()
    ensures Reverse<seq<byte>>([]) == []
  {}

  lemma {:induction false} RestFromPieces(file: seq<byte>)
    ensures Rest(file, true) == DropLastEmpty(DropFirstEmpty(Pieces(file)))
  {
    hide Rest, Pieces;
    Unfold(file, true);
    if LastNewline(file).Some? {
      var nl := LastNewline(file).value;
      var newest, older := file[nl + 1..], Pieces(file[..nl]);
      PiecesNonEmpty(file[..nl]);
      RestIsPieces(file[..nl]);
      DropsUnderHead(newest, older);
    }
  }

  // ---------------------------------------------------------------- Emit is limit, filter, take

  lemma FilteredCons(q: Query, x: seq<byte>, xs: seq<seq<byte>>)
    ensures Filtered(q, [x] + xs) == Push(q, [], x) + Filtered(q, xs)
  {
    assert ([x] + xs)[1..] == xs;
  }

  /** The fused loop against the three-stage pipeline, from any intermediate state. */
  lemma {:induction false} EmitIsPipeline(q: Query, lines: seq<seq<byte>>, out: seq<string>, examined: nat)
    requires examined == 0 || !Enough(q, out, examined)
    requires |out| <= examined
    ensures examined <= LineLimit(q) && |out| <= Max(1, q.take)
    ensures Emit(q, lines, out, examined)
         == out + Take(Filtered(q, Take(lines, LineLimit(q) - examined)), Max(1, q.take) - |out|)
  {
    hide Wanted, Shown, Filtered, Take, Emit, Push;
    if lines == [] {
      EmitNothing(q, out, examined);
    } else {
      var room, keep := LineLimit(q) - examined, Max(1, q.take) - |out|;
      var x, xs := lines[0], lines[1..];
      var y := Push(q, [], x);
      var out' := Push(q, out, x);
      EmitOne(q, lines, out, examined);
      PipelineHead(q, lines, room);
      var later := Filtered(q, Take(xs, room - 1));
      if Enough(q, out', examined + 1) {
        EmitStops(q, x, xs, out, examined);
      } else {
        EmitIsPipeline(q, xs, out', examined + 1);
        TakeAppend(y, later, keep);
        assert (out + y) + Take(later, keep - |y|) == out + (y + Take(later, keep - |y|));
      }
    }
  }

  lemma EmitNothing(q: Query, out: seq<string>, examined: nat)
    ensures Emit(q, [], out, examined) == out
    ensures forall n: nat, m: nat :: out + Take(Filtered(q, Take([], n)), m) == out
  {}

  lemma EmitOne(q: Query, lines: seq<seq<byte>>, out: seq<string>, examined: nat)
    requires lines != []
    ensures var out' := Push(q, out, lines[0]);
      && out' == out + Push(q, [], lines[0])
      && Emit(q, lines, out, examined)
         == if Enough(q, out', examined + 1) then out' else Emit(q, lines[1..], out', examined + 1)
  {}

  lemma PipelineHead(q: Query, lines: seq<seq<byte>>, room: nat)
    requires lines != [] && room > 0
    ensures Filtered(q, Take(lines, room)) == Push(q, [], lines[0]) + Filtered(q, Take(lines[1..], room - 1))
    ensures |Push(q, [], lines[0])| <= 1
  {
    assert Take(lines, room)[0] == lines[0];
    assert Take(lines, room)[1..] == Take(lines[1..], room - 1);
  }

  lemma TakeAppend<T>(y: seq<T>, later: seq<T>, keep: nat)
    requires |y| <= keep
    ensures Take(y + later, keep) == y + Take(later, keep - |y|)
  {}

  /** At the line where the loop stops, the pipeline has nothing more to give either. */
  lemma EmitStops(q: Query, x: seq<byte>, xs: seq<seq<byte>>, out: seq<string>, examined: nat)
    requires examined == 0 || !Enough(q, out, examined)
    requires |out| <= examined < LineLimit(q)
    requires Enough(q, Push(q, out, x), examined + 1)
    ensures |out| < Max(1, q.take)
    ensures Take(Push(q, [], x) + Filtered(q, Take(xs, LineLimit(q) - examined - 1)), Max(1, q.take) - |out|)
         == Push(q, [], x)
  {
    if examined + 1 == LineLimit(q) {
      assert Take(xs, 0) == [];
    } else {
      assert Wanted(q, x) && Max(1, q.take) - |out| == 1;
    }
  }

  /** The scan's result is the specification's, with no chunk in sight. */
  lemma ScanMeetsSpec(q: Query, file: seq<byte>)
    ensures Emit(q, Rest(file, true), [], 0) == TailSpec(q, file)
  {
    hide Emit, Rest, Filtered, Take, LinesOf, Reverse;
    EmitIsPipeline(q, Rest(file, true), [], 0);
    RestIsReversedLines(file);
  }

  // ---------------------------------------------------------------- the code

  /** The loop invariant: `seen` of the lines in `all` are handled, those of `file[..end]` remain,
    * and finishing from here gives what the whole scan gives.
    */
  ghost predicate Pending(q: Query, file: seq<byte>, end: nat, atEof: bool, out: seq<string>, seen: nat) {
    var all := Rest(file, true);
    && end <= |file| && seen <= |all|
    && all[seen..] == Rest(file[..end], atEof)
    && Emit(q, all[seen..], out, seen) == Emit(q, all, [], 0)
    && (atEof ==> end == |file|)
  }

  /** Stopping with the lines of `file[..end]` unread. */
  ghost predicate Stopped(q: Query, file: seq<byte>, end: nat, out: seq<string>, seen: nat) {
    var all := Rest(file, true);
    && end < |file| && file[end] == NL && seen <= |all|
    && all[seen..] == Rest(file[..end], false)
    && out == Emit(q, all, [], 0)
  }

  lemma ScanStart(q: Query, file: seq<byte>)
    ensures Pending(q, file, |file|, true, [], 0)
    ensures Emit(q, Rest(file, true), [], 0) == TailSpec(q, file)
  {
    ScanMeetsSpec(q, file);
    assert file[..|file|] == file;
  }

  lemma SkipStep(q: Query, file: seq<byte>, end: nat, out: seq<string>, seen: nat, nl: nat)
    requires Pending(q, file, end, true, out, seen)
    requires LastNewline(file[..end]) == Some(nl) && nl + 1 == end
    ensures Pending(q, file, nl, false, out, seen)
  {
    assert file[..end][..nl] == file[..nl];
    assert file[..end][nl + 1..] == [];
  }

  lemma LineStep(q: Query, file: seq<byte>, end: nat, atEof: bool, out: seq<string>, seen: nat, nl: nat)
    requires Pending(q, file, end, atEof, out, seen)
    requires LastNewline(file[..end]) == Some(nl) && !(atEof && nl + 1 == end)
    ensures var out' := Push(q, out, file[nl + 1..end]);
      if Enough(q, out', seen + 1) then Stopped(q, file, nl, out', seen + 1)
      else Pending(q, file, nl, false, out', seen + 1)
  {
    var all := Rest(file, true);
    var raw := file[nl + 1..end];
    assert file[..end][..nl] == file[..nl];
    assert file[..end][nl + 1..] == raw;
    assert all[seen..] == [raw] + Rest(file[..nl], false);
    assert all[seen..][1..] == all[seen + 1..];
    assert ([raw] + Rest(file[..nl], false))[1..] == Rest(file[..nl], false);
  }

  /** Whatever is left when the start of the file is reached is its first line. */
  lemma FirstLineStep(q: Query, file: seq<byte>, carry: seq<byte>, atEof: bool, out: seq<string>, seen: nat)
    requires carry <= file && NL !in carry && Pending(q, file, |carry|, atEof, out, seen)
    ensures (if carry == [] then out else Push(q, out, carry)) == Emit(q, Rest(file, true), [], 0)
    ensures carry != [] ==> seen + 1 <= |Rest(file, true)|
    ensures seen <= |Rest(file, true)|
  {
    var all := Rest(file, true);
    assert file[..|carry|] == carry;
    if carry == [] {
      assert all[seen..] == [];
    } else {
      assert all[seen..] == [carry];
      assert Emit(q, [carry][1..], Push(q, out, carry), seen + 1) == Push(q, out, carry);
    }
  }

  /** A newline found inside the chunk buffer is the last newline of the file prefix it stands for. */
  lemma NewlineInChunk(file: seq<byte>, at: nat, buf: seq<byte>, end: nat, nl: nat)
    requires at + |buf| <= |file| && buf == file[at..at + |buf|] && nl < end <= |buf|
    requires LastNewline(buf[..end]) == Some(nl)
    ensures LastNewline(file[..at + end]) == Some(at + nl)
    ensures file[at + nl + 1..at + end] == buf[nl + 1..end]
  {
    assert buf[..end][nl + 1..] == buf[nl + 1..end];
    var a, b, c := file[at + nl + 1..at + end], buf[nl + 1..end], file[..at + end][at + nl + 1..];
    assert forall i :: 0 <= i < |b| ==> a[i] == b[i] && c[i] == b[i];
    assert a == b && c == b;
    assert file[at + nl] == buf[nl];
    LastNewlineUnique(file[..at + end], at + nl);
  }

  /** `reverse_tail`: read backwards in chunks of `chunk` bytes. Besides the lines the source
    * returns, `pos` reports how far back the file was read and `examined` how many lines were
    * handled, so that the cost can be stated: a scan that stops early has read less than one
    * chunk beyond the newline in front of the last line it handled.
    */
  method ReverseTail(q: Query, file: seq<byte>, chunk: nat)
    returns (out: seq<string>, ghost pos: nat, ghost examined: nat)
    requires chunk >= 1
    ensures out == TailSpec(q, file)
    ensures pos <= |file| && examined <= |Rest(file, true)|
    ensures pos > 0 ==> exists nl ::
      && pos <= nl < pos + chunk && nl < |file| && file[nl] == NL
      && Rest(file, true)[examined..] == Rest(file[..nl], false)
  {
    hide *;
    out := [];
    var at: nat := |file|;
    var seen: nat := 0;
    var carry: seq<byte> := [];
    var atEof := true;
    ScanStart(q, file);

    while at > 0
      invariant at + |carry| <= |file| && carry == file[at..at + |carry|] && NL !in carry
      invariant Pending(q, file, at + |carry|, atEof, out, seen)
    {
      var readSize := Min(chunk, at);
      ghost var stop := at + |carry|;
      at := at - readSize;
      var buf := file[at..at + readSize] + carry;
      assert buf == file[at..stop];

      var done;
      out, seen, atEof, carry, done := ScanChunk(q, file, at, buf, readSize, out, seen, atEof);
      if done {
        return out, at, seen;
      }
    }

    pos, examined := 0, seen;
    assert file[..|carry|] == carry;
    FirstLineStep(q, file, carry, atEof, out, seen);
    if carry != [] {
      out := Push(q, out, carry);
      examined := seen + 1;
    }
  }

  /** The walk through one chunk: report every complete line in it, leave the rest as the carry. */
  method ScanChunk(q: Query, ghost file: seq<byte>, ghost at: nat, buf: seq<byte>, ghost added: nat,
                   out0: seq<string>, seen0: nat, atEof0: bool)
    returns (out: seq<string>, seen: nat, atEof: bool, carry: seq<byte>, done: bool)
    requires 0 < added <= |buf| && NL !in buf[added..]
    requires at + |buf| <= |file| && buf == file[at..at + |buf|]
    requires Pending(q, file, at + |buf|, atEof0, out0, seen0)
    ensures done ==> out == Emit(q, Rest(file, true), [], 0)
    ensures done ==> seen <= |Rest(file, true)| && exists nl ::
      && at <= nl < at + added && nl < |file| && file[nl] == NL
      && Rest(file, true)[seen..] == Rest(file[..nl], false)
    ensures !done ==> |carry| <= |buf| && carry == buf[..|carry|] && NL !in carry
    ensures !done ==> Pending(q, file, at + |carry|, atEof, out, seen)
  {
    hide Pending, Emit, Rest, Push, LastNewline, Enough;
    out, seen, atEof, carry, done := out0, seen0, atEof0, [], false;
    var end: nat := |buf|;
    var nl := LastNewline(buf[..end]);
    while nl.Some?
      invariant end <= |buf| && nl == LastNewline(buf[..end])
      invariant Pending(q, file, at + end, atEof, out, seen)
      decreases end
    {
      var raw := buf[nl.value + 1..end];
      NewlineInChunk(file, at, buf, end, nl.value);
      assert nl.value < added;
      if !(atEof && raw == []) {
        LineStep(q, file, at + end, atEof, out, seen, at + nl.value);
        seen := seen + 1;
        out := Push(q, out, raw);
        done := Enough(q, out, seen);
      } else {
        SkipStep(q, file, at + end, out, seen, at + nl.value);
      }
      atEof := false;
      end := nl.value;
      if done {
        assert Stopped(q, file, at + end, out, seen);
        return;
      }
      nl := LastNewline(buf[..end]);
    }
    carry := buf[..end];
  }

  // ---------------------------------------------------------------- what is returned

  /** The needle stands somewhere in the text. */
  ghost predicate Occurs(needle: string, text: string) {
    exists i :: 0 <= i <= |text| && needle <= text[i..]
  }

  /** The search finds a needle exactly where one stands. */
  lemma {:induction false} ContainsExactly(text: string, needle: string)
    ensures Contains(text, needle) <==> Occurs(needle, text)
  {
    assert text[0..] == text;
    if text != "" {
      ContainsExactly(text[1..], needle);
      if Occurs(needle, text[1..]) {
        var i :| 0 <= i <= |text[1..]| && needle <= text[1..][i..];
        assert text[1..][i..] == text[i + 1..];
      }
      if Occurs(needle, text) {
        var i :| 0 <= i <= |text| && needle <= text[i..];
        if i > 0 {
          assert text[1..][i - 1..] == text[i..];
        }
      }
    }
  }

  /** One carriage return at the end is removed, and nothing else. */
  lemma StripCrExactly(line: string)
    ensures StripCr(line + "\r") == line
    ensures (line == "" || line[|line| - 1] != '\r') ==> StripCr(line) == line
  {}

  /** A needle filters exactly when something but blanks is left of it after lower-casing, and filters by that. */
  lemma {:induction false} NeedleExactly(lower: string -> string, needle: Option<string>)
    ensures EffectiveNeedle(lower, needle).Some?
       <==> needle.Some? && exists i :: 0 <= i < |lower(needle.value)| && !IsSpace(lower(needle.value)[i])
    ensures EffectiveNeedle(lower, needle).Some? ==> EffectiveNeedle(lower, needle).value == lower(needle.value)
  {
    if needle.Some? {
      TrimBlankExactly(lower(needle.value));
    }
  }

  /** A line is wanted when there is no needle, or when the needle stands in the line as it is shown, lower-cased. */
  ghost predicate Matches(q: Query, raw: seq<byte>) {
    q.needle.Some? ==> Occurs(q.needle.value, q.lower(StripCr(q.decode(raw))))
  }

  /** `picks` are the positions, in order, of the first `max` elements that match. */
  ghost predicate FirstMatches(q: Query, lines: seq<seq<byte>>, max: nat, picks: seq<nat>) {
    |picks| <= max && AllMatch(q, lines, picks) && Increasing(picks) && NoneLeftOut(q, lines, max, picks)
  }

  ghost predicate AllMatch(q: Query, lines: seq<seq<byte>>, picks: seq<nat>) {
    forall i :: 0 <= i < |picks| ==> picks[i] < |lines| && Matches(q, lines[picks[i]])
  }

  ghost predicate Increasing(picks: seq<nat>) {
    forall i, j :: 0 <= i < j < |picks| ==> picks[i] < picks[j]
  }

  /** A matching element that is not picked comes after `max` picks. */
  ghost predicate NoneLeftOut(q: Query, lines: seq<seq<byte>>, max: nat, picks: seq<nat>) {
    forall p: nat :: p < |lines| && Matches(q, lines[p]) && p !in picks ==> |picks| == max && AllBefore(picks, p)
  }

  ghost predicate AllBefore(picks: seq<nat>, p: nat) {
    forall i :: 0 <= i < |picks| ==> picks[i] < p
  }

  lemma WantedExactly(q: Query, raw: seq<byte>)
    ensures Wanted(q, raw) <==> Matches(q, raw)
    ensures Shown(q, raw) == StripCr(q.decode(raw))
  {
    if q.needle.Some? {
      ContainsExactly(q.lower(Shown(q, raw)), q.needle.value);
    }
  }

  lemma {:induction false} FilteredPicks(q: Query, lines: seq<seq<byte>>, max: nat) returns (picks: seq<nat>)
    ensures FirstMatches(q, lines, max, picks)
    ensures |picks| == |Take(Filtered(q, lines), max)|
    ensures forall i :: 0 <= i < |picks| ==> Take(Filtered(q, lines), max)[i] == StripCr(q.decode(lines[picks[i]]))
  {
    hide Wanted, Shown, Matches, StripCr, Filtered, Take, Increasing, NoneLeftOut;
    if lines == [] || max == 0 {
      picks := [];
      NoPicks(q, lines, max);
    } else {
      var here := Matches(q, lines[0]);
      var rest := FilteredPicks(q, lines[1..], if here then max - 1 else max);
      var later := seq(|rest|, i requires 0 <= i < |rest| => rest[i] + 1);
      picks := (if here then [0] else []) + later;
      PicksCons(q, lines, max, here, rest, later);
      TakeFiltered(q, lines, max, here);
      assert forall i :: 0 <= i < |rest| ==> lines[later[i]] == lines[1..][rest[i]];
    }
  }

  lemma NoPicks(q: Query, lines: seq<seq<byte>>, max: nat)
    requires lines == [] || max == 0
    ensures FirstMatches(q, lines, max, []) && Take(Filtered(q, lines), max) == []
  {
    hide Wanted, Shown, Matches;
  }

  lemma TakeFiltered(q: Query, lines: seq<seq<byte>>, max: nat, here: bool)
    requires lines != [] && max > 0 && here == Matches(q, lines[0])
    ensures Take(Filtered(q, lines), max)
         == (if here then [StripCr(q.decode(lines[0]))] else []) + Take(Filtered(q, lines[1..]), if here then max - 1 else max)
  {
    hide Wanted, Shown, Matches, StripCr;
    WantedExactly(q, lines[0]);
  }

  lemma PicksCons(q: Query, lines: seq<seq<byte>>, max: nat, here: bool, rest: seq<nat>, later: seq<nat>)
    requires lines != [] && max > 0 && here == Matches(q, lines[0])
    requires FirstMatches(q, lines[1..], if here then max - 1 else max, rest)
    requires |later| == |rest| && forall i :: 0 <= i < |rest| ==> later[i] == rest[i] + 1
    ensures FirstMatches(q, lines, max, (if here then [0] else []) + later)
  {
    hide AllMatch, Increasing, NoneLeftOut;
    PicksMatch(q, lines, here, rest, later);
    PicksIncrease(here, rest, later);
    PicksComplete(q, lines, max, here, rest, later);
  }

  lemma PicksMatch(q: Query, lines: seq<seq<byte>>, here: bool, rest: seq<nat>, later: seq<nat>)
    requires lines != [] && here == Matches(q, lines[0]) && AllMatch(q, lines[1..], rest)
    requires |later| == |rest| && forall i :: 0 <= i < |rest| ==> later[i] == rest[i] + 1
    ensures AllMatch(q, lines, (if here then [0] else []) + later)
  {
    hide Matches;
    var picks: seq<nat> := (if here then [0] else []) + later;
    var k := |picks| - |rest|;
    forall i | 0 <= i < |picks| ensures picks[i] < |lines| && Matches(q, lines[picks[i]]) {
      if i >= k {
        assert lines[picks[i]] == lines[1..][rest[i - k]];
      }
    }
  }

  lemma PicksIncrease(here: bool, rest: seq<nat>, later: seq<nat>)
    requires Increasing(rest) && |later| == |rest| && forall i :: 0 <= i < |rest| ==> later[i] == rest[i] + 1
    ensures Increasing((if here then [0] else []) + later)
  {}

  lemma PicksComplete(q: Query, lines: seq<seq<byte>>, max: nat, here: bool, rest: seq<nat>, later: seq<nat>)
    requires lines != [] && max > 0 && here == Matches(q, lines[0])
    requires NoneLeftOut(q, lines[1..], if here then max - 1 else max, rest)
    requires |later| == |rest| && forall i :: 0 <= i < |rest| ==> later[i] == rest[i] + 1
    ensures NoneLeftOut(q, lines, max, (if here then [0] else []) + later)
  {
    hide Matches, AllBefore;
    var picks: seq<nat> := (if here then [0] else []) + later;
    forall p: nat | p < |lines| && Matches(q, lines[p]) && p !in picks ensures |picks| == max && AllBefore(picks, p) {
      assert here ==> picks[0] == 0;
      assert p > 0;
      assert lines[p] == lines[1..][p - 1];
      NotPicked(here, rest, later, p);
      AllStillBefore(here, rest, later, p);
    }
  }

  lemma NotPicked(here: bool, rest: seq<nat>, later: seq<nat>, p: nat)
    requires |later| == |rest| && forall i :: 0 <= i < |rest| ==> later[i] == rest[i] + 1
    requires p > 0 && p !in (if here then [0] else []) + later
    ensures p - 1 !in rest
  {
    forall i | 0 <= i < |rest| ensures rest[i] != p - 1 {
      assert later[i] in (if here then [0] else []) + later;
    }
  }

  lemma AllStillBefore(here: bool, rest: seq<nat>, later: seq<nat>, p: nat)
    requires |later| == |rest| && forall i :: 0 <= i < |rest| ==> later[i] == rest[i] + 1
    requires p > 0
    ensures AllBefore(rest, p - 1) ==> AllBefore((if here then [0] else []) + later, p)
  {}

  /** Which lines come back: of the lines of the file, newest first and no more of them than the limit, the first
    * `take` in which the needle occurs, each decoded and without its carriage return.
    */
  lemma TailMeaning(q: Query, file: seq<byte>) returns (picks: seq<nat>)
    ensures var newest := Take(Reverse(LinesOf(file)), LineLimit(q));
      && FirstMatches(q, newest, Max(1, q.take), picks)
      && |picks| == |TailSpec(q, file)|
      && forall i :: 0 <= i < |picks| ==> TailSpec(q, file)[i] == StripCr(q.decode(newest[picks[i]]))
  {
    hide FirstMatches, Filtered;
    picks := FilteredPicks(q, Take(Reverse(LinesOf(file)), LineLimit(q)), Max(1, q.take));
  }

  // ---------------------------------------------------------------- limits of zero

  /** The promise "up to `take` lines" holds exactly when `take` is positive or the newest line is
    * not wanted: the limit is tested only after a line has been pushed.
    */
  lemma AtMostTakeExactly(q: Query, file: seq<byte>)
    ensures |TailSpec(q, file)| <= q.take
       <==> q.take > 0 || LinesOf(file) == [] || !Wanted(q, LinesOf(file)[|LinesOf(file)| - 1])
  {
    var lines := LinesOf(file);
    if q.take == 0 && lines != [] {
      ReverseEnds(lines);
      var newest := Reverse(lines)[0];
      assert Take(Reverse(lines), 1) == [newest] + [];
      FilteredCons(q, newest, []);
    }
  }

  // ---------------------------------------------------------------- the path fallback

  /** A candidate path as the scan meets it: absent, not readable, or readable with this content. */
  datatype Candidate = Missing | Unreadable | Readable(content: seq<byte>)

  function Answer(q: Query, c: Candidate): seq<string> {
    match c
    case Readable(content) => TailSpec(q, content)
    case _ => []
  }

  /** A needle that is blank after lower-casing filters nothing. */
  function EffectiveNeedle(lower: string -> string, needle: Option<string>): Option<string> {
    match needle
    case None => None
    case Some(n) => if Trim(lower(n)) == "" then None else Some(lower(n))
  }

  /** The answer of the first candidate that has one to give. A file that exists but shows no line is passed
    * over like a missing one.
    */
  function Fallback(q: Query, paths: seq<Candidate>): seq<string> {
    if paths == [] then []
    else if Answer(q, paths[0]) != [] then Answer(q, paths[0])
    else Fallback(q, paths[1..])
  }

  lemma {:induction false} FallbackFrom(q: Query, paths: seq<Candidate>, i: nat)
    requires i <= |paths| && forall j :: 0 <= j < i ==> Answer(q, paths[j]) == []
    ensures Fallback(q, paths) == Fallback(q, paths[i..])
  {
    hide TailSpec;
    if i > 0 {
      FallbackFrom(q, paths[1..], i - 1);
      assert paths[1..][i - 1..] == paths[i..];
    } else {
      assert paths[0..] == paths;
    }
  }

  lemma {:induction false} FallbackEmpty(q: Query, paths: seq<Candidate>)
    ensures Fallback(q, paths) == [] <==> forall i :: 0 <= i < |paths| ==> Answer(q, paths[i]) == []
  {
    hide TailSpec;
    if paths != [] {
      FallbackEmpty(q, paths[1..]);
      assert forall i :: 1 <= i < |paths| ==> paths[i] == paths[1..][i - 1];
    }
  }

  /** `tail_filtered`. */
  method TailFiltered(q: Query, paths: seq<Candidate>, chunk: nat) returns (lines: seq<string>)
    requires chunk >= 1
    ensures lines == Fallback(q.(needle := EffectiveNeedle(q.lower, q.needle)), paths)
  {
    hide TailSpec, EffectiveNeedle, Rest, Fallback;
    var q' := q.(needle := EffectiveNeedle(q.lower, q.needle));
    for i := 0 to |paths|
      invariant forall j :: 0 <= j < i ==> Answer(q', paths[j]) == []
    {
      if paths[i].Readable? {
        var found, _, _ := ReverseTail(q', paths[i].content, chunk);
        if found != [] {
          FallbackAt(q', paths, i);
          return found;
        }
      }
    }
    FallbackEmpty(q', paths);
    lines := [];
  }

  lemma FallbackAt(q: Query, paths: seq<Candidate>, i: nat)
    requires i < |paths| && forall j :: 0 <= j < i ==> Answer(q, paths[j]) == []
    ensures Answer(q, paths[i]) != [] ==> Fallback(q, paths) == Answer(q, paths[i])
    ensures Answer(q, paths[i]) == [] ==> Fallback(q, paths) == Fallback(q, paths[i + 1..])
  {
    hide TailSpec;
    FallbackFrom(q, paths, i);
    assert paths[i..][0] == paths[i] && paths[i..][1..] == paths[i + 1..];
  }

  /** "From the first existing path" holds exactly when that path has an answer or no later one has. */
  lemma FirstExistingExactly(q: Query, paths: seq<Candidate>, i: nat)
    requires i < |paths| && !paths[i].Missing? && forall j :: 0 <= j < i ==> paths[j].Missing?
    ensures Fallback(q, paths) == Answer(q, paths[i])
       <==> Answer(q, paths[i]) != [] || forall j :: i < j < |paths| ==> Answer(q, paths[j]) == []
  {
    hide TailSpec, Fallback;
    FallbackAt(q, paths, i);
    FallbackEmpty(q, paths[i + 1..]);
    var later := paths[i + 1..];
    assert forall j :: i < j < |paths| ==> paths[j] == later[j - i - 1];
    assert forall j :: 0 <= j < |later| ==> later[j] == paths[i + 1 + j];
  }

  /** An empty file that exists, and then a path with one line: the line comes from the second path. */
  lemma SecondPathAnswers(q: Query)
    requires q.needle == None
    ensures Fallback(q, [Readable([]), Readable([65])]) == [Shown(q, [65])] != Answer(q, Readable([]))
  {
    var paths := [Readable([]), Readable([65])];
    SplitPlain([]);
    SplitPlain([65]);
    assert LinesOf([]) == [] && LinesOf([65]) == [[65]];
    assert Reverse([[65 as byte]]) == Reverse([[65 as byte]][1..]) + [[65]];
    FilteredCons(q, [65], []);
    assert TailSpec(q, [65]) == [Shown(q, [65])];
    assert paths[1..] == [Readable([65])];
  }
}
