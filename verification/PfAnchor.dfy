/** The pf.conf anchor patcher (aifw-api/src/main.rs:1233-1289). */
module PfAnchor {
  import opened Basics

  const NAT_ANCHOR := "nat-anchor \"aifw-nat\""
  const RDR_ANCHOR := "rdr-anchor \"aifw-nat\""
  const FILTER_ANCHOR := "anchor \"aifw\""
  const PBR := "anchor \"aifw-pbr\""
  const LEAK := "anchor \"aifw-mwan-leak\""
  const REPLY := "anchor \"aifw-mwan-reply\""

  /** Some line is `wanted` once the blanks around it are gone. */
  predicate Has(lines: seq<string>, wanted: string) {
    exists i :: 0 <= i < |lines| && Trim(lines[i]) == wanted
  }

  // ---------------------------------------------------------------- specification

  /** After each nat anchor a redirect anchor, unless the file has one anywhere. */
  function WithRdr(lines: seq<string>, hasRdr: bool): seq<string> {
    if lines == [] then []
    else
      [lines[0]]
      + (if Trim(lines[0]) == NAT_ANCHOR && !hasRdr then [RDR_ANCHOR] else [])
      + WithRdr(lines[1..], hasRdr)
  }

  /** The multi-WAN anchors absent from the file, in order. */
  function Missing(lines: seq<string>): seq<string> {
    (if Has(lines, PBR) then [] else [PBR]) +
    (if Has(lines, LEAK) then [] else [LEAK]) +
    (if Has(lines, REPLY) then [] else [REPLY])
  }

  /** The first bare `anchor "aifw"` line, or the length when there is none. */
  function FirstFilter(lines: seq<string>): (k: nat)
    ensures k <= |lines|
    ensures forall i :: 0 <= i < k ==> Trim(lines[i]) != FILTER_ANCHOR
    ensures k < |lines| ==> Trim(lines[k]) == FILTER_ANCHOR
  {
    if lines == [] || Trim(lines[0]) == FILTER_ANCHOR then 0 else 1 + FirstFilter(lines[1..])
  }

  /** The patched file: the multi-WAN anchors that are missing go right before the first filter anchor. */
  function Patched(lines: seq<string>): seq<string> {
    var k := FirstFilter(lines);
    var r := Has(lines, RDR_ANCHOR);
    if k == |lines| then WithRdr(lines, r)
    else WithRdr(lines[..k], r) + Missing(lines) + WithRdr(lines[k..], r)
  }

  // ---------------------------------------------------------------- the code

  lemma {:induction false} WithRdrConcat(a: seq<string>, b: seq<string>, r: bool)
    ensures WithRdr(a + b, r) == WithRdr(a, r) + WithRdr(b, r)
  {
    hide Trim;
    if a == [] {
      assert a + b == b;
    } else {
      assert (a + b)[1..] == a[1..] + b;
      WithRdrConcat(a[1..], b, r);
    }
  }

  lemma WithRdrOne(line: string, r: bool)
    ensures WithRdr([line], r) == [line] + (if Trim(line) == NAT_ANCHOR && !r then [RDR_ANCHOR] else [])
  {
    assert [line][1..] == [];
  }

  lemma {:induction false} WithRdrLength(lines: seq<string>, r: bool)
    ensures |WithRdr(lines, r)| >= |lines|
    ensures |WithRdr(lines, r)| == |lines| ==> WithRdr(lines, r) == lines
    ensures |WithRdr(lines, r)| == |lines| <==> r || !Has(lines, NAT_ANCHOR)
  {
    hide Trim;
    if lines != [] {
      WithRdrLength(lines[1..], r);
      assert Has(lines, NAT_ANCHOR) <==> Trim(lines[0]) == NAT_ANCHOR || Has(lines[1..], NAT_ANCHOR) by {
        HasCons(lines, NAT_ANCHOR);
      }
    }
  }

  lemma HasCons(lines: seq<string>, w: string)
    requires lines != []
    ensures Has(lines, w) <==> Trim(lines[0]) == w || Has(lines[1..], w)
  {
    hide Trim;
    if i :| 0 <= i < |lines| && Trim(lines[i]) == w {
      if i > 0 {
        assert Trim(lines[1..][i - 1]) == w;
      }
    }
    if i :| 0 <= i < |lines[1..]| && Trim(lines[1..][i]) == w {
      assert Trim(lines[i + 1]) == w;
    }
  }

  lemma HasConcat(a: seq<string>, b: seq<string>, w: string)
    ensures Has(a + b, w) <==> Has(a, w) || Has(b, w)
  {
    hide Trim;
    if i :| 0 <= i < |a| && Trim(a[i]) == w {
      assert Trim((a + b)[i]) == w;
    }
    if i :| 0 <= i < |b| && Trim(b[i]) == w {
      assert Trim((a + b)[|a| + i]) == w;
    }
  }

  /** `any` over the lines. */
  method Any(lines: seq<string>, wanted: string) returns (found: bool)
    ensures found == Has(lines, wanted)
  {
    hide Trim;
    for i := 0 to |lines|
      invariant forall j :: 0 <= j < i ==> Trim(lines[j]) != wanted
    {
      if Trim(lines[i]) == wanted {
        return true;
      }
    }
    return false;
  }

  /** The output after the first `i` lines. */
  ghost function UpTo(lines: seq<string>, i: nat): seq<string>
    requires i <= |lines|
  {
    var k := FirstFilter(lines);
    var r := Has(lines, RDR_ANCHOR);
    if k < i then WithRdr(lines[..k], r) + Missing(lines) + WithRdr(lines[k..i], r) else WithRdr(lines[..i], r)
  }

  /** What line `i` adds to the output. */
  ghost function Added(lines: seq<string>, i: nat): seq<string>
    requires i < |lines|
  {
    (if i == FirstFilter(lines) then Missing(lines) else [])
    + [lines[i]]
    + (if Trim(lines[i]) == NAT_ANCHOR && !Has(lines, RDR_ANCHOR) then [RDR_ANCHOR] else [])
  }

  lemma UpToStep(lines: seq<string>, i: nat)
    requires i < |lines|
    ensures UpTo(lines, i + 1) == UpTo(lines, i) + Added(lines, i)
  {
    hide Trim, WithRdr, Has, Missing, FirstFilter;
    var k, r, line := FirstFilter(lines), Has(lines, RDR_ANCHOR), lines[i];
    WithRdrOne(line, r);
    if k <= i {
      assert lines[k..i + 1] == lines[k..i] + [line];
      WithRdrConcat(lines[k..i], [line], r);
      if k == i {
        assert lines[k..i] == [];
        WithRdrNothing(r);
      }
    } else {
      assert lines[..i + 1] == lines[..i] + [line];
      WithRdrConcat(lines[..i], [line], r);
    }
  }

  lemma UpToEnds(lines: seq<string>)
    ensures UpTo(lines, 0) == [] && UpTo(lines, |lines|) == Patched(lines)
  {
    hide Trim, Has, Missing;
    var k := FirstFilter(lines);
    assert lines[..|lines|] == lines && lines[k..|lines|] == lines[k..];
  }

  /** The line loop. `changed` tells whether anything was inserted. */
  method Patch(lines: seq<string>) returns (out: seq<string>, changed: bool)
    ensures out == Patched(lines)
    ensures changed <==> out != lines
  {
    hide Trim, Has, UpTo, Patched, Missing;
    out, changed := [], false;
    var hasRdr := Any(lines, RDR_ANCHOR);
    var hasPbr := Any(lines, PBR);
    var hasLeak := Any(lines, LEAK);
    var hasReply := Any(lines, REPLY);
    var mwanInserted := false;
    DistinctAnchors();
    UpToEnds(lines);
    for i := 0 to |lines|
      invariant mwanInserted <==> FirstFilter(lines) < i
      invariant out == UpTo(lines, i)
      invariant |out| >= i && (changed <==> |out| > i)
    {
      var line := lines[i];
      var t := Trim(line);
      UpToStep(lines, i);
      ghost var before := out;
      if t == NAT_ANCHOR {
        out := out + [line];
        if !hasRdr {
          out := out + [RDR_ANCHOR];
          changed := true;
        }
        assert out == before + Added(lines, i);
      } else if !mwanInserted && t == FILTER_ANCHOR {
        assert i == FirstFilter(lines);
        out, changed := InsertMissing(lines, out, changed, hasPbr, hasLeak, hasReply);
        mwanInserted := true;
        out := out + [line];
        assert out == before + Added(lines, i);
      } else {
        out := out + [line];
        assert out == before + Added(lines, i);
      }
    }
    SameLengthUnchanged(lines);
  }

  /** The three tests at the first filter anchor. */
  method InsertMissing(ghost lines: seq<string>, out0: seq<string>, changed0: bool, hasPbr: bool, hasLeak: bool, hasReply: bool)
    returns (out: seq<string>, changed: bool)
    requires hasPbr == Has(lines, PBR) && hasLeak == Has(lines, LEAK) && hasReply == Has(lines, REPLY)
    ensures out == out0 + Missing(lines)
    ensures changed == (changed0 || Missing(lines) != [])
  {
    hide Has;
    out, changed := out0, changed0;
    if !hasPbr {
      out := out + [PBR];
      changed := true;
    }
    if !hasLeak {
      out := out + [LEAK];
      changed := true;
    }
    if !hasReply {
      out := out + [REPLY];
      changed := true;
    }
  }

  lemma WithRdrNothing(r: bool)
    ensures WithRdr([], r) == []
  {}

  lemma DistinctAnchors()
    ensures NAT_ANCHOR != FILTER_ANCHOR
  {
    assert NAT_ANCHOR[0] == 'n' && FILTER_ANCHOR[0] == 'a';
  }

  /** Nothing inserted means nothing changed, and conversely. */
  lemma SameLengthUnchanged(lines: seq<string>)
    ensures |Patched(lines)| >= |lines|
    ensures |Patched(lines)| == |lines| <==> Patched(lines) == lines
  {
    hide *;
    var k, r := FirstFilter(lines), Has(lines, RDR_ANCHOR);
    PatchedWithoutFilter(lines);
    WithRdrLength(lines, r);
    if k < |lines| {
      var front, back := lines[..k], lines[k..];
      PatchedParts(lines);
      WithRdrLength(front, r);
      WithRdrLength(back, r);
      assert front + back == lines;
      if |Patched(lines)| == |lines| {
        assert WithRdr(front, r) + Missing(lines) + WithRdr(back, r) == front + back;
      }
    }
  }

  lemma PatchedWithoutFilter(lines: seq<string>)
    ensures FirstFilter(lines) == |lines| ==> Patched(lines) == WithRdr(lines, Has(lines, RDR_ANCHOR))
  {
    hide Has, WithRdr, Missing;
  }

  // ---------------------------------------------------------------- counting lines

  function Count(lines: seq<string>, w: string): nat {
    if lines == [] then 0 else (if Trim(lines[0]) == w then 1 else 0) + Count(lines[1..], w)
  }

  lemma {:induction false} CountConcat(a: seq<string>, b: seq<string>, w: string)
    ensures Count(a + b, w) == Count(a, w) + Count(b, w)
  {
    hide Trim;
    if a == [] {
      assert a + b == b;
    } else {
      assert (a + b)[1..] == a[1..] + b;
      CountConcat(a[1..], b, w);
    }
  }

  lemma {:induction false} CountHas(lines: seq<string>, w: string)
    ensures Has(lines, w) <==> Count(lines, w) > 0
  {
    hide Trim, Has;
    if lines == [] {
      HasNothing(w);
    } else {
      HasCons(lines, w);
      CountHas(lines[1..], w);
    }
  }

  lemma HasNothing(w: string)
    ensures !Has([], w)
  {}

  /** The inserted lines carry no blanks of their own. */
  lemma AnchorsTrimmed()
    ensures Trim(RDR_ANCHOR) == RDR_ANCHOR && Trim(PBR) == PBR && Trim(LEAK) == LEAK && Trim(REPLY) == REPLY
  {
    Unblank(RDR_ANCHOR);
    Unblank(PBR);
    Unblank(LEAK);
    Unblank(REPLY);
  }

  lemma Unblank(s: string)
    requires s != "" && !IsSpace(s[0]) && !IsSpace(s[|s| - 1])
    ensures Trim(s) == s
  {}

  lemma AnchorsDiffer()
    ensures PBR != LEAK && PBR != REPLY && LEAK != REPLY
    ensures RDR_ANCHOR !in {PBR, LEAK, REPLY} && NAT_ANCHOR !in {PBR, LEAK, REPLY} && FILTER_ANCHOR !in {PBR, LEAK, REPLY}
    ensures RDR_ANCHOR != NAT_ANCHOR && RDR_ANCHOR != FILTER_ANCHOR
  {
    assert |PBR| == 17 && |LEAK| == 23 && |REPLY| == 24 && |FILTER_ANCHOR| == 13;
    assert PBR[0] == 'a' && LEAK[0] == 'a' && REPLY[0] == 'a' && FILTER_ANCHOR[0] == 'a';
    assert RDR_ANCHOR[0] == 'r' && NAT_ANCHOR[0] == 'n';
  }

  lemma {:induction false} CountWithRdr(lines: seq<string>, r: bool, w: string)
    ensures Count(WithRdr(lines, r), w)
         == Count(lines, w) + (if w == RDR_ANCHOR && !r then Count(lines, NAT_ANCHOR) else 0)
  {
    if lines != [] {
      AnchorsTrimmed();
      hide Trim;
      CountWithRdr(lines[1..], r, w);
      var extra := if Trim(lines[0]) == NAT_ANCHOR && !r then [RDR_ANCHOR] else [];
      CountConcat([lines[0]] + extra, WithRdr(lines[1..], r), w);
      CountConcat([lines[0]], extra, w);
      CountOne(lines[0], w);
      CountOne(RDR_ANCHOR, w);
    }
  }

  lemma CountOne(line: string, w: string)
    ensures Count([line], w) == (if Trim(line) == w then 1 else 0) && Count([], w) == 0
  {
    hide Trim;
    assert [line][1..] == [];
  }

  lemma CountMissing(lines: seq<string>, w: string)
    ensures Count(Missing(lines), w) == if w in {PBR, LEAK, REPLY} && !Has(lines, w) then 1 else 0
  {
    AnchorsTrimmed();
    AnchorsDiffer();
    hide Trim, Has;
    var a := if Has(lines, PBR) then [] else [PBR];
    var b := if Has(lines, LEAK) then [] else [LEAK];
    var c := if Has(lines, REPLY) then [] else [REPLY];
    CountConcat(a + b, c, w);
    CountConcat(a, b, w);
    CountOne(PBR, w);
    CountOne(LEAK, w);
    CountOne(REPLY, w);
  }

  /** How often each line stands in the patched file. A multi-WAN anchor that was missing is there
    * exactly once when there is a filter anchor, whatever was there is there as often as before, and the
    * redirect anchor comes once per nat anchor if it was nowhere.
    */
  lemma CountPatched(lines: seq<string>, w: string)
    ensures Count(Patched(lines), w)
         == Count(lines, w)
          + (if w == RDR_ANCHOR && !Has(lines, RDR_ANCHOR) then Count(lines, NAT_ANCHOR) else 0)
          + (if w in {PBR, LEAK, REPLY} && !Has(lines, w) && Has(lines, FILTER_ANCHOR) then 1 else 0)
  {
    hide Trim, Has, WithRdr, Missing, Count;
    var k, r := FirstFilter(lines), Has(lines, RDR_ANCHOR);
    FilterIsThere(lines);
    CountWithRdr(lines, r, w);
    if k < |lines| {
      CountConcat(WithRdr(lines[..k], r) + Missing(lines), WithRdr(lines[k..], r), w);
      CountConcat(WithRdr(lines[..k], r), Missing(lines), w);
      WithRdrConcat(lines[..k], lines[k..], r);
      assert lines[..k] + lines[k..] == lines;
      CountConcat(WithRdr(lines[..k], r), WithRdr(lines[k..], r), w);
      CountMissing(lines, w);
    }
  }

  lemma FilterIsThere(lines: seq<string>)
    ensures Has(lines, FILTER_ANCHOR) <==> FirstFilter(lines) < |lines|
  {
    hide Trim;
  }

  // ---------------------------------------------------------------- the patch is conservative

  /** `out` with the marked lines deleted. */
  function Unmarked(out: seq<string>, marks: seq<bool>): seq<string>
    requires |marks| == |out|
  {
    if out == [] then [] else (if marks[0] then [] else [out[0]]) + Unmarked(out[1..], marks[1..])
  }

  lemma {:induction false} UnmarkedConcat(a: seq<string>, b: seq<string>, m: seq<bool>, n: seq<bool>)
    requires |m| == |a| && |n| == |b|
    ensures Unmarked(a + b, m + n) == Unmarked(a, m) + Unmarked(b, n)
  {
    if a == [] {
      assert a + b == b && m + n == n;
    } else {
      assert (a + b)[1..] == a[1..] + b && (m + n)[1..] == m[1..] + n;
      UnmarkedConcat(a[1..], b, m[1..], n);
    }
  }

  lemma {:induction false} UnmarkedAll(a: seq<string>)
    ensures Unmarked(a, seq(|a|, _ => true)) == []
  {
    if a != [] {
      assert seq(|a|, _ => true)[1..] == seq(|a[1..]|, _ => true);
      UnmarkedAll(a[1..]);
    }
  }

  ghost predicate MarksOnly(out: seq<string>, marks: seq<bool>, inserted: set<string>) {
    |marks| == |out| && forall i :: 0 <= i < |out| && marks[i] ==> out[i] in inserted
  }

  lemma {:induction false} RdrMarks(lines: seq<string>, r: bool) returns (marks: seq<bool>)
    ensures |marks| == |WithRdr(lines, r)| && Unmarked(WithRdr(lines, r), marks) == lines
    ensures MarksOnly(WithRdr(lines, r), marks, if r then {} else {RDR_ANCHOR})
  {
    hide Trim, Unmarked, MarksOnly;
    marks := [];
    if lines == [] {
      NoMarks(if r then {} else {RDR_ANCHOR});
    } else {
      var rest := RdrMarks(lines[1..], r);
      var inserts := Trim(lines[0]) == NAT_ANCHOR && !r;
      var head := [lines[0]] + (if inserts then [RDR_ANCHOR] else []);
      var m := [false] + (if inserts then [true] else []);
      HeadMarks(lines[0], inserts, if r then {} else {RDR_ANCHOR});
      UnmarkedConcat(head, WithRdr(lines[1..], r), m, rest);
      MarksConcat(head, WithRdr(lines[1..], r), m, rest, if r then {} else {RDR_ANCHOR});
      marks := m + rest;
      assert WithRdr(lines, r) == head + WithRdr(lines[1..], r);
      assert lines == [lines[0]] + lines[1..];
    }
  }

  lemma NoMarks(inserted: set<string>)
    ensures Unmarked([], []) == [] && MarksOnly([], [], inserted)
  {}

  lemma HeadMarks(line: string, inserts: bool, inserted: set<string>)
    requires inserts ==> RDR_ANCHOR in inserted
    ensures var head, m := [line] + (if inserts then [RDR_ANCHOR] else []), [false] + (if inserts then [true] else []);
      |m| == |head| && Unmarked(head, m) == [line] && MarksOnly(head, m, inserted)
  {
    var head, m := [line] + (if inserts then [RDR_ANCHOR] else []), [false] + (if inserts then [true] else []);
    assert head[1..] == (if inserts then [RDR_ANCHOR] else []) && m[1..] == (if inserts then [true] else []);
    UnmarkedAll(head[1..]);
    assert m[1..] == seq(|head[1..]|, _ => true);
  }

  lemma MarksConcat(a: seq<string>, b: seq<string>, m: seq<bool>, n: seq<bool>, inserted: set<string>)
    requires MarksOnly(a, m, inserted) && MarksOnly(b, n, inserted)
    ensures MarksOnly(a + b, m + n, inserted)
  {}

  /** Deleting the inserted lines gives back the input lines in order, and only anchors that the file did
    * not have were inserted.
    */
  lemma PatchConservative(lines: seq<string>) returns (marks: seq<bool>)
    ensures |marks| == |Patched(lines)| && Unmarked(Patched(lines), marks) == lines
    ensures forall i :: 0 <= i < |marks| && marks[i] ==>
      Patched(lines)[i] in {RDR_ANCHOR, PBR, LEAK, REPLY} && !Has(lines, Patched(lines)[i])
  {
    ghost var new' := Absent(lines);
    marks := PatchMarks(lines);
    assert MarksOnly(Patched(lines), marks, new');
  }

  /** The anchors that the file does not have. */
  ghost function Absent(lines: seq<string>): set<string> {
    set w | w in {RDR_ANCHOR, PBR, LEAK, REPLY} && !Has(lines, w)
  }

  lemma PatchMarks(lines: seq<string>) returns (marks: seq<bool>)
    ensures |marks| == |Patched(lines)| && Unmarked(Patched(lines), marks) == lines
    ensures MarksOnly(Patched(lines), marks, Absent(lines))
  {
    hide Trim, Has, WithRdr, Unmarked, MarksOnly, Missing, Absent, FirstFilter;
    var k, r := FirstFilter(lines), Has(lines, RDR_ANCHOR);
    if k == |lines| {
      marks := RdrMarks(lines, r);
      MarksWiden(WithRdr(lines, r), marks, lines);
    } else {
      var front, m, back := WithRdr(lines[..k], r), Missing(lines), WithRdr(lines[k..], r);
      var a := RdrMarks(lines[..k], r);
      var b := RdrMarks(lines[k..], r);
      MarksWiden(front, a, lines);
      MarksWiden(back, b, lines);
      var t := seq(|m|, _ => true);
      UnmarkedAll(m);
      MissingMarks(lines);
      UnmarkedConcat(front, m, a, t);
      UnmarkedConcat(front + m, back, a + t, b);
      MarksConcat(front, m, a, t, Absent(lines));
      MarksConcat(front + m, back, a + t, b, Absent(lines));
      marks := a + t + b;
      assert lines[..k] + [] + lines[k..] == lines;
    }
  }

  lemma MarksWiden(out: seq<string>, marks: seq<bool>, lines: seq<string>)
    requires MarksOnly(out, marks, if Has(lines, RDR_ANCHOR) then {} else {RDR_ANCHOR})
    ensures MarksOnly(out, marks, Absent(lines))
  {
    hide Has;
  }

  lemma MissingMarks(lines: seq<string>)
    ensures MarksOnly(Missing(lines), seq(|Missing(lines)|, _ => true), Absent(lines))
  {
    hide Has;
  }

  /** With a filter anchor in the file, the missing anchors stand, in their fixed order, immediately before
    * the first filter anchor of the result.
    */
  lemma MissingBeforeFilter(lines: seq<string>)
    requires Has(lines, FILTER_ANCHOR)
    ensures var m, at := Missing(lines), FirstFilter(Patched(lines));
      && |m| <= at < |Patched(lines)|
      && Patched(lines)[at - |m|..at] == m
  {
    hide *;
    var k, r := FirstFilter(lines), Has(lines, RDR_ANCHOR);
    FilterIsThere(lines);
    var a, m, b := WithRdr(lines[..k], r), Missing(lines), WithRdr(lines[k..], r);
    NoFilterIn(lines[..k], r);
    WithRdrHead(lines[k..], r);
    MissingNoFilter(lines);
    PatchedParts(lines);
    FirstFilterBetween(a, m, b);
    assert (a + m + b)[|a|..|a| + |m|] == m;
  }

  lemma PatchedParts(lines: seq<string>)
    ensures var k, r := FirstFilter(lines), Has(lines, RDR_ANCHOR);
      k < |lines| ==> Patched(lines) == WithRdr(lines[..k], r) + Missing(lines) + WithRdr(lines[k..], r)
  {
    hide Has, WithRdr, Missing;
  }

  lemma WithRdrHead(lines: seq<string>, r: bool)
    requires lines != []
    ensures |WithRdr(lines, r)| > 0 && WithRdr(lines, r)[0] == lines[0]
  {
    hide Trim;
  }

  lemma MissingNoFilter(lines: seq<string>)
    ensures forall i :: 0 <= i < |Missing(lines)| ==> Trim(Missing(lines)[i]) != FILTER_ANCHOR
  {
    AnchorsTrimmed();
    AnchorsDiffer();
    hide Trim, Has;
  }

  lemma FirstFilterBetween(a: seq<string>, m: seq<string>, b: seq<string>)
    requires forall i :: 0 <= i < |a| ==> Trim(a[i]) != FILTER_ANCHOR
    requires forall i :: 0 <= i < |m| ==> Trim(m[i]) != FILTER_ANCHOR
    requires |b| > 0 && Trim(b[0]) == FILTER_ANCHOR
    ensures FirstFilter(a + m + b) == |a| + |m|
  {
    hide *;
    var out, at := a + m + b, |a| + |m|;
    assert out[at] == b[0];
    forall i | 0 <= i < at ensures Trim(out[i]) != FILTER_ANCHOR {
      if i < |a| {
        assert out[i] == a[i];
      } else {
        assert out[i] == m[i - |a|];
      }
    }
    var f := FirstFilter(out);
    assert f == at;
  }

  lemma {:induction false} NoFilterIn(lines: seq<string>, r: bool)
    requires forall i :: 0 <= i < |lines| ==> Trim(lines[i]) != FILTER_ANCHOR
    ensures forall i :: 0 <= i < |WithRdr(lines, r)| ==> Trim(WithRdr(lines, r)[i]) != FILTER_ANCHOR
  {
    if lines != [] {
      AnchorsTrimmed();
      AnchorsDiffer();
      hide Trim;
      NoFilterIn(lines[1..], r);
    }
  }

  // ---------------------------------------------------------------- a second pass changes nothing

  /** When a pass has nothing to do. */
  lemma UnchangedWhen(lines: seq<string>)
    requires Has(lines, NAT_ANCHOR) ==> Has(lines, RDR_ANCHOR)
    requires Has(lines, FILTER_ANCHOR) ==> Missing(lines) == []
    ensures Patched(lines) == lines
  {
    hide Trim, WithRdr, Missing;
    var k, r := FirstFilter(lines), Has(lines, RDR_ANCHOR);
    FilterIsThere(lines);
    WithRdrLength(lines, r);
    if k < |lines| {
      assert lines == lines[..k] + lines[k..];
      HasConcat(lines[..k], lines[k..], NAT_ANCHOR);
      WithRdrLength(lines[..k], r);
      WithRdrLength(lines[k..], r);
      assert Patched(lines) == lines[..k] + [] + lines[k..];
    }
  }

  /** Any file with the same lines, blanks at their ends aside, as a patched one needs no patch. */
  lemma SecondPassUnchanged(lines: seq<string>, again: seq<string>)
    requires |again| == |Patched(lines)|
    requires forall i :: 0 <= i < |again| ==> Trim(again[i]) == Trim(Patched(lines)[i])
    ensures Patched(again) == again
  {
    hide Trim, Patched, Count;
    var out := Patched(lines);
    AnchorsDiffer();
    forall w: string ensures Has(again, w) == Has(out, w) {
      SameHas(again, out, w);
    }
    forall w: string ensures Has(out, w) <==> Count(out, w) > 0 {
      CountHas(out, w);
    }
    forall w: string ensures Has(lines, w) <==> Count(lines, w) > 0 {
      CountHas(lines, w);
    }
    hide Has;
    CountPatched(lines, NAT_ANCHOR);
    CountPatched(lines, RDR_ANCHOR);
    CountPatched(lines, FILTER_ANCHOR);
    CountPatched(lines, PBR);
    CountPatched(lines, LEAK);
    CountPatched(lines, REPLY);
    UnchangedWhen(again);
  }

  lemma SameHas(a: seq<string>, b: seq<string>, w: string)
    requires |a| == |b| && forall i :: 0 <= i < |a| ==> Trim(a[i]) == Trim(b[i])
    ensures Has(a, w) == Has(b, w)
  {
    hide Trim;
    if i :| 0 <= i < |b| && Trim(b[i]) == w {
      assert Trim(a[i]) == w;
    }
  }

  /** What is written back: the lines joined by newlines, with a newline at the end. */
  function Joined(lines: seq<string>): string {
    if lines == [] then "" else lines[0] + "\n" + Joined(lines[1..])
  }

  lemma {:induction false} LinesOfJoined(lines: seq<string>)
    requires forall i :: 0 <= i < |lines| ==> '\n' !in lines[i]
    ensures |Lines(Joined(lines), '\n', '\r')| == |lines|
    ensures forall i :: 0 <= i < |lines| ==> Lines(Joined(lines), '\n', '\r')[i] == DropFinal(lines[i], '\r')
  {
    if lines != [] {
      LinesOfTerminated(lines[0], Joined(lines[1..]), '\n', '\r');
      assert Joined(lines) == lines[0] + ['\n'] + Joined(lines[1..]);
      assert forall i :: 0 <= i < |lines[1..]| ==> '\n' !in lines[1..][i];
      LinesOfJoined(lines[1..]);
    }
  }

  /** A carriage return before the newline is a blank like any other. */
  lemma TrimDropCr(s: string)
    ensures Trim(DropFinal(s, '\r')) == Trim(s)
  {
    if s != "" && s[|s| - 1] == '\r' {
      TrimSnocSpace(s[..|s| - 1], '\r');
      assert s == s[..|s| - 1] + ['\r'];
    }
  }

  lemma {:induction false} LinesHaveNoNewline(s: string)
    ensures forall i :: 0 <= i < |Lines(s, '\n', '\r')| ==> '\n' !in Lines(s, '\n', '\r')[i]
    decreases |s|
  {
    if s != "" {
      var e := LineEnd(s, '\n');
      if e < |s| {
        LinesHaveNoNewline(s[e + 1..]);
      } else {
        assert s[..e] == s;
      }
    }
  }

  lemma {:induction false} WithRdrNoNewline(lines: seq<string>, r: bool)
    requires forall i :: 0 <= i < |lines| ==> '\n' !in lines[i]
    ensures forall i :: 0 <= i < |WithRdr(lines, r)| ==> '\n' !in WithRdr(lines, r)[i]
  {
    hide Trim;
    if lines != [] {
      WithRdrNoNewline(lines[1..], r);
    }
  }

  lemma PatchedNoNewline(lines: seq<string>)
    requires forall i :: 0 <= i < |lines| ==> '\n' !in lines[i]
    ensures forall i :: 0 <= i < |Patched(lines)| ==> '\n' !in Patched(lines)[i]
  {
    hide Trim, Has, WithRdr;
    var k, r := FirstFilter(lines), Has(lines, RDR_ANCHOR);
    WithRdrNoNewline(lines, r);
    WithRdrNoNewline(lines[..k], r);
    WithRdrNoNewline(lines[k..], r);
    MissingNoNewline(lines);
    var front, m, back := WithRdr(lines[..k], r), Missing(lines), WithRdr(lines[k..], r);
    hide Missing;
    forall i | 0 <= i < |front + m + back| ensures '\n' !in (front + m + back)[i] {
      if i < |front| {
        assert (front + m + back)[i] == front[i];
      } else if i < |front| + |m| {
        assert (front + m + back)[i] == m[i - |front|];
      } else {
        assert (front + m + back)[i] == back[i - |front| - |m|];
      }
    }
  }

  lemma MissingNoNewline(lines: seq<string>)
    ensures forall i :: 0 <= i < |Missing(lines)| ==> '\n' !in Missing(lines)[i]
  {
    hide Has;
  }

  /** Patching, writing the file and patching again finds nothing to do, for every file. */
  lemma PatchIdempotent(content: string)
    ensures var out := Patched(Lines(content, '\n', '\r'));
      var again := Lines(Joined(out), '\n', '\r');
      Patched(again) == again
  {
    hide *;
    var lines := Lines(content, '\n', '\r');
    var out := Patched(lines);
    LinesHaveNoNewline(content);
    PatchedNoNewline(lines);
    LinesOfJoined(out);
    var again := Lines(Joined(out), '\n', '\r');
    forall i | 0 <= i < |again| ensures Trim(again[i]) == Trim(out[i]) {
      TrimDropCr(out[i]);
    }
    SecondPassUnchanged(lines, again);
  }

  /** A file with the two old anchors gains the four new ones, in these places and words. */
  lemma PatchExample()
    ensures Patched(["  nat-anchor \"aifw-nat\"", "anchor \"aifw\""])
         == ["  nat-anchor \"aifw-nat\"", "rdr-anchor \"aifw-nat\"",
             "anchor \"aifw-pbr\"", "anchor \"aifw-mwan-leak\"", "anchor \"aifw-mwan-reply\"", "anchor \"aifw\""]
  {
    var a, b := "  nat-anchor \"aifw-nat\"", "anchor \"aifw\"";
    TrimsAway("  ", NAT_ANCHOR);
    assert a == "  " + NAT_ANCHOR;
    Unblank(b);
    PatchOfTwo(a, b);
  }

  lemma PatchOfTwo(a: string, b: string)
    requires Trim(a) == NAT_ANCHOR && Trim(b) == FILTER_ANCHOR
    ensures Patched([a, b]) == [a, RDR_ANCHOR, PBR, LEAK, REPLY, b]
  {
    AnchorsDiffer();
    DistinctAnchors();
    hide *;
    var lines := [a, b];
    HasTwo(a, b, RDR_ANCHOR);
    HasTwo(a, b, PBR);
    HasTwo(a, b, LEAK);
    HasTwo(a, b, REPLY);
    MissingAll(lines);
    FirstOfTwo(a, b);
    PatchedParts(lines);
    assert lines[..1] == [a] && lines[1..] == [b];
    WithRdrOne(a, false);
    WithRdrOne(b, false);
    assert Patched(lines) == ([a] + [RDR_ANCHOR]) + [PBR, LEAK, REPLY] + ([b] + []);
  }

  lemma HasTwo(a: string, b: string, w: string)
    ensures Has([a, b], w) <==> Trim(a) == w || Trim(b) == w
  {
    hide Trim;
    assert [a, b][0] == a && [a, b][1] == b;
  }

  lemma MissingAll(lines: seq<string>)
    requires !Has(lines, PBR) && !Has(lines, LEAK) && !Has(lines, REPLY)
    ensures Missing(lines) == [PBR, LEAK, REPLY]
  {
    hide Has;
  }

  lemma FirstOfTwo(a: string, b: string)
    requires Trim(a) != FILTER_ANCHOR && Trim(b) == FILTER_ANCHOR
    ensures FirstFilter([a, b]) == 1
  {
    hide Trim;
    assert [a, b][1..] == [b];
  }

  lemma {:induction false} TrimsAway(blanks: string, s: string)
    requires forall i :: 0 <= i < |blanks| ==> blanks[i] == ' '
    requires s != "" && !IsSpace(s[0]) && !IsSpace(s[|s| - 1])
    ensures Trim(blanks + s) == s
  {
    if blanks == "" {
      assert blanks + s == s;
      Unblank(s);
    } else {
      assert (blanks + s)[1..] == blanks[1..] + s;
      TrimsAway(blanks[1..], s);
    }
  }
}
