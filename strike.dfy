/**
 * `strike_through`: markdown strike-through `~~x~~` rewritten, line by line, to
 * the HTML span `<s>x</s>`. Markers are paired by position: a line is split at
 * `~~` and every odd-indexed piece is wrapped, so an unmatched last marker
 * wraps the rest of its line.
 */
module Strike {
  import opened Text

  const Marker: string := "~~"
  const Newline: string := "\n"

  /** The pieces of a split line, odd-indexed ones wrapped in `<s>`…`</s>`. */
  function Marked(segs: seq<string>): (ms: seq<string>)
    ensures |ms| == |segs|
  {
    seq(|segs|, i requires 0 <= i < |segs| => if i % 2 == 0 then segs[i] else "<s>" + segs[i] + "</s>")
  }

  /** One line after the rewrite; a line without a marker is left alone. */
  function StrikeLine(line: string): (r: string)
  {
    if !Contains(line, Marker) then line else Concat(Marked(Split(line, Marker)))
  }

  function StrikeLines(lines: seq<string>): (out: seq<string>)
    ensures |out| == |lines|
  {
    seq(|lines|, i requires 0 <= i < |lines| => StrikeLine(lines[i]))
  }

  /** The whole text after the rewrite: split at newlines, rewrite each line, join. */
  function Struck(text: string): (r: string)
  {
    Join(StrikeLines(Split(text, Newline)), Newline)
  }

  /** The inner loop: the pieces of one line, odd-indexed ones wrapped. */
  method MarkPieces(segs: seq<string>) returns (parts: seq<string>)
    ensures parts == Marked(segs)
  {
    parts := [];
    var k := 0;
    while k < |segs|
      invariant 0 <= k <= |segs|
      invariant parts == Marked(segs)[..k]
    {
      if k % 2 == 0 {
        parts := parts + [segs[k]];
      } else {
        parts := parts + ["<s>" + segs[k] + "</s>"];
      }
      k := k + 1;
    }
  }

  /** The source's loop: each line holding a marker is overwritten in place. */
  method StrikeThrough(text: string) returns (result: string)
    ensures result == Struck(text)
  {
    var lines := Split(text, Newline);
    ghost var original := lines;
    var i := 0;
    while i < |lines|
      invariant 0 <= i <= |lines| == |original|
      invariant forall j :: 0 <= j < i ==> lines[j] == StrikeLine(original[j])
      invariant forall j :: i <= j < |lines| ==> lines[j] == original[j]
    {
      var line := lines[i];
      if Contains(line, Marker) {
        var parts := MarkPieces(Split(line, Marker));
        lines := lines[i := Concat(parts)];
      }
      i := i + 1;
    }
    assert lines == StrikeLines(original);
    result := Join(lines, Newline);
  }

  // ---------------------------------------------------------------------------
  // What the rewrite promises

  /** Text without a marker comes back unchanged. */
  lemma StruckUnchanged(text: string)
    requires !Contains(text, Marker)
    ensures Struck(text) == text
  {
    var lines := Split(text, Newline);
    SplitPartsInherit(text, Newline, Marker);
    assert StrikeLines(lines) == lines;
    SplitJoin(text, Newline);
  }

  /** Lines are rewritten one by one: a newline splits the rewrite in two. */
  lemma StruckAppend(p: string, r: string)
    ensures Struck(p + Newline + r) == Struck(p) + Newline + Struck(r)
  {
    var a, b := Split(p, Newline), Split(r, Newline);
    SplitConcatChar(p, r, '\n');
    assert StrikeLines(a + b) == StrikeLines(a) + StrikeLines(b);
    JoinAppend(StrikeLines(a), StrikeLines(b), Newline);
  }

  /** A rewritten line holds no newline when the original line held none. */
  lemma StrikeLineNoNewline(line: string)
    requires '\n' !in line
    ensures '\n' !in StrikeLine(line)
  {
    if Contains(line, Marker) {
      var segs := Split(line, Marker);
      ContainsChar(line, '\n');
      SplitPartsInherit(line, Marker, Newline);
      forall i | 0 <= i < |segs| ensures '\n' !in segs[i] {
        ContainsChar(segs[i], '\n');
      }
      ConcatNoChar(Marked(segs), '\n');
    }
  }

  lemma {:induction false} ConcatNoChar(parts: seq<string>, c: char)
    requires forall i :: 0 <= i < |parts| ==> c !in parts[i]
    ensures c !in Concat(parts)
    decreases |parts|
  {
    if |parts| > 1 {
      ConcatNoChar(parts[1..], c);
    }
  }

  /** The rewrite keeps the number of lines, and rewrites the i-th line into the i-th line. */
  lemma StruckLines(text: string)
    ensures Split(Struck(text), Newline) == StrikeLines(Split(text, Newline))
    ensures |Split(Struck(text), Newline)| == |Split(text, Newline)|
  {
    var lines := Split(text, Newline);
    SplitPartsFree(text, Newline);
    forall i | 0 <= i < |lines| ensures '\n' !in StrikeLines(lines)[i] {
      ContainsChar(lines[i], '\n');
      StrikeLineNoNewline(lines[i]);
    }
    JoinSplit(StrikeLines(lines), '\n');
  }

  /** Neither piece holds a marker, and the seam cannot form one. */
  lemma NoMarkerAcross(a: string, b: string)
    requires !Contains(a, Marker) && !Contains(b, Marker)
    requires a == [] || a[|a| - 1] != '~' || b == [] || b[0] != '~'
    ensures !Contains(a + b, Marker)
  {
    if Contains(a + b, Marker) {
      ContainsPairConcat(a, b, '~', '~');
    }
  }

  /** A wrapped piece holds no marker when the piece held none. */
  lemma WrappedNoMarker(seg: string)
    requires !Contains(seg, Marker)
    ensures !Contains("<s>" + seg + "</s>", Marker)
  {
    ContainsNoLead("<s>", Marker);
    ContainsNoLead("</s>", Marker);
    NoMarkerAcross("<s>", seg);
    NoMarkerAcross("<s>" + seg, "</s>");
  }

  /**
   * The pieces of a split line joined back with their odd pieces wrapped: no
   * marker survives, because no piece holds one, every piece but the last
   * stops short of a `~` and wrapped pieces end in `>`.
   */
  lemma {:induction false} MarkedNoMarker(segs: seq<string>, ms: seq<string>, k: nat)
    requires |segs| == |ms| && k <= |ms|
    requires forall i :: 0 <= i < |segs| ==> !Contains(segs[i], Marker)
    requires forall i :: 0 <= i < |segs| - 1 ==> !Contains(segs[i] + "~", Marker)
    requires forall i :: 0 <= i < |ms| ==> ms[i] == if i % 2 == 0 then segs[i] else "<s>" + segs[i] + "</s>"
    ensures !Contains(Concat(ms[k..]), Marker)
    decreases |ms| - k
  {
    if k == |ms| {
      ContainsShort("", Marker);
    } else if k == |ms| - 1 {
      if k % 2 == 1 { WrappedNoMarker(segs[k]); }
      assert ms[k..] == [ms[k]];
    } else {
      MarkedNoMarker(segs, ms, k + 1);
      var rest := Concat(ms[k + 1..]);
      assert ms[k..][1..] == ms[k + 1..];
      assert Concat(ms[k..]) == ms[k] + rest;
      if k % 2 == 1 {
        WrappedNoMarker(segs[k]);
        NoMarkerAcross(ms[k], rest);
      } else {
        var s := segs[k];
        if s != [] && s[|s| - 1] == '~' {
          assert (s + "~")[|s| - 1..] == Marker;
          ContainsInSuffix(s + "~", |s| - 1, Marker);
          assert false;
        }
        NoMarkerAcross(ms[k], rest);
      }
    }
  }

  /** No marker survives in a rewritten line. */
  lemma StrikeLineNoMarker(line: string)
    ensures !Contains(StrikeLine(line), Marker)
  {
    if Contains(line, Marker) {
      var segs := Split(line, Marker);
      SplitPartsFree(line, Marker);
      assert Marker[..|Marker| - 1] == "~";
      MarkedNoMarker(segs, Marked(segs), 0);
      assert Marked(segs)[0..] == Marked(segs);
    }
  }

  lemma {:induction false} JoinLinesNoMarker(lines: seq<string>)
    requires forall i :: 0 <= i < |lines| ==> !Contains(lines[i], Marker)
    ensures !Contains(Join(lines, Newline), Marker)
    decreases |lines|
  {
    if |lines| == 0 {
      ContainsShort("", Marker);
    } else if |lines| > 1 {
      JoinLinesNoMarker(lines[1..]);
      var rest := Join(lines[1..], Newline);
      assert !Contains(Newline, Marker) by {
        ContainsShort(Newline, Marker);
      }
      NoMarkerAcross(Newline, rest);
      NoMarkerAcross(lines[0], Newline + rest);
      assert Join(lines, Newline) == lines[0] + (Newline + rest);
    }
  }

  /** No marker survives anywhere in the rewritten text. */
  lemma StruckNoMarker(text: string)
    ensures !Contains(Struck(text), Marker)
  {
    var out := StrikeLines(Split(text, Newline));
    forall i | 0 <= i < |out| ensures !Contains(out[i], Marker) {
      StrikeLineNoMarker(Split(text, Newline)[i]);
    }
    JoinLinesNoMarker(out);
  }

  /** Rewriting twice is rewriting once. */
  lemma StruckIdempotent(text: string)
    ensures Struck(Struck(text)) == Struck(text)
  {
    StruckNoMarker(text);
    StruckUnchanged(Struck(text));
  }

  lemma NoMarkerThenTilde(p: string)
    requires '~' !in p
    ensures !Contains(p + Marker[..|Marker| - 1], Marker)
  {
    ContainsNoLead(p, Marker);
    ContainsShort("~", Marker);
    NoMarkerAcross(p, "~");
    assert Marker[..|Marker| - 1] == "~";
  }

  lemma ConcatTwo(x: string, y: string)
    ensures Concat([x, y]) == x + y
  {
    assert [x, y][1..] == [y];
    assert Join([x, y], "") == x + "" + Join([y], "");
    assert x + "" == x;
  }

  lemma ConcatThree(x: string, y: string, z: string)
    ensures Concat([x, y, z]) == x + y + z
  {
    assert [x, y, z][1..] == [y, z];
    ConcatTwo(y, z);
    assert Join([x, y, z], "") == x + "" + Join([y, z], "");
    assert x + "" == x;
  }

  lemma PairedSegments(x: string, y: string, z: string)
    requires '~' !in x && '~' !in y && '~' !in z
    ensures Split(x + Marker + y + Marker + z, Marker) == [x, y, z]
  {
    var tail := y + Marker + z;
    assert x + Marker + y + Marker + z == x + Marker + tail;
    ContainsNoLead(z, Marker);
    NoMarkerThenTilde(y);
    NoMarkerThenTilde(x);
    SplitNone(z, Marker);
    SplitAtFirst(y, z, Marker);
    SplitAtFirst(x, tail, Marker);
  }

  /** Paired markers: `x~~y~~z` becomes `x<s>y</s>z` (for instance `a ~~b~~ c` becomes `a <s>b</s> c`). */
  lemma PairedMarkers(x: string, y: string, z: string)
    requires '~' !in x && '~' !in y && '~' !in z
    ensures StrikeLine(x + Marker + y + Marker + z) == x + "<s>" + y + "</s>" + z
  {
    var line := x + Marker + y + Marker + z;
    PairedSegments(x, y, z);
    assert Contains(line, Marker) by {
      assert line[|x|..] == Marker + (y + Marker + z);
      ContainsInSuffix(line, |x|, Marker);
    }
    var m := Marked([x, y, z]);
    assert m == [x, "<s>" + y + "</s>", z];
    ConcatThree(x, "<s>" + y + "</s>", z);
    assert StrikeLine(line) == Concat(Marked(Split(line, Marker)));
  }

  /** An unmatched marker wraps the rest of its line: `x~~y` becomes `x<s>y</s>` (`a ~~b` becomes `a <s>b</s>`). */
  lemma UnmatchedMarker(x: string, y: string)
    requires '~' !in x && '~' !in y
    ensures StrikeLine(x + Marker + y) == x + "<s>" + y + "</s>"
  {
    var line := x + Marker + y;
    ContainsNoLead(y, Marker);
    NoMarkerThenTilde(x);
    SplitNone(y, Marker);
    SplitAtFirst(x, y, Marker);
    assert Split(line, Marker) == [x, y];
    assert Contains(line, Marker) by {
      assert line[|x|..] == Marker + y;
      ContainsInSuffix(line, |x|, Marker);
    }
    var m := Marked([x, y]);
    assert m == [x, "<s>" + y + "</s>"];
    ConcatTwo(x, "<s>" + y + "</s>");
    assert StrikeLine(line) == Concat(Marked(Split(line, Marker)));
  }
}
