/**
 * The handful of Python `str` operations the converter relies on, with Python's
 * semantics: `sub in s`, `s.startswith(p)`, `s.split(sep)` for a non-empty
 * separator, `sep.join(parts)`, `s.strip()` and the `%07d` conversion.
 */
module Text {

  /** `prefix` is a prefix of `s` (Python `s.startswith(prefix)`). */
  predicate StartsWith(s: string, prefix: string) {
    |prefix| <= |s| && s[..|prefix|] == prefix
  }

  /** Python `sub in s`. */
  predicate Contains(s: string, sub: string)
    decreases |s|
  {
    StartsWith(s, sub) || (s != [] && Contains(s[1..], sub))
  }

  lemma {:induction false} ContainsShort(s: string, sub: string)
    requires |s| < |sub|
    ensures !Contains(s, sub)
    decreases |s|
  {
    if s != [] {
      ContainsShort(s[1..], sub);
    }
  }

  /** A one-character pattern occurs exactly when that character does. */
  lemma {:induction false} ContainsChar(s: string, c: char)
    ensures Contains(s, [c]) <==> c in s
    decreases |s|
  {
    if s != [] {
      ContainsChar(s[1..], c);
      assert s == [s[0]] + s[1..];
    }
  }

  /** An occurrence inside a prefix is an occurrence in the whole string. */
  lemma {:induction false} ContainsInPrefix(s: string, p: string, x: string)
    requires StartsWith(s, p) && Contains(p, x)
    ensures Contains(s, x)
    decreases |p|
  {
    if StartsWith(p, x) {
      assert s[..|x|] == p[..|x|];
    } else {
      assert p[1..] == s[1..][..|p| - 1];
      ContainsInPrefix(s[1..], p[1..], x);
    }
  }

  /** An occurrence inside a suffix is an occurrence in the whole string. */
  lemma {:induction false} ContainsInSuffix(s: string, k: nat, x: string)
    requires k <= |s| && Contains(s[k..], x)
    ensures Contains(s, x)
    decreases k
  {
    if k > 0 {
      assert s[1..][k - 1..] == s[k..];
      ContainsInSuffix(s[1..], k - 1, x);
    }
  }

  /**
   * A two-character pattern found in `a + b` lies inside `a`, inside `b`, or
   * straddles the seam.
   */
  lemma {:induction false} ContainsPairConcat(a: string, b: string, c: char, d: char)
    requires Contains(a + b, [c, d])
    ensures Contains(a, [c, d]) || Contains(b, [c, d]) || (a != [] && b != [] && a[|a| - 1] == c && b[0] == d)
    decreases |a|
  {
    if a == [] {
      assert a + b == b;
    } else if StartsWith(a + b, [c, d]) {
      if |a| >= 2 {
        assert a[..2] == (a + b)[..2];
      } else {
        assert (a + b)[0] == a[0] && (a + b)[1] == b[0];
      }
    } else {
      assert (a + b)[1..] == a[1..] + b;
      ContainsPairConcat(a[1..], b, c, d);
      if Contains(a[1..], [c, d]) {
        ContainsInSuffix(a, 1, [c, d]);
      }
    }
  }

  /**
   * `s.split(sep)` for a non-empty separator: the string is cut at every
   * leftmost, non-overlapping occurrence of `sep`; there is always at least
   * one part, and no separator is ever lost (see SplitJoin).
   */
  function Split(s: string, sep: string): (parts: seq<string>)
    requires sep != []
    ensures |parts| >= 1
    decreases |s|
  {
    if StartsWith(s, sep) then
      [""] + Split(s[|sep|..], sep)
    else if s == [] then
      [""]
    else
      var rest := Split(s[1..], sep);
      [[s[0]] + rest[0]] + rest[1..]
  }

  /** The first part is where the string starts, and the separator follows it when there is a second part. */
  lemma {:induction false} SplitPrefix(s: string, sep: string)
    requires sep != []
    ensures StartsWith(s, Split(s, sep)[0])
    ensures |Split(s, sep)| > 1 ==> StartsWith(s, Split(s, sep)[0] + sep)
    decreases |s|
  {
    if StartsWith(s, sep) {
      assert Split(s, sep)[0] + sep == sep;
    } else if s != [] {
      SplitPrefix(s[1..], sep);
      SplitStep(s, sep);
      ConsPrefix(s, sep, Split(s[1..], sep));
    }
  }

  /** A first part found in the tail, with the character before it, is found in the whole string. */
  lemma ConsPrefix(s: string, sep: string, rest: seq<string>)
    requires s != [] && |rest| >= 1
    requires StartsWith(s[1..], rest[0])
    requires |rest| > 1 ==> StartsWith(s[1..], rest[0] + sep)
    ensures StartsWith(s, [s[0]] + rest[0])
    ensures |rest| > 1 ==> StartsWith(s, [s[0]] + rest[0] + sep)
  {
    var p := [s[0]] + rest[0];
    assert s[..|p|] == [s[0]] + s[1..][..|rest[0]|];
    if |rest| > 1 {
      assert s[..|p + sep|] == [s[0]] + s[1..][..|rest[0] + sep|];
      ConsAppend(s[0], rest[0], sep);
    }
  }

  /** `sep.join(parts)`. */
  function Join(parts: seq<string>, sep: string): (r: string)
  {
    if |parts| == 0 then ""
    else if |parts| == 1 then parts[0]
    else parts[0] + sep + Join(parts[1..], sep)
  }

  /** `''.join(parts)`. */
  function Concat(parts: seq<string>): (r: string)
  {
    Join(parts, "")
  }

  /** Joining the parts with the separator gives the string back. */
  lemma {:induction false} SplitJoin(s: string, sep: string)
    requires sep != []
    ensures Join(Split(s, sep), sep) == s
    decreases |s|
  {
    if StartsWith(s, sep) {
      SplitJoin(s[|sep|..], sep);
      SplitJoinAtSep(s, sep);
    } else if s != [] {
      SplitJoin(s[1..], sep);
      SplitJoinStep(s, sep);
    }
  }

  /** The step of SplitJoin when the string starts with the separator. */
  lemma SplitJoinAtSep(s: string, sep: string)
    requires sep != [] && StartsWith(s, sep)
    requires Join(Split(s[|sep|..], sep), sep) == s[|sep|..]
    ensures Join(Split(s, sep), sep) == s
  {
    var t := s[|sep|..];
    var rest := Split(t, sep);
    var parts := [""] + rest;
    assert s == sep + t by {
      assert s[..|sep|] == sep && s == s[..|sep|] + t;
    }
    assert Split(s, sep) == parts;
    assert |parts| >= 2 && parts[0] == "" && parts[1..] == rest;
    assert Join(parts, sep) == "" + sep + t;
    assert "" + sep + t == sep + t;
  }

  /** The step of SplitJoin when the string starts with another character. */
  lemma SplitJoinStep(s: string, sep: string)
    requires sep != [] && s != [] && !StartsWith(s, sep)
    requires Join(Split(s[1..], sep), sep) == s[1..]
    ensures Join(Split(s, sep), sep) == s
  {
    SplitStep(s, sep);
    JoinFirst(s[0], Split(s[1..], sep), sep);
    assert s == [s[0]] + s[1..];
  }

  /** A character put in front of the first part ends up in front of the join. */
  lemma JoinFirst(c: char, parts: seq<string>, sep: string)
    requires |parts| >= 1
    ensures Join([[c] + parts[0]] + parts[1..], sep) == [c] + Join(parts, sep)
  {
    var q := [[c] + parts[0]] + parts[1..];
    if |parts| > 1 {
      assert q[1..] == parts[1..];
      assert ([c] + parts[0]) + sep + Join(parts[1..], sep) == [c] + (parts[0] + sep + Join(parts[1..], sep));
    }
  }

  /**
   * No part holds the separator, and a part that is not the last does not even
   * hold it once the separator's first |sep|-1 characters are appended: every
   * cut is at the leftmost occurrence.
   */
  lemma {:induction false} SplitPartsFree(s: string, sep: string)
    requires sep != []
    ensures forall i :: 0 <= i < |Split(s, sep)| ==> !Contains(Split(s, sep)[i], sep)
    ensures forall i :: 0 <= i < |Split(s, sep)| - 1 ==>
              !Contains(Split(s, sep)[i] + sep[..|sep| - 1], sep)
    decreases |s|
  {
    var parts := Split(s, sep);
    if StartsWith(s, sep) {
      SplitPartsFree(s[|sep|..], sep);
      ContainsShort("", sep);
      ContainsShort("" + sep[..|sep| - 1], sep);
      assert forall i :: 1 <= i < |parts| ==> parts[i] == Split(s[|sep|..], sep)[i - 1];
    } else if s == [] {
      ContainsShort("", sep);
    } else {
      var rest := Split(s[1..], sep);
      SplitPartsFree(s[1..], sep);
      SplitPrefix(s[1..], sep);
      assert parts[0] == [s[0]] + rest[0];
      assert forall i :: 1 <= i < |parts| ==> parts[i] == rest[i];
      // the first part: its first position is no occurrence, the rest is rest[0]
      FirstPartFree(s, sep, rest[0]);
      if |rest| > 1 {
        var y := sep[..|sep| - 1];
        var x := rest[0] + y;
        assert x == (rest[0] + sep)[..|x|];
        FirstPartFree(s, sep, x);
        ConsAppend(s[0], rest[0], y);
      }
    }
  }

  lemma ConsAppend(c: char, a: string, b: string)
    ensures ([c] + a) + b == [c] + (a + b)
  {
  }

  lemma FirstPartFree(s: string, sep: string, x: string)
    requires sep != [] && s != [] && !StartsWith(s, sep)
    requires !Contains(x, sep)
    requires StartsWith(s[1..], x)
    ensures !Contains([s[0]] + x, sep)
  {
    var y := [s[0]] + x;
    assert y[1..] == x;
    assert y == s[..|y|];
  }

  /** Parts are pieces of the string, so they cannot hold what it does not. */
  lemma {:induction false} SplitPartsInherit(s: string, sep: string, x: string)
    requires sep != [] && !Contains(s, x)
    ensures forall i :: 0 <= i < |Split(s, sep)| ==> !Contains(Split(s, sep)[i], x)
    decreases |s|
  {
    var parts := Split(s, sep);
    if StartsWith(s, sep) {
      if Contains(s[|sep|..], x) {
        ContainsInSuffix(s, |sep|, x);
      }
      SplitPartsInherit(s[|sep|..], sep, x);
      if Contains("", x) {
        ContainsInPrefix(s, "", x);
      }
      assert forall i :: 1 <= i < |parts| ==> parts[i] == Split(s[|sep|..], sep)[i - 1];
    } else if s != [] {
      var rest := Split(s[1..], sep);
      SplitPartsInherit(s[1..], sep, x);
      assert forall i :: 1 <= i < |parts| ==> parts[i] == rest[i];
      if Contains(parts[0], x) {
        SplitPrefix(s, sep);
        ContainsInPrefix(s, parts[0], x);
      }
    }
  }

  /** A string without the separator is a single part. */
  lemma {:induction false} SplitNone(s: string, sep: string)
    requires sep != [] && !Contains(s, sep)
    ensures Split(s, sep) == [s]
    decreases |s|
  {
    if s != [] {
      SplitNone(s[1..], sep);
      assert s == [s[0]] + s[1..];
    }
  }

  /**
   * Cutting at the leftmost occurrence: when `p` followed by all but the last
   * character of `sep` holds no `sep`, the first part of `p + sep + t` is `p`.
   */
  lemma {:induction false} SplitAtFirst(p: string, t: string, sep: string)
    requires sep != [] && !Contains(p + sep[..|sep| - 1], sep)
    ensures Split(p + sep + t, sep) == [p] + Split(t, sep)
    decreases |p|
  {
    var s := p + sep + t;
    if p == [] {
      assert s == sep + t;
      SplitAtStart(t, sep);
    } else {
      NotAtStart(p, t, sep);
      assert !Contains(p[1..] + sep[..|sep| - 1], sep) by {
        var q := p + sep[..|sep| - 1];
        assert q[1..] == p[1..] + sep[..|sep| - 1];
      }
      SplitAtFirst(p[1..], t, sep);
      assert s[1..] == p[1..] + sep + t;
      SplitStep(s, sep);
      assert [s[0]] + p[1..] == p;
    }
  }

  lemma SplitAtStart(t: string, sep: string)
    requires sep != []
    ensures Split(sep + t, sep) == [""] + Split(t, sep)
  {
    assert StartsWith(sep + t, sep);
    assert (sep + t)[|sep|..] == t;
  }

  /** Where the string does not start with the separator, its first character joins the first part. */
  lemma SplitStep(s: string, sep: string)
    requires sep != [] && s != [] && !StartsWith(s, sep)
    ensures Split(s, sep) == [[s[0]] + Split(s[1..], sep)[0]] + Split(s[1..], sep)[1..]
  {
  }

  lemma NotAtStart(p: string, t: string, sep: string)
    requires sep != [] && p != [] && !Contains(p + sep[..|sep| - 1], sep)
    ensures !StartsWith(p + sep + t, sep)
  {
    var q := p + sep[..|sep| - 1];
    var s := p + sep + t;
    assert q[..|sep|] == s[..|sep|];
  }

  /** A string in which the pattern's first character never occurs does not hold the pattern. */
  lemma {:induction false} ContainsNoLead(s: string, sub: string)
    requires sub != [] && sub[0] !in s
    ensures !Contains(s, sub)
    decreases |s|
  {
    if s != [] {
      ContainsNoLead(s[1..], sub);
    }
  }

  /** Cutting at a one-character separator: the text up to its first occurrence is the first part. */
  lemma SplitAtChar(p: string, t: string, c: char)
    requires c !in p
    ensures Split(p + [c] + t, [c]) == [p] + Split(t, [c])
    ensures Split(p, [c]) == [p]
  {
    ContainsChar(p, c);
    assert p + [c][..0] == p;
    SplitAtFirst(p, t, [c]);
    SplitNone(p, [c]);
  }

  /** Splitting a join at a one-character separator the parts do not contain gives the parts back. */
  lemma {:induction false} JoinSplit(parts: seq<string>, c: char)
    requires |parts| >= 1
    requires forall i :: 0 <= i < |parts| ==> c !in parts[i]
    ensures Split(Join(parts, [c]), [c]) == parts
    decreases |parts|
  {
    if |parts| == 1 {
      SplitAtChar(parts[0], "", c);
    } else {
      JoinSplit(parts[1..], c);
      SplitAtChar(parts[0], Join(parts[1..], [c]), c);
    }
  }

  /** Cutting at a one-character separator splits each side of one occurrence on its own. */
  lemma {:induction false} SplitConcatChar(p: string, r: string, c: char)
    ensures Split(p + [c] + r, [c]) == Split(p, [c]) + Split(r, [c])
    decreases |p|
  {
    if p == [] {
      assert p + [c] + r == [c] + r;
      SplitAtStart(r, [c]);
    } else {
      SplitConcatChar(p[1..], r, c);
      if p[0] == c {
        SplitConcatSep(p, r, c);
      } else {
        SplitConcatOther(p, r, c);
      }
    }
  }

  /** The step of SplitConcatChar when the text starts with the separator. */
  lemma SplitConcatSep(p: string, r: string, c: char)
    requires p != [] && p[0] == c
    requires Split(p[1..] + [c] + r, [c]) == Split(p[1..], [c]) + Split(r, [c])
    ensures Split(p + [c] + r, [c]) == Split(p, [c]) + Split(r, [c])
  {
    LeadingChar(p, c, r);
    SplitAtStart(p[1..] + [c] + r, [c]);
    SplitAtStart(p[1..], [c]);
    EmptyFirstPart(Split(p[1..], [c]), Split(r, [c]));
  }

  lemma LeadingChar(p: string, c: char, r: string)
    requires p != []
    ensures p + [c] + r == [p[0]] + (p[1..] + [c] + r)
    ensures p == [p[0]] + p[1..]
  {
  }

  lemma EmptyFirstPart(y: seq<string>, z: seq<string>)
    ensures [""] + (y + z) == ([""] + y) + z
  {
  }

  /** The step of SplitConcatChar when the text starts with another character. */
  lemma SplitConcatOther(p: string, r: string, c: char)
    requires p != [] && p[0] != c
    requires Split(p[1..] + [c] + r, [c]) == Split(p[1..], [c]) + Split(r, [c])
    ensures Split(p + [c] + r, [c]) == Split(p, [c]) + Split(r, [c])
  {
    var s := p + [c] + r;
    assert s[0] == p[0] && s[1..] == p[1..] + [c] + r;
    NotStartsWithChar(s, c);
    NotStartsWithChar(p, c);
    SplitStep(s, [c]);
    SplitStep(p, [c]);
    FirstPartGrows(p[0], Split(p[1..], [c]), Split(r, [c]), Split(s[1..], [c]));
  }

  lemma NotStartsWithChar(s: string, c: char)
    requires s != [] && s[0] != c
    ensures !StartsWith(s, [c])
  {
    assert s[..1] == [s[0]];
  }

  /** Prepending a character to the first part commutes with appending more parts. */
  lemma FirstPartGrows(a: char, y: seq<string>, z: seq<string>, x: seq<string>)
    requires |y| >= 1 && x == y + z
    ensures [[a] + x[0]] + x[1..] == ([[a] + y[0]] + y[1..]) + z
  {
    assert x[0] == y[0] && x[1..] == y[1..] + z;
  }

  /** Joining two runs of parts puts one separator between them. */
  lemma {:induction false} JoinAppend(a: seq<string>, b: seq<string>, sep: string)
    requires |a| >= 1 && |b| >= 1
    ensures Join(a + b, sep) == Join(a, sep) + sep + Join(b, sep)
    decreases |a|
  {
    assert (a + b)[1..] == a[1..] + b;
    if |a| > 1 {
      JoinAppend(a[1..], b, sep);
    } else {
      assert (a + b)[1..] == b;
    }
  }

  // ---------------------------------------------------------------------------
  // str.strip()

  /** Python's whitespace (`str.isspace`), the characters `strip()` removes. */
  predicate IsSpace(c: char) {
    || ('\U{0009}' <= c <= '\U{000D}')
    || ('\U{001C}' <= c <= '\U{001F}')
    || c == ' ' || c == '\U{0085}' || c == '\U{00A0}' || c == '\U{1680}'
    || ('\U{2000}' <= c <= '\U{200A}')
    || c == '\U{2028}' || c == '\U{2029}' || c == '\U{202F}' || c == '\U{205F}' || c == '\U{3000}'
  }

  /** `s.lstrip()`: the longest suffix of `s` not starting with whitespace. */
  function TrimStart(s: string): (r: string)
    ensures |r| <= |s| && r == s[|s| - |r|..]
    ensures r == [] || !IsSpace(r[0])
    ensures forall i :: 0 <= i < |s| - |r| ==> IsSpace(s[i])
    decreases |s|
  {
    if s != [] && IsSpace(s[0]) then TrimStart(s[1..]) else s
  }

  /** `s.rstrip()`: the longest prefix of `s` not ending with whitespace. */
  function TrimEnd(s: string): (r: string)
    ensures StartsWith(s, r)
    ensures r == [] || !IsSpace(r[|r| - 1])
    ensures forall i :: |r| <= i < |s| ==> IsSpace(s[i])
    decreases |s|
  {
    if s != [] && IsSpace(s[|s| - 1]) then TrimEnd(s[..|s| - 1]) else s
  }

  /** `s.strip()`. */
  function Strip(s: string): (r: string)
  {
    TrimEnd(TrimStart(s))
  }

  /**
   * Stripping keeps a prefix that neither starts nor ends with whitespace, and
   * whatever the stripped text holds beyond it begins where `s` continued.
   */
  lemma StripKeepsPrefix(s: string, p: string)
    requires StartsWith(s, p) && p != []
    requires !IsSpace(p[0]) && !IsSpace(p[|p| - 1])
    ensures StartsWith(Strip(s), p)
    ensures Strip(s) == s[..|Strip(s)|]
  {
    assert TrimStart(s) == s;
    var r := TrimEnd(s);
    assert r[..|p|] == s[..|p|];
  }

  // ---------------------------------------------------------------------------
  // "%07d" and its inverse

  function DigitChar(d: nat): (r: char)
    requires d < 10
  {
    "0123456789"[d]
  }

  lemma DigitCharValue(d: nat)
    requires d < 10
    ensures DigitChar(d) as int - '0' as int == d
  {
  }

  predicate IsDigit(c: char) {
    '0' <= c <= '9'
  }

  /** `str(n)` for a non-negative integer: its decimal digits, most significant first. */
  function Decimal(n: nat): (s: string)
    ensures |s| >= 1
    ensures forall i :: 0 <= i < |s| ==> IsDigit(s[i])
    decreases n
  {
    if n < 10 then [DigitChar(n)] else Decimal(n / 10) + [DigitChar(n % 10)]
  }

  function Zeros(k: nat): (s: string)
    ensures |s| == k && forall i :: 0 <= i < k ==> s[i] == '0'
  {
    seq(k, _ => '0')
  }

  /** `"%0<width>d" % n` for `n >= 0`: the decimal digits, zero-padded on the left to `width`. */
  function ZeroPad(n: nat, width: nat): (s: string)
    ensures |s| == if |Decimal(n)| < width then width else |Decimal(n)|
    ensures forall i :: 0 <= i < |s| ==> IsDigit(s[i])
  {
    var d := Decimal(n);
    (if |d| < width then Zeros(width - |d|) else "") + d
  }

  /** The value of a string of decimal digits (leading zeros allowed). */
  function DecimalValue(s: string): (r: nat)
    requires forall i :: 0 <= i < |s| ==> IsDigit(s[i])
    decreases |s|
  {
    if s == [] then 0
    else
      var last := s[|s| - 1];
      assert IsDigit(last);
      10 * DecimalValue(s[..|s| - 1]) + (last as int - '0' as int)
  }

  lemma {:induction false} DecimalRoundTrip(n: nat)
    ensures DecimalValue(Decimal(n)) == n
    decreases n
  {
    var s := Decimal(n);
    if n >= 10 {
      DecimalRoundTrip(n / 10);
      assert s[..|s| - 1] == Decimal(n / 10);
      DigitCharValue(n % 10);
    } else {
      assert s[..0] == [];
      DigitCharValue(n);
    }
  }

  lemma {:induction false} LeadingZeros(k: nat, s: string)
    requires forall i :: 0 <= i < |s| ==> IsDigit(s[i])
    ensures DecimalValue(Zeros(k) + s) == DecimalValue(s)
    decreases |s|, k
  {
    if s == [] {
      if k > 0 {
        assert (Zeros(k) + s)[..k - 1] == Zeros(k - 1) + s;
        LeadingZeros(k - 1, s);
      }
    } else {
      assert (Zeros(k) + s)[..|Zeros(k) + s| - 1] == Zeros(k) + s[..|s| - 1];
      LeadingZeros(k, s[..|s| - 1]);
    }
  }

  /** Zero padding loses nothing: the number can be read back. */
  lemma ZeroPadRoundTrip(n: nat, width: nat)
    ensures DecimalValue(ZeroPad(n, width)) == n
  {
    var d := Decimal(n);
    DecimalRoundTrip(n);
    if |d| < width {
      LeadingZeros(width - |d|, d);
    } else {
      assert ZeroPad(n, width) == d;
    }
  }
}
