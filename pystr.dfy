/**
 The Python string builtins that the row recogniser relies on: `str.splitlines()`,
 `str.strip()`, `str.split(sep)` and `str.isdigit()`, each as a pure function on
 `string` (a sequence of Unicode scalar values, as a Python `str` is a sequence of
 code points).
 */
module PyStr {

  /** The characters for which Python's `str.isspace()` holds: exactly the ones
      `str.strip()` with no argument removes. */
  predicate IsSpace(c: char) {
    || c == '\t' || c == '\n' || c == '\U{000B}' || c == '\U{000C}' || c == '\r'
    || ('\U{001C}' <= c <= '\U{001F}')
    || c == ' ' || c == '\U{0085}' || c == '\U{00A0}' || c == '\U{1680}'
    || ('\U{2000}' <= c <= '\U{200A}')
    || c == '\U{2028}' || c == '\U{2029}' || c == '\U{202F}' || c == '\U{205F}' || c == '\U{3000}'
  }

  predicate AllSpace(s: string) {
    forall k :: 0 <= k < |s| ==> IsSpace(s[k])
  }

  /** The characters `str.splitlines()` treats as line boundaries; the pair "\r\n"
      counts as one boundary (see IsBoundary). */
  predicate IsLineBreak(c: char) {
    || c == '\n' || c == '\r' || c == '\U{000B}' || c == '\U{000C}'
    || ('\U{001C}' <= c <= '\U{001E}')
    || c == '\U{0085}' || c == '\U{2028}' || c == '\U{2029}'
  }

  predicate NoLineBreak(s: string) {
    forall k :: 0 <= k < |s| ==> !IsLineBreak(s[k])
  }

  /** The lines still to come from `s` when the line read so far is `cur`: the
      scan `str.splitlines()` performs. A boundary ends the current line, "\r\n"
      being one boundary; at the end of the text the current line is kept only when
      it is not empty, so a final boundary opens no further line. */
  function LinesFrom(s: string, cur: string): seq<string>
    decreases |s|
  {
    if |s| == 0 then (if |cur| == 0 then [] else [cur])
    else if s[0] == '\r' && |s| > 1 && s[1] == '\n' then [cur] + LinesFrom(s[2..], [])
    else if IsLineBreak(s[0]) then [cur] + LinesFrom(s[1..], [])
    else LinesFrom(s[1..], cur + [s[0]])
  }

  /** `str.splitlines()`: the text between line boundaries, boundaries dropped. */
  function SplitLines(s: string): seq<string> {
    LinesFrom(s, [])
  }

  lemma {:induction false} LinesFromShape(s: string, cur: string)
    requires NoLineBreak(cur)
    ensures forall j :: 0 <= j < |LinesFrom(s, cur)| ==> NoLineBreak(LinesFrom(s, cur)[j])
    ensures |LinesFrom(s, cur)| <= |s| + (if |cur| == 0 then 0 else 1)
    ensures LinesFrom(s, cur) == [] <==> |s| == 0 && |cur| == 0
    decreases |s|
  {
    if |s| == 0 {
    } else if s[0] == '\r' && |s| > 1 && s[1] == '\n' {
      LinesFromShape(s[2..], []);
    } else if IsLineBreak(s[0]) {
      LinesFromShape(s[1..], []);
    } else {
      var cur' := cur + [s[0]];
      assert forall k :: 0 <= k < |cur| ==> cur'[k] == cur[k];
      LinesFromShape(s[1..], cur');
    }
  }

  /** No line holds a line boundary, there are no more lines than characters, and
      only the empty text has no lines. */
  lemma SplitLinesShape(s: string)
    ensures forall j :: 0 <= j < |SplitLines(s)| ==> NoLineBreak(SplitLines(s)[j])
    ensures |SplitLines(s)| <= |s|
    ensures SplitLines(s) == [] <==> |s| == 0
  {
    LinesFromShape(s, []);
  }

  /** Characters without line boundaries only extend the current line. */
  lemma {:induction false} LinesFromPlain(l: string, rest: string, cur: string)
    requires NoLineBreak(l)
    ensures LinesFrom(l + rest, cur) == LinesFrom(rest, cur + l)
    decreases |l|
  {
    if |l| == 0 {
      assert l + rest == rest;
      assert cur + l == cur;
    } else {
      assert (l + rest)[1..] == l[1..] + rest;
      assert cur + [l[0]] + l[1..] == cur + l;
      LinesFromPlain(l[1..], rest, cur + [l[0]]);
    }
  }

  /** Each line followed by "\n": the shape of a text assembled line by line. */
  function JoinTerminated(lines: seq<string>): string {
    if |lines| == 0 then [] else lines[0] + "\n" + JoinTerminated(lines[1..])
  }

  /** Splitting a newline-terminated text gives back its lines. */
  lemma {:induction false} SplitLinesJoinTerminated(lines: seq<string>)
    requires forall j :: 0 <= j < |lines| ==> NoLineBreak(lines[j])
    ensures SplitLines(JoinTerminated(lines)) == lines
  {
    if |lines| > 0 {
      var l, rest := lines[0], JoinTerminated(lines[1..]);
      assert JoinTerminated(lines) == l + ("\n" + rest);
      LinesFromPlain(l, "\n" + rest, []);
      assert [] + l == l;
      assert ("\n" + rest)[1..] == rest;
      SplitLinesJoinTerminated(lines[1..]);
      assert lines == [l] + lines[1..];
    }
  }

  /** One line boundary as written in text: a boundary character, or "\r\n". */
  predicate IsBoundary(brk: string) {
    brk == "\r\n" || (|brk| == 1 && IsLineBreak(brk[0]))
  }

  /** The boundary `brk` followed by `b` is still read as `brk`: it is not a lone
      "\r" that a "\n" at the start of `b` would complete to "\r\n". */
  predicate SeparateFrom(brk: string, b: string) {
    brk != "\r" || |b| == 0 || b[0] != '\n'
  }

  /** A boundary at the start of the text ends the current line. */
  lemma LinesFromBoundaryFirst(brk: string, b: string, cur: string)
    requires IsBoundary(brk) && SeparateFrom(brk, b)
    ensures LinesFrom(brk + b, cur) == [cur] + LinesFrom(b, [])
    ensures LinesFrom(brk, cur) == [cur]
  {
    var t := brk + b;
    assert t[0] == brk[0];
    if brk == "\r\n" {
      assert t[1] == '\n' && t[2..] == b && brk[2..] == [];
    } else {
      assert t[1..] == b && brk[1..] == [];
      assert |t| > 1 ==> t[1] == b[0];
    }
  }

  /** A boundary ends everything before it: what follows it is split on its own. */
  lemma {:induction false} LinesFromBoundary(a: string, brk: string, b: string, cur: string)
    requires IsBoundary(brk) && SeparateFrom(brk, b)
    ensures LinesFrom(a + brk + b, cur) == LinesFrom(a + brk, cur) + LinesFrom(b, [])
    decreases |a|
  {
    var t, u := a + brk + b, a + brk;
    assert |a| > 0 ==> t[0] == u[0] == a[0] && t[1] == u[1];
    if |a| == 0 {
      LinesFromBoundaryFirst(brk, b, cur);
    } else if a[0] == '\r' && |a| > 1 && a[1] == '\n' {
      assert t[2..] == a[2..] + brk + b;
      assert u[2..] == a[2..] + brk;
      LinesFromBoundary(a[2..], brk, b, []);
      assert LinesFrom(t, cur) == [cur] + LinesFrom(t[2..], []);
      assert LinesFrom(u, cur) == [cur] + LinesFrom(u[2..], []);
    } else if a[0] == '\r' && |a| == 1 && brk == "\n" {
      assert t[2..] == b && u[2..] == [];
      assert LinesFrom(t, cur) == [cur] + LinesFrom(b, []);
      assert LinesFrom(u, cur) == [cur] + LinesFrom([], []);
    } else {
      assert t[1..] == a[1..] + brk + b;
      assert u[1..] == a[1..] + brk;
      var cur' := if IsLineBreak(a[0]) then [] else cur + [a[0]];
      LinesFromBoundary(a[1..], brk, b, cur');
      if IsLineBreak(a[0]) {
        assert LinesFrom(t, cur) == [cur] + LinesFrom(t[1..], []);
        assert LinesFrom(u, cur) == [cur] + LinesFrom(u[1..], []);
      } else {
        assert LinesFrom(t, cur) == LinesFrom(t[1..], cur');
        assert LinesFrom(u, cur) == LinesFrom(u[1..], cur');
      }
    }
  }

  /** Whether the boundary `brk` after `a`, read with current line `cur`, adds an
      empty line: it does when nothing is pending (`a` and `cur` are empty, or `a`
      ends in a line boundary), unless `a` ends in a lone "\r" and `brk` is "\n",
      which completes it to "\r\n". */
  predicate BoundaryAddsLine(a: string, cur: string, brk: string) {
    if |a| == 0 then |cur| == 0
    else IsLineBreak(a[|a| - 1]) && !(a[|a| - 1] == '\r' && brk == "\n")
  }

  /** A final boundary adds one empty line, or none. */
  lemma {:induction false} LinesFromFinalBoundary(a: string, brk: string, cur: string)
    requires IsBoundary(brk)
    ensures LinesFrom(a + brk, cur)
            == LinesFrom(a, cur) + (if BoundaryAddsLine(a, cur, brk) then [[]] else [])
    decreases |a|
  {
    var u := a + brk;
    assert |a| > 0 ==> u[0] == a[0] && u[1] == (if |a| > 1 then a[1] else brk[0]);
    if |a| == 0 {
      LinesFromBoundaryFirst(brk, [], cur);
      assert u == brk + [];
    } else if a[0] == '\r' && |a| > 1 && a[1] == '\n' {
      assert u[2..] == a[2..] + brk;
      LinesFromFinalBoundary(a[2..], brk, []);
      assert LinesFrom(u, cur) == [cur] + LinesFrom(u[2..], []);
      assert LinesFrom(a, cur) == [cur] + LinesFrom(a[2..], []);
      assert BoundaryAddsLine(a[2..], [], brk) == BoundaryAddsLine(a, cur, brk);
    } else if a[0] == '\r' && |a| == 1 && brk == "\n" {
      assert u[2..] == [];
      assert LinesFrom(u, cur) == [cur] + LinesFrom([], []);
      assert LinesFrom(a, cur) == [cur] + LinesFrom([], []);
    } else {
      assert u[1..] == a[1..] + brk;
      var cur' := if IsLineBreak(a[0]) then [] else cur + [a[0]];
      LinesFromFinalBoundary(a[1..], brk, cur');
      assert BoundaryAddsLine(a[1..], cur', brk) == BoundaryAddsLine(a, cur, brk);
      if IsLineBreak(a[0]) {
        assert LinesFrom(u, cur) == [cur] + LinesFrom(u[1..], []);
        assert LinesFrom(a, cur) == [cur] + LinesFrom(a[1..], []);
      } else {
        assert LinesFrom(u, cur) == LinesFrom(u[1..], cur');
        assert LinesFrom(a, cur) == LinesFrom(a[1..], cur');
      }
    }
  }

  /** Splitting two texts joined by a line boundary: the lines of the first, one
      empty line when the boundary opens one, then the lines of the second. */
  lemma SplitLinesBoundary(a: string, brk: string, b: string)
    requires IsBoundary(brk) && SeparateFrom(brk, b)
    ensures SplitLines(a + brk + b)
            == SplitLines(a) + (if BoundaryAddsLine(a, [], brk) then [""] else []) + SplitLines(b)
  {
    LinesFromBoundary(a, brk, b, []);
    LinesFromFinalBoundary(a, brk, []);
  }

  /** `s` without its leading whitespace. */
  function StripLeading(s: string): string
    decreases |s|
  {
    if |s| > 0 && IsSpace(s[0]) then StripLeading(s[1..]) else s
  }

  lemma {:induction false} StripLeadingSpec(s: string)
    ensures |StripLeading(s)| <= |s| && StripLeading(s) == s[|s| - |StripLeading(s)|..]
    ensures AllSpace(s[..|s| - |StripLeading(s)|])
    ensures |StripLeading(s)| > 0 ==> !IsSpace(StripLeading(s)[0])
    decreases |s|
  {
    if |s| > 0 && IsSpace(s[0]) {
      var s' := s[1..];
      var r := StripLeading(s');
      assert StripLeading(s) == r;
      StripLeadingSpec(s');
      var n := |s| - |r|;
      assert r == s'[n - 1..] == s[n..];
      var lead, lead' := s[..n], s'[..n - 1];
      assert AllSpace(lead') && lead == [s[0]] + lead';
      forall k | 0 <= k < |lead| ensures IsSpace(lead[k]) {
        if k > 0 { assert lead[k] == lead'[k - 1]; }
      }
    } else {
      assert StripLeading(s) == s && s[..0] == [] && s[0..] == s;
    }
  }

  /** `s` without its trailing whitespace. */
  function StripTrailing(s: string): string
    decreases |s|
  {
    if |s| > 0 && IsSpace(s[|s| - 1]) then StripTrailing(s[..|s| - 1]) else s
  }

  lemma {:induction false} StripTrailingSpec(s: string)
    ensures |StripTrailing(s)| <= |s| && StripTrailing(s) == s[..|StripTrailing(s)|]
    ensures AllSpace(s[|StripTrailing(s)|..])
    ensures |StripTrailing(s)| > 0 ==> !IsSpace(StripTrailing(s)[|StripTrailing(s)| - 1])
    decreases |s|
  {
    if |s| > 0 && IsSpace(s[|s| - 1]) {
      var s' := s[..|s| - 1];
      var r := StripTrailing(s');
      assert StripTrailing(s) == r;
      StripTrailingSpec(s');
      assert r == s'[..|r|] == s[..|r|];
      var trail, trail' := s[|r|..], s'[|r|..];
      assert AllSpace(trail') && trail == trail' + [s[|s| - 1]];
      forall k | 0 <= k < |trail| ensures IsSpace(trail[k]) {
        if k < |trail'| { assert trail[k] == trail'[k]; }
      }
    } else {
      assert StripTrailing(s) == s && s[|s|..] == [] && s[..|s|] == s;
    }
  }

  /** `str.strip()`: `s` without its leading and trailing whitespace. */
  function Strip(s: string): string {
    StripTrailing(StripLeading(s))
  }

  /** The stripped text is a contiguous part of `s`, everything cut away is
      whitespace, and it neither begins nor ends with whitespace. */
  lemma StripSpec(s: string)
    ensures exists i :: 0 <= i <= |s| - |Strip(s)| && Strip(s) == s[i..i + |Strip(s)|]
                        && AllSpace(s[..i]) && AllSpace(s[i + |Strip(s)|..])
    ensures |Strip(s)| > 0 ==> !IsSpace(Strip(s)[0]) && !IsSpace(Strip(s)[|Strip(s)| - 1])
  {
    var t := StripLeading(s);
    var r := StripTrailing(t);
    StripLeadingSpec(s);
    StripTrailingSpec(t);
    var i := |s| - |t|;
    assert r == Strip(s);
    assert r == s[i..i + |r|];
    assert s[i + |r|..] == t[|r|..];
    assert AllSpace(s[..i]) && AllSpace(s[i + |r|..]);
    if |r| > 0 {
      assert r[0] == t[0];
    }
  }

  /** Stripping twice is stripping once. */
  lemma StripIdempotent(s: string)
    ensures Strip(Strip(s)) == Strip(s)
  {
    var r := Strip(s);
    StripSpec(s);
    assert StripLeading(r) == r;
    assert StripTrailing(r) == r;
  }

  /** `sep.join(parts)`. */
  function Join(parts: seq<string>, sep: char): string {
    if |parts| == 0 then []
    else if |parts| == 1 then parts[0]
    else parts[0] + [sep] + Join(parts[1..], sep)
  }

  /** The parts still to come from `s` when the part read so far is `cur`: the scan
      `s.split(sep)` performs for a one-character separator. Every separator ends a
      part, and the end of the text ends the last one, even when it is empty. */
  function SplitFrom(s: string, sep: char, cur: string): seq<string>
    decreases |s|
  {
    if |s| == 0 then [cur]
    else if s[0] == sep then [cur] + SplitFrom(s[1..], sep, [])
    else SplitFrom(s[1..], sep, cur + [s[0]])
  }

  /** `s.split(sep)` for a one-character separator. */
  function Split(s: string, sep: char): seq<string> {
    SplitFrom(s, sep, [])
  }

  lemma {:induction false} SplitFromSpec(s: string, sep: char, cur: string)
    requires sep !in cur
    ensures |SplitFrom(s, sep, cur)| >= 1
    ensures forall j :: 0 <= j < |SplitFrom(s, sep, cur)| ==> sep !in SplitFrom(s, sep, cur)[j]
    ensures Join(SplitFrom(s, sep, cur), sep) == cur + s
    decreases |s|
  {
    if |s| == 0 {
      assert cur + s == cur;
    } else if s[0] == sep {
      var rest := SplitFrom(s[1..], sep, []);
      SplitFromSpec(s[1..], sep, []);
      assert SplitFrom(s, sep, cur) == [cur] + rest;
      assert cur + s == cur + [sep] + s[1..];
    } else {
      var cur' := cur + [s[0]];
      SplitFromSpec(s[1..], sep, cur');
      assert cur' + s[1..] == cur + s;
    }
  }

  /** The split is never empty, no part holds `sep`, and joining the parts with
      `sep` gives back `s`. */
  lemma SplitSpec(s: string, sep: char)
    ensures |Split(s, sep)| >= 1
    ensures forall j :: 0 <= j < |Split(s, sep)| ==> sep !in Split(s, sep)[j]
    ensures Join(Split(s, sep), sep) == s
  {
    SplitFromSpec(s, sep, []);
    assert [] + s == s;
  }

  /** Characters other than the separator only extend the current part. */
  lemma {:induction false} SplitFromPlain(p: string, rest: string, sep: char, cur: string)
    requires sep !in p
    ensures SplitFrom(p + rest, sep, cur) == SplitFrom(rest, sep, cur + p)
    decreases |p|
  {
    if |p| == 0 {
      assert p + rest == rest;
      assert cur + p == cur;
    } else {
      assert (p + rest)[1..] == p[1..] + rest;
      assert cur + [p[0]] + p[1..] == cur + p;
      SplitFromPlain(p[1..], rest, sep, cur + [p[0]]);
    }
  }

  /** Joining two non-empty lists of parts puts one separator between them. */
  lemma {:induction false} JoinAppend(x: seq<string>, y: seq<string>, sep: char)
    requires |x| >= 1 && |y| >= 1
    ensures Join(x + y, sep) == Join(x, sep) + [sep] + Join(y, sep)
  {
    if |x| == 1 {
      assert (x + y)[1..] == y;
    } else {
      assert (x + y)[1..] == x[1..] + y;
      JoinAppend(x[1..], y, sep);
    }
  }

  /** Splitting a joined list of separator-free parts gives back the parts. */
  lemma {:induction false} SplitJoin(parts: seq<string>, sep: char)
    requires |parts| >= 1
    requires forall j :: 0 <= j < |parts| ==> sep !in parts[j]
    ensures Split(Join(parts, sep), sep) == parts
  {
    var p := parts[0];
    if |parts| == 1 {
      SplitFromPlain(p, [], sep, []);
      assert p + [] == p;
      assert [] + p == p;
    } else {
      var rest := Join(parts[1..], sep);
      assert Join(parts, sep) == p + ([sep] + rest);
      SplitFromPlain(p, [sep] + rest, sep, []);
      assert [] + p == p;
      assert ([sep] + rest)[1..] == rest;
      SplitJoin(parts[1..], sep);
      assert parts == [p] + parts[1..];
    }
  }

  /** A text that starts with separator-free parts and a separator splits into
      those parts followed by the split of the remainder. */
  lemma SplitPrefix(fields: seq<string>, rest: string, sep: char)
    requires |fields| >= 1
    requires forall j :: 0 <= j < |fields| ==> sep !in fields[j]
    ensures Split(Join(fields, sep) + [sep] + rest, sep) == fields + Split(rest, sep)
  {
    var tail := Split(rest, sep);
    SplitSpec(rest, sep);
    JoinAppend(fields, tail, sep);
    var all := fields + tail;
    assert forall j :: 0 <= j < |all| ==> sep !in all[j] by {
      forall j | 0 <= j < |all| ensures sep !in all[j] {
        if j >= |fields| { assert all[j] == tail[j - |fields|]; }
      }
    }
    SplitJoin(all, sep);
  }

  /** `str.isdigit()`, narrowed to the ASCII digits: false on the empty string. */
  predicate IsDigit(s: string) {
    |s| > 0 && forall k :: 0 <= k < |s| ==> '0' <= s[k] <= '9'
  }
}
