/** Search and replace in a file, line by line, with a cap on the number of replacements. */
module SearchReplace {
  import opened JsText
  import opened Splitting
  import opened Wrappers

  datatype Span = Span(index: nat, length: nat)

  /** The pattern's `exec` from a position: the regular-expression engine is not modelled. */
  type Exec = (string, nat) -> Option<Span>

  /** A pattern that never matches the empty text: matches lie in the line at or after the position asked for. */
  ghost predicate Sound(exec: Exec) {
    forall line: string, from: nat :: exec(line, from).Some? ==>
      var m := exec(line, from).value; m.length > 0 && from <= m.index && m.index + m.length <= |line|
  }

  function Text(line: string, m: Span): string
    requires m.index + m.length <= |line|
  {
    line[m.index..m.index + m.length]
  }

  // ---- Specification: left to right.

  /** Spans in order, apart from one another, from a position to the end of the text. */
  predicate Apart(ms: seq<Span>, from: nat, end: nat) {
    if ms == [] then from <= end
    else from <= ms[0].index && ms[0].length > 0 && Apart(ms[1..], ms[0].index + ms[0].length, end)
  }

  /** All matches of a line. */
  function Scan(exec: Exec, line: string, from: nat): (ms: seq<Span>)
    requires Sound(exec) && from <= |line|
    ensures Apart(ms, from, |line|)
    decreases |line| - from
  {
    var m := exec(line, from);
    if m.None? then []
    else
      var rest := Scan(exec, line, m.value.index + m.value.length);
      assert ([m.value] + rest)[1..] == rest;
      [m.value] + rest
  }

  lemma {:induction false} ApartInside(ms: seq<Span>, from: nat, end: nat, j: nat)
    requires Apart(ms, from, end) && j < |ms|
    ensures from <= ms[j].index && ms[j].length > 0 && ms[j].index + ms[j].length <= end
    ensures Apart(ms[j..], from, end) && Apart(ms[j + 1..], ms[j].index + ms[j].length, end)
  {
    if j == 0 {
      assert ms[0..] == ms;
      ApartBounds(ms[1..], ms[0].index + ms[0].length, end);
    } else {
      ApartInside(ms[1..], ms[0].index + ms[0].length, end, j - 1);
      assert ms[1..][j - 1..] == ms[j..] && ms[1..][j..] == ms[j + 1..] && ms[1..][j - 1] == ms[j];
      ApartEarlier(ms[j..], ms[0].index + ms[0].length, from, end);
    }
  }

  lemma {:induction false} ApartBounds(ms: seq<Span>, from: nat, end: nat)
    requires Apart(ms, from, end)
    ensures from <= end
  {
    if ms != [] { ApartBounds(ms[1..], ms[0].index + ms[0].length, end); }
  }

  lemma ApartEarlier(ms: seq<Span>, from: nat, earlier: nat, end: nat)
    requires Apart(ms, from, end) && earlier <= from
    ensures Apart(ms, earlier, end)
  {
  }

  lemma {:induction false} ApartPrefix(ms: seq<Span>, from: nat, end: nat, k: nat)
    requires Apart(ms, from, end) && k <= |ms|
    ensures Apart(ms[..k], from, end)
  {
    if k == 0 {
      ApartBounds(ms, from, end);
    } else {
      ApartPrefix(ms[1..], ms[0].index + ms[0].length, end, k - 1);
      assert ms[..k][1..] == ms[1..][..k - 1];
    }
  }

  /** The text from a position on, with each span replaced by what its text is rendered to. */
  function Rewrite(text: string, ms: seq<Span>, from: nat, render: string -> string): (r: string)
    requires Apart(ms, from, |text|)
    decreases |ms|
  {
    if ms == [] then text[from..]
    else
      ApartInside(ms, from, |text|, 0);
      text[from..ms[0].index] + (render(Text(text, ms[0])) + Rewrite(text, ms[1..], ms[0].index + ms[0].length, render))
  }

  lemma RewriteFirst(text: string, ms: seq<Span>, from: nat, render: string -> string)
    requires ms != [] && Apart(ms, from, |text|)
    ensures from <= ms[0].index && ms[0].index + ms[0].length <= |text| && Apart(ms[1..], ms[0].index + ms[0].length, |text|)
    ensures Rewrite(text, ms, from, render) == text[from..ms[0].index] +
      (render(Text(text, ms[0])) + Rewrite(text, ms[1..], ms[0].index + ms[0].length, render))
  {
    ApartInside(ms, from, |text|, 0);
  }

  lemma Associative(a: string, b: string, c: string)
    ensures (a + b) + c == a + (b + c)
  {
  }


  function Count(exec: Exec, lines: seq<string>): nat
    requires Sound(exec)
  {
    if lines == [] then 0 else |Scan(exec, lines[0], 0)| + Count(exec, lines[1..])
  }

  function Min(a: nat, b: nat): nat { if a <= b then a else b }

  /** The matches of the first line among the first `k` matches of the document. */
  function Taken(exec: Exec, line: string, k: nat): (ms: seq<Span>)
    requires Sound(exec)
    ensures Apart(ms, 0, |line|)
  {
    var all := Scan(exec, line, 0);
    ApartPrefix(all, 0, |line|, Min(k, |all|));
    all[..Min(k, |all|)]
  }

  /** The lines with the first `k` matches of the document replaced. */
  function Edited(exec: Exec, lines: seq<string>, k: nat, render: string -> string): (r: seq<string>)
    requires Sound(exec)
    ensures |r| == |lines|
  {
    if lines == [] then []
    else
      var ms := Taken(exec, lines[0], k);
      [Rewrite(lines[0], ms, 0, render)] + Edited(exec, lines[1..], k - |ms|, render)
  }

  datatype Report = Report(line: nat, column: nat, oldText: string, newText: string, lineContent: string)

  function ReportOf(line: string, number: nat, m: Span, render: string -> string): Report
    requires m.index + m.length <= |line|
  {
    Report(number, m.index + 1, Text(line, m), render(Text(line, m)), Trim(line))
  }

  /** The reports of one line: the last match first. */
  function LineReports(line: string, number: nat, ms: seq<Span>, render: string -> string): (r: seq<Report>)
    requires forall j :: 0 <= j < |ms| ==> ms[j].index + ms[j].length <= |line|
    ensures |r| == |ms| && forall j :: 0 <= j < |ms| ==> r[j] == ReportOf(line, number, ms[|ms| - 1 - j], render)
  {
    seq(|ms|, j requires 0 <= j < |ms| => ReportOf(line, number, ms[|ms| - 1 - j], render))
  }

  lemma AllInside(ms: seq<Span>, from: nat, end: nat)
    requires Apart(ms, from, end)
    ensures forall j :: 0 <= j < |ms| ==> ms[j].index + ms[j].length <= end
  {
    forall j | 0 <= j < |ms| ensures ms[j].index + ms[j].length <= end { ApartInside(ms, from, end, j); }
  }

  function Reports(exec: Exec, lines: seq<string>, number: nat, k: nat, render: string -> string): (r: seq<Report>)
    requires Sound(exec)
    decreases |lines|
  {
    if lines == [] then []
    else
      var ms := Taken(exec, lines[0], k);
      AllInside(ms, 0, |lines[0]|);
      LineReports(lines[0], number, ms, render) + Reports(exec, lines[1..], number + 1, k - |ms|, render)
  }

  // ---- The same as one rewrite of the whole document.

  function Shift(ms: seq<Span>, d: nat): (r: seq<Span>)
    ensures |r| == |ms| && forall i :: 0 <= i < |ms| ==> r[i] == Span(ms[i].index + d, ms[i].length)
  {
    seq(|ms|, i requires 0 <= i < |ms| => Span(ms[i].index + d, ms[i].length))
  }

  /** All matches of the document, by their offsets in the joined text. */
  function Absolute(exec: Exec, lines: seq<string>): (r: seq<Span>)
    requires Sound(exec)
    ensures |r| == Count(exec, lines)
  {
    if lines == [] then [] else Scan(exec, lines[0], 0) + Shift(Absolute(exec, lines[1..]), |lines[0]| + 1)
  }

  lemma LaterStart(text: string, ms: seq<Span>, from: nat, p: nat, render: string -> string)
    requires from <= p && Apart(ms, p, |text|)
    ensures Apart(ms, from, |text|)
    ensures p <= |text| && Rewrite(text, ms, from, render) == text[from..p] + Rewrite(text, ms, p, render)
  {
    hide Rewrite, Apart;
    ApartBounds(ms, p, |text|);
    ApartEarlier(ms, p, from, |text|);
    if ms == [] {
      UnmatchedTail(text, from, render);
      UnmatchedTail(text, p, render);
      assert text[from..] == text[from..p] + text[p..];
    } else {
      RewriteFirst(text, ms, p, render);
      RewriteFirst(text, ms, from, render);
      var i := ms[0].index;
      var rest := render(Text(text, ms[0])) + Rewrite(text, ms[1..], i + ms[0].length, render);
      assert text[from..i] == text[from..p] + text[p..i];
      Associative(text[from..p], text[p..i], rest);
    }
  }

  lemma UnmatchedTail(text: string, from: nat, render: string -> string)
    requires from <= |text|
    ensures Apart([], from, |text|) && Rewrite(text, [], from, render) == text[from..]
  {
  }

  lemma ApartCons(m: Span, ms: seq<Span>, from: nat, end: nat)
    requires m.length > 0 && from <= m.index && Apart(ms, m.index + m.length, end)
    ensures Apart([m] + ms, from, end) && ([m] + ms)[1..] == ms
  {
    assert ([m] + ms)[1..] == ms;
  }

  lemma SliceAfter(p: string, t: string, a: nat, b: nat)
    requires a <= b <= |t|
    ensures (p + t)[a + |p|..b + |p|] == t[a..b]
  {
    forall x | 0 <= x < b - a ensures (p + t)[a + |p|..b + |p|][x] == t[a..b][x] {
      assert (p + t)[|p| + (a + x)] == t[a + x];
    }
  }

  lemma {:induction false} ShiftedRewrite(p: string, t: string, ms: seq<Span>, from: nat, render: string -> string)
    requires Apart(ms, from, |t|)
    ensures Apart(Shift(ms, |p|), from + |p|, |p + t|)
    ensures Rewrite(p + t, Shift(ms, |p|), from + |p|, render) == Rewrite(t, ms, from, render)
    decreases |ms|
  {
    hide Rewrite, Apart;
    var n := |p|;
    if ms != [] {
      ApartInside(ms, from, |t|, 0);
      RewriteFirst(t, ms, from, render);
      ShiftedRewrite(p, t, ms[1..], ms[0].index + ms[0].length, render);
      var first := Span(ms[0].index + n, ms[0].length);
      ApartCons(first, Shift(ms[1..], n), from + n, |p + t|);
      assert Shift(ms, n) == [first] + Shift(ms[1..], n);
      RewriteFirst(p + t, Shift(ms, n), from + n, render);
      SliceAfter(p, t, ms[0].index, ms[0].index + ms[0].length);
      SliceAfter(p, t, from, ms[0].index);
    } else {
      ApartBounds(ms, from, |t|);
      UnmatchedTail(t, from, render);
      UnmatchedTail(p + t, from + n, render);
      assert (p + t)[from + n..] == t[from..];
      assert Shift(ms, n) == [];
    }
  }

  lemma {:induction false} RewriteConcat(p: string, t: string, ms: seq<Span>, ns: seq<Span>, from: nat,
                                         render: string -> string)
    requires Apart(ms, from, |p|) && Apart(ns, 0, |t|)
    ensures Apart(ms + Shift(ns, |p|), from, |p + t|)
    ensures Rewrite(p + t, ms + Shift(ns, |p|), from, render) == Rewrite(p, ms, from, render) + Rewrite(t, ns, 0, render)
    decreases |ms|
  {
    hide Rewrite, Apart;
    var shifted := Shift(ns, |p|);
    var all := ms + shifted;
    ApartBounds(ms, from, |p|);
    if ms == [] {
      ShiftedRewrite(p, t, ns, 0, render);
      assert all == shifted;
      LaterStart(p + t, all, from, |p|, render);
      UnmatchedTail(p, from, render);
      assert (p + t)[from..|p|] == p[from..];
    } else {
      var m := ms[0];
      ApartInside(ms, from, |p|, 0);
      RewriteFirst(p, ms, from, render);
      RewriteConcat(p, t, ms[1..], ns, m.index + m.length, render);
      ApartCons(m, ms[1..] + shifted, from, |p + t|);
      assert all == [m] + (ms[1..] + shifted);
      RewriteFirst(p + t, all, from, render);
      assert Text(p + t, m) == Text(p, m);
      assert (p + t)[from..m.index] == p[from..m.index];
      var a, b, c, d := p[from..m.index], render(Text(p, m)), Rewrite(p, ms[1..], m.index + m.length, render), Rewrite(t, ns, 0, render);
      Associative(b, c, d);
      Associative(a, b + c, d);
    }
  }

  /** Editing line by line is one left-to-right rewrite of the first `k` matches of the joined text. */
  lemma {:induction false} DocumentRewrite(exec: Exec, lines: seq<string>, k: nat, render: string -> string)
    requires Sound(exec) && |lines| >= 1 && k <= Count(exec, lines)
    ensures Apart(Absolute(exec, lines)[..k], 0, |Join(lines, '\n')|)
    ensures Join(Edited(exec, lines, k, render), '\n') == Rewrite(Join(lines, '\n'), Absolute(exec, lines)[..k], 0, render)
  {
    hide Scan, Apart, Rewrite, Sound, Text;
    var line, ms := lines[0], Taken(exec, lines[0], k);
    if |lines| == 1 {
      assert Absolute(exec, lines)[..k] == ms;
      assert Edited(exec, lines, k, render) == [Rewrite(line, ms, 0, render)];
    } else {
      var rest := lines[1..];
      var ns := Absolute(exec, rest)[..k - |ms|];
      DocumentRewrite(exec, rest, k - |ms|, render);
      var p, t := line + "\n", Join(rest, '\n');
      NewlineKept(line, ms, render);
      RewriteConcat(p, t, ms, ns, 0, render);
      assert ms + Shift(ns, |p|) == Absolute(exec, lines)[..k];
      assert p + t == Join(lines, '\n');
    }
  }

  lemma NewlineKept(line: string, ms: seq<Span>, render: string -> string)
    requires Apart(ms, 0, |line|)
    ensures Apart(ms, 0, |line + "\n"|)
    ensures Rewrite(line + "\n", ms, 0, render) == Rewrite(line, ms, 0, render) + "\n"
  {
    hide Rewrite;
    RewriteConcat(line, "\n", ms, [], 0, render);
    assert ms + Shift([], |line|) == ms;
    NothingRewritten("\n", render);
  }

  lemma NothingRewritten(text: string, render: string -> string)
    ensures Apart([], 0, |text|) && Rewrite(text, [], 0, render) == text
  {
  }

  lemma {:induction false} NothingEdited(exec: Exec, lines: seq<string>, number: nat, render: string -> string)
    requires Sound(exec)
    ensures Edited(exec, lines, 0, render) == lines && Reports(exec, lines, number, 0, render) == []
    decreases |lines|
  {
    hide Scan, Rewrite;
    if lines != [] {
      NothingRewritten(lines[0], render);
      assert Taken(exec, lines[0], 0) == [];
      NothingEdited(exec, lines[1..], number + 1, render);
      assert lines == [lines[0]] + lines[1..];
    }
  }

  // ---- The reports.

  /** Every report names a match: its line and column hold its old text, and the new text is what replaced it. */
  predicate TrueOf(r: Report, lines: seq<string>, first: nat, render: string -> string) {
    && first <= r.line < first + |lines| && r.column >= 1
    && var line := lines[r.line - first];
       && r.oldText != "" && r.column - 1 + |r.oldText| <= |line|
       && line[r.column - 1..r.column - 1 + |r.oldText|] == r.oldText
       && r.newText == render(r.oldText) && r.lineContent == Trim(line)
  }

  lemma ReportIsTrue(line: string, rest: seq<string>, number: nat, m: Span, render: string -> string)
    requires m.length > 0 && m.index + m.length <= |line|
    ensures TrueOf(ReportOf(line, number, m, render), [line] + rest, number, render)
  {
    hide Trim;
    assert ([line] + rest)[0] == line;
  }

  lemma LineReportsAreTrue(line: string, rest: seq<string>, number: nat, ms: seq<Span>, render: string -> string)
    requires Apart(ms, 0, |line|) && forall j :: 0 <= j < |ms| ==> ms[j].index + ms[j].length <= |line|
    ensures forall r :: r in LineReports(line, number, ms, render) ==> TrueOf(r, [line] + rest, number, render)
  {
    hide Apart, TrueOf, ReportOf, LineReports;
    var rs := LineReports(line, number, ms, render);
    forall j | 0 <= j < |rs| ensures TrueOf(rs[j], [line] + rest, number, render) {
      var m := ms[|ms| - 1 - j];
      ApartInside(ms, 0, |line|, |ms| - 1 - j);
      ReportIsTrue(line, rest, number, m, render);
    }
  }

  lemma TrueFurtherUp(r: Report, line: string, rest: seq<string>, number: nat, render: string -> string)
    requires TrueOf(r, rest, number + 1, render)
    ensures TrueOf(r, [line] + rest, number, render)
  {
  }

  lemma {:induction false} ReportsAreTrue(exec: Exec, lines: seq<string>, number: nat, k: nat, render: string -> string)
    requires Sound(exec)
    ensures |Reports(exec, lines, number, k, render)| == Min(k, Count(exec, lines))
    ensures forall r :: r in Reports(exec, lines, number, k, render) ==> TrueOf(r, lines, number, render)
    decreases |lines|
  {
    hide Scan, Apart, Trim, TrueOf;
    if lines != [] {
      var line, rest, ms := lines[0], lines[1..], Taken(exec, lines[0], k);
      assert lines == [line] + rest;
      AllInside(ms, 0, |line|);
      LineReportsAreTrue(line, rest, number, ms, render);
      ReportsAreTrue(exec, rest, number + 1, k - |ms|, render);
      forall r | r in Reports(exec, rest, number + 1, k - |ms|, render) ensures TrueOf(r, lines, number, render) {
        TrueFurtherUp(r, line, rest, number, render);
      }
    }
  }

  // ---- The program.

  /** How many of a line's `n` matches are collected; a cap of zero counts as absent. */
  function Quota(cap: int, total: nat, n: nat): nat {
    if cap == 0 then n else Min(n, if cap - total >= 1 then cap - total else 1)
  }

  /** The loop around `exec`. */
  method CollectMatches(exec: Exec, line: string, cap: int, total: nat) returns (ms: seq<Span>)
    requires Sound(exec)
    ensures var all := Scan(exec, line, 0); ms == all[..Quota(cap, total, |all|)]
  {
    hide Apart;
    ghost var all := Scan(exec, line, 0);
    ms := [];
    var lastIndex := 0;
    var m := exec(line, lastIndex);
    while m.Some?
      invariant lastIndex <= |line| && m == exec(line, lastIndex)
      invariant all == ms + Scan(exec, line, lastIndex)
      invariant cap != 0 && ms != [] ==> total + |ms| < cap
      decreases |line| - lastIndex
    {
      ghost var later := Scan(exec, line, m.value.index + m.value.length);
      assert all == (ms + [m.value]) + later;
      ms := ms + [m.value];
      lastIndex := m.value.index + m.value.length;
      if cap != 0 && total + |ms| >= cap { return; }
      m := exec(line, lastIndex);
    }
  }

  /** One splice: what stands before the span is still the original text. */
  lemma SpliceStep(line: string, m: Span, ms: seq<Span>, render: string -> string)
    requires Apart([m] + ms, 0, |line|)
    ensures m.index + m.length <= |line| && Apart(ms, 0, |line|)
    ensures var before := Rewrite(line, ms, 0, render);
      && m.index + m.length <= |before|
      && Rewrite(line, [m] + ms, 0, render) == before[..m.index] + render(Text(line, m)) + before[m.index + m.length..]
  {
    hide Rewrite, Apart;
    var e := m.index + m.length;
    assert ([m] + ms)[0] == m && ([m] + ms)[1..] == ms;
    RewriteFirst(line, [m] + ms, 0, render);
    LaterStart(line, ms, 0, e, render);
    var before, tail := Rewrite(line, ms, 0, render), Rewrite(line, ms, e, render);
    assert before == line[..e] + tail;
    assert before[e..] == tail && before[..m.index] == line[..m.index];
    Associative(line[..m.index], render(Text(line, m)), tail);
  }

  /** The loop that replaces a line's matches from the last to the first. */
  method ReplaceMatches(line: string, number: nat, ms: seq<Span>, cap: int, already: nat, render: string -> string)
    returns (modified: string, reports: seq<Report>, total: nat)
    requires Apart(ms, 0, |line|) && forall j :: 0 <= j < |ms| ==> ms[j].index + ms[j].length <= |line|
    requires cap != 0 && |ms| > 1 ==> already + |ms| <= cap
    ensures modified == Rewrite(line, ms, 0, render)
    ensures reports == LineReports(line, number, ms, render)
    ensures total == already + |ms|
  {
    hide Apart, Rewrite, Trim;
    modified, reports, total := line, [], already;
    NothingRewritten(line, render);
    var j := |ms|;
    assert ms[j..] == [];
    while j > 0
      invariant 0 <= j <= |ms| && total == already + (|ms| - j)
      invariant Apart(ms[j..], 0, |line|)
      invariant modified == Rewrite(line, ms[j..], 0, render)
      invariant |reports| == |ms| - j && reports == LineReports(line, number, ms, render)[..|ms| - j]
    {
      j := j - 1;
      var m := ms[j];
      ApartInside(ms, 0, |line|, j);
      assert ms[j..] == [m] + ms[j + 1..];
      SpliceStep(line, m, ms[j + 1..], render);
      var replacement := render(Text(line, m));
      reports := reports + [Report(number, m.index + 1, Text(line, m), replacement, Trim(line))];
      modified := modified[..m.index] + replacement + modified[m.index + m.length..];
      total := total + 1;
      if cap != 0 && total >= cap { break; }
    }
    assert j == 0;
    assert ms[0..] == ms;
  }

  datatype Outcome = Outcome(written: Option<string>, reports: seq<Report>, total: nat)

  /** How many replacements are made: a negative cap lets one through, and only on the first line. */
  function Chosen(exec: Exec, lines: seq<string>, cap: int): nat
    requires Sound(exec)
  {
    if cap == 0 then Count(exec, lines)
    else if cap > 0 then Min(cap, Count(exec, lines))
    else if lines == [] then 0
    else Min(1, |Scan(exec, lines[0], 0)|)
  }

  /** What is left to replace after some replacements. */
  function Left(exec: Exec, lines: seq<string>, cap: int, total: nat): nat
    requires Sound(exec)
  {
    if cap > 0 && total >= cap then 0 else Chosen(exec, lines, if cap > 0 then cap - total else cap)
  }

  lemma OneLine(exec: Exec, lines: seq<string>, cap: int, total: nat)
    requires Sound(exec) && lines != [] && (cap > 0 ==> total < cap)
    ensures var all, left := Scan(exec, lines[0], 0), Left(exec, lines, cap, total);
      var n := Quota(cap, total, |all|);
      && n == Min(left, |all|) && n <= |all|
      && (cap > 0 && n > 1 ==> total + n <= cap) && (cap < 0 ==> n <= 1 && left == n)
      && (cap >= 0 ==> left - n == Left(exec, lines[1..], cap, total + n))
  {
    hide Scan;
  }

  /** The first `i` lines are done with `total` replacements, and the rest of the document is as specified. */
  ghost predicate Progress(exec: Exec, lines: seq<string>, render: string -> string, k: nat, i: nat, total: nat,
                           newLines: seq<string>, reports: seq<Report>)
    requires Sound(exec)
  {
    && i <= |lines| && total <= k
    && Edited(exec, lines, k, render) == newLines + Edited(exec, lines[i..], k - total, render)
    && Reports(exec, lines, 1, k, render) == reports + Reports(exec, lines[i..], i + 1, k - total, render)
  }

  /** The loop over the lines. */
  method EditLines(lines: seq<string>, exec: Exec, render: string -> string, cap: int)
    returns (newLines: seq<string>, reports: seq<Report>, total: nat)
    requires Sound(exec)
    ensures total == Chosen(exec, lines, cap)
    ensures newLines == Edited(exec, lines, total, render)
    ensures reports == Reports(exec, lines, 1, total, render)
  {
    hide Apart, Rewrite, Scan, LineReports, Left, Chosen, Edited, Reports, Taken, Sound, Quota, Min, Progress;
    ghost var k := Chosen(exec, lines, cap);
    newLines, reports, total := [], [], 0;
    AtStart(exec, lines, render, cap);
    var i := 0;
    while i < |lines|
      invariant 0 <= i <= |lines| && Progress(exec, lines, render, k, i, total, newLines, reports)
      invariant cap < 0 ==> i == 0 && total == 0
      invariant cap > 0 ==> total < cap
      invariant k == total + Left(exec, lines[i..], cap, total)
    {
      var line := lines[i];
      assert lines[i..][0] == line && lines[i..][1..] == lines[i + 1..];
      OneLine(exec, lines[i..], cap, total);
      var ms := CollectMatches(exec, line, cap, total);
      TakenIsQuota(exec, line, k - total, ms);
      var modified, lineReports, after := ReplaceMatches(line, i + 1, ms, cap, total, render);
      OneEdited(exec, lines, i, k, total, render, newLines, reports);
      reports, newLines, total := reports + lineReports, newLines + [modified], after;
      i := i + 1;
      if cap != 0 && total >= cap {
        if cap > 0 { NothingLeft(exec, lines[i..], cap, total); }
        RestUnchanged(exec, lines, render, k, i, newLines, reports);
        newLines := newLines + lines[i..];
        return;
      }
    }
    assert lines[i..] == [];
    NothingAtEnd(exec, cap, total);
    RestUnchanged(exec, lines, render, k, i, newLines, reports);
  }

  lemma AtStart(exec: Exec, lines: seq<string>, render: string -> string, cap: int)
    requires Sound(exec)
    ensures lines[0..] == lines && Left(exec, lines, cap, 0) == Chosen(exec, lines, cap)
    ensures Progress(exec, lines, render, Chosen(exec, lines, cap), 0, 0, [], [])
  {
    hide Scan, Edited, Reports;
    assert lines[0..] == lines;
  }

  lemma NothingAtEnd(exec: Exec, cap: int, total: nat)
    requires Sound(exec)
    ensures Left(exec, [], cap, total) == 0
  {
  }

  lemma NothingLeft(exec: Exec, lines: seq<string>, cap: int, total: nat)
    requires Sound(exec) && cap > 0 && total >= cap
    ensures Left(exec, lines, cap, total) == 0
  {
  }

  /** When nothing is left to replace the remaining lines are taken as they are. */
  lemma RestUnchanged(exec: Exec, lines: seq<string>, render: string -> string, k: nat, i: nat, newLines: seq<string>,
                      reports: seq<Report>)
    requires Sound(exec) && Progress(exec, lines, render, k, i, k, newLines, reports)
    ensures newLines + lines[i..] == Edited(exec, lines, k, render) && reports == Reports(exec, lines, 1, k, render)
  {
    hide Scan, Edited, Reports, Sound;
    NothingEdited(exec, lines[i..], i + 1, render);
  }

  lemma TakenIsQuota(exec: Exec, line: string, k: nat, ms: seq<Span>)
    requires Sound(exec) && ms == Scan(exec, line, 0)[..Min(k, |Scan(exec, line, 0)|)]
    ensures ms == Taken(exec, line, k) && Apart(ms, 0, |line|)
    ensures |ms| <= k && forall j :: 0 <= j < |ms| ==> ms[j].index + ms[j].length <= |line|
  {
    hide Scan, Apart;
    assert ms == Taken(exec, line, k);
    AllInside(ms, 0, |line|);
  }

  /** One line's part moves from what is still to do to what is done. */
  lemma OneEdited(exec: Exec, lines: seq<string>, i: nat, k: nat, total: nat, render: string -> string,
                  newLines: seq<string>, reports: seq<Report>)
    requires Sound(exec) && Progress(exec, lines, render, k, i, total, newLines, reports) && i < |lines|
    ensures var ms := Taken(exec, lines[i], k - total);
      && (forall j :: 0 <= j < |ms| ==> ms[j].index + ms[j].length <= |lines[i]|)
      && Progress(exec, lines, render, k, i + 1, total + |ms|, newLines + [Rewrite(lines[i], ms, 0, render)],
                  reports + LineReports(lines[i], i + 1, ms, render))
  {
    hide Scan, Apart, Rewrite, LineReports, Sound;
    var ms := Taken(exec, lines[i], k - total);
    AllInside(ms, 0, |lines[i]|);
    assert lines[i..][0] == lines[i] && lines[i..][1..] == lines[i + 1..];
    AfterOne(newLines, [Rewrite(lines[i], ms, 0, render)], Edited(exec, lines[i + 1..], k - total - |ms|, render));
    AfterOne(reports, LineReports(lines[i], i + 1, ms, render), Reports(exec, lines[i + 1..], i + 2, k - total - |ms|, render));
  }

  lemma AfterOne<T>(a: seq<T>, x: seq<T>, b: seq<T>)
    ensures (a + x) + b == a + (x + b)
  {
  }

  /** `searchAndReplace` on the content of a file. */
  method SearchAndReplace(content: string, exec: Exec, render: string -> string, cap: int, dryRun: bool)
    returns (r: Outcome)
    requires Sound(exec)
    ensures var lines := Split(content, '\n'); var k := Chosen(exec, lines, cap);
      && r.total == k
      && r.reports == Reports(exec, lines, 1, k, render)
      && (r.written.Some? <==> k > 0 && !dryRun)
      && k <= |Absolute(exec, lines)| && Apart(Absolute(exec, lines)[..k], 0, |content|)
      && (r.written.Some? ==> r.written.value == Rewrite(content, Absolute(exec, lines)[..k], 0, render))
  {
    hide Apart, Rewrite, Scan, Split, Join, Absolute, LineReports, Chosen, Edited, Reports;
    var lines := Split(content, '\n');
    var newLines, reports, total := EditLines(lines, exec, render, cap);
    ChosenIsBounded(exec, lines, cap);
    DocumentRewrite(exec, lines, total, render);
    JoinSplit(content, '\n');
    r := Outcome(if total > 0 && !dryRun then Some(Join(newLines, '\n')) else None, reports, total);
  }

  lemma ChosenIsBounded(exec: Exec, lines: seq<string>, cap: int)
    requires Sound(exec)
    ensures Chosen(exec, lines, cap) <= Count(exec, lines)
  {
  }

  // ---- The case-sensitive literal search is such a pattern.

  function LiteralExec(search: string): Exec { (line: string, from: nat) => FirstAt(search, line, from) }

  predicate Occurs(search: string, line: string, i: nat) { i + |search| <= |line| && line[i..i + |search|] == search }

  /** The first occurrence at or after a position. */
  function FirstAt(search: string, line: string, from: nat): (r: Option<Span>)
    ensures r.Some? ==> var m := r.value;
      from <= m.index && m.length == |search| && m.index + m.length <= |line| && Text(line, m) == search
    ensures forall i: nat :: from <= i && Occurs(search, line, i) ==> r.Some? && r.value.index <= i
    decreases |line| - from
  {
    if from + |search| > |line| then None
    else if Occurs(search, line, from) then Some(Span(from, |search|))
    else if from < |line| then FirstAt(search, line, from + 1)
    else None
  }

  lemma LiteralIsSound(search: string)
    requires search != ""
    ensures Sound(LiteralExec(search))
  {
  }
}
