/** The observer of an application's log: a bounded tail, and flags for texts that occur anywhere in the stream. */
module LogObserver {
  import opened JsText
  import Decimal

  const MAX_TAIL: nat := 1024 * 1024
  const SHUTDOWN: string := "[Main] Services shut down"
  const FATAL: seq<string> := [
    "[clodex] startup failed", "uncaught exception", "unhandled rejection", "err_module_not_found", "module_not_found", "fatal error"]

  function Stream(chunks: seq<string>): string {
    if chunks == [] then "" else Stream(chunks[..|chunks| - 1]) + chunks[|chunks| - 1]
  }

  /** `slice(-w)` */
  function Last(s: string, w: nat): string { if |s| <= w then s else s[|s| - w..] }

  predicate At(s: string, m: string, k: nat) { k + |m| <= |s| && s[k..k + |m|] == m }

  /** `includes` */
  predicate Contains(s: string, m: string) { exists k :: 0 <= k <= |s| && At(s, m, k) }

  /** Some bounded tail, after one of the chunks, contains the text. */
  predicate Seen(chunks: seq<string>, m: string, w: nat) {
    if chunks == [] then false
    else Seen(chunks[..|chunks| - 1], m, w) || Contains(Last(Stream(chunks), w), m)
  }

  function LowerText(s: string): (r: string)
    ensures |r| == |s|
  {
    seq(|s|, i requires 0 <= i < |s| => Lower(s[i]))
  }

  function LowerAll(chunks: seq<string>): (r: seq<string>)
    ensures |r| == |chunks|
  {
    seq(|chunks|, i requires 0 <= i < |chunks| => LowerText(chunks[i]))
  }

  // ---- Terminal ids: `\[TerminalService\] Created terminal (term-\d+)\b`.

  const CREATED: string := "[TerminalService] Created terminal "

  /** The length of the shortest text that the pattern matches. */
  const SHORTEST: nat := 41

  predicate IsId(t: string) { |t| > 5 && t[..5] == "term-" && Decimal.AllDigits(t[5..]) }

  predicate WordChar(c: char) { Alphanumeric(c) || c == '_' }

  /** `\b` after a digit. */
  predicate WordEnds(s: string, e: nat) { e >= |s| || !WordChar(s[e]) }

  predicate MentionedAt(s: string, t: string, k: nat) { IsId(t) && At(s, CREATED + t, k) && WordEnds(s,
                        k + |CREATED + t|) }

  /** Some match of the pattern yields this id. */
  predicate Mentions(s: string, t: string) { exists k :: 0 <= k <= |s| && MentionedAt(s, t, k) }

  /** Some bounded tail, after one of the chunks, mentions the id. */
  predicate SeenId(chunks: seq<string>, t: string, w: nat) {
    if chunks == [] then false
    else SeenId(chunks[..|chunks| - 1], t, w) || Mentions(Last(Stream(chunks), w), t)
  }

  function DigitsEnd(s: string, from: nat): (e: nat)
    requires from <= |s|
    ensures from <= e <= |s| && Decimal.AllDigits(s[from..e]) && (e < |s| ==> !Decimal.IsDigit(s[e]))
    decreases |s| - from
  {
    if from < |s| && Decimal.IsDigit(s[from]) then
      var e := DigitsEnd(s, from + 1);
      assert s[from..e] == [s[from]] + s[from + 1..e];
      e
    else from
  }

  /** The id matched at a position, or nothing. */
  function MatchAt(s: string, k: nat): (t: string)
    ensures t != "" <==> exists u :: MentionedAt(s, u, k)
    ensures forall u :: MentionedAt(s, u, k) ==> u == t
  {
    var a := k + |CREATED|;
    if !At(s, CREATED + "term-", k) then
      NoMatchWithoutPrefix(s, k);
      ""
    else
      var e := DigitsEnd(s, a + 5);
      MatchIsMaximal(s, k, e);
      if e > a + 5 && WordEnds(s, e) then s[a..e] else ""
  }

  lemma MatchHasPrefix(s: string, u: string, k: nat)
    requires MentionedAt(s, u, k)
    ensures At(s, CREATED + "term-", k)
  {
    var n := |CREATED + "term-"|;
    assert (CREATED + u)[..n] == CREATED + u[..5];
    assert s[k..k + n] == s[k..k + |CREATED + u|][..n];
  }

  lemma NoMatchWithoutPrefix(s: string, k: nat)
    requires !At(s, CREATED + "term-", k)
    ensures forall u :: !MentionedAt(s, u, k)
  {
    forall u ensures !MentionedAt(s, u, k) {
      if MentionedAt(s, u, k) { MatchHasPrefix(s, u, k); }
    }
  }

  lemma MatchIsMaximal(s: string, k: nat, e: nat)
    requires At(s, CREATED + "term-", k) && k + |CREATED| + 5 <= e <= |s|
    requires Decimal.AllDigits(s[k + |CREATED| + 5..e]) && (e < |s| ==> !Decimal.IsDigit(s[e]))
    ensures e > k + |CREATED| + 5 && WordEnds(s, e) ==> MentionedAt(s, s[k + |CREATED|..e], k)
    ensures forall u :: MentionedAt(s, u, k) ==> e > k + |CREATED| + 5 && WordEnds(s, e) && u == s[k + |CREATED|..e]
  {
    var a := k + |CREATED|;
    var t := s[a..e];
    PrefixParts(s, k);
    assert t[..5] == s[a..a + 5] && t[5..] == s[a + 5..e];
    assert s[k..k + |CREATED + t|] == s[k..a] + s[a..e];
    forall u | MentionedAt(s, u, k) ensures u == t && e > a + 5 && WordEnds(s, e) {
      MatchEndsAt(s, u, k, e);
    }
  }

  /** A match ends where the run of digits ends: its last character is a digit and no word character follows. */
  lemma MatchEndsAt(s: string, u: string, k: nat, e: nat)
    requires MentionedAt(s, u, k) && k + |CREATED| + 5 <= e <= |s|
    requires Decimal.AllDigits(s[k + |CREATED| + 5..e]) && (e < |s| ==> !Decimal.IsDigit(s[e]))
    ensures e == k + |CREATED + u| && u == s[k + |CREATED|..e]
  {
    var a := k + |CREATED|;
    var f := a + |u|;
    SliceOfSlice(s, k, f, |CREATED|, |CREATED| + |u|);
    assert (CREATED + u)[|CREATED|..] == u;
    assert u == s[a..f];
    SliceOfSlice(s, a, f, 5, |u|);
    assert u[5..] == s[a + 5..f];
    if f < e {
      DigitIn(s, a + 5, e, f);
    } else if e < f {
      DigitIn(s, a + 5, f, e);
    }
  }

  lemma DigitIn(s: string, from: nat, to: nat, i: nat)
    requires from <= i < to <= |s| && Decimal.AllDigits(s[from..to])
    ensures Decimal.IsDigit(s[i]) && WordChar(s[i])
  {
    assert s[i] == s[from..to][i - from];
  }

  lemma PrefixParts(s: string, k: nat)
    requires At(s, CREATED + "term-", k)
    ensures k + |CREATED| + 5 <= |s| && s[k..k + |CREATED|] == CREATED && s[k + |CREATED|..k + |CREATED| + 5] == "term-"
  {
    var a := k + |CREATED|;
    assert s[k..a + 5] == s[k..a] + s[a..a + 5];
    assert s[k..a + 5][..|CREATED|] == CREATED && s[k..a + 5][|CREATED|..] == "term-";
  }

  /** A match holds a bracket only at its beginning, so no other match begins inside it. */
  lemma NoMatchInside(s: string, t: string, k: nat, u: string, j: nat)
    requires MentionedAt(s, t, k) && k < j < k + |CREATED + t|
    ensures !MentionedAt(s, u, j)
  {
    var m := CREATED + t;
    assert s[j] == s[k..k + |m|][j - k] == m[j - k];
    BracketIsFirst(t, j - k);
    if MentionedAt(s, u, j) { BeginsWithBracket(s, u, j); }
  }

  lemma BeginsWithBracket(s: string, u: string, j: nat)
    requires At(s, CREATED + u, j)
    ensures j < |s| && s[j] == '['
  {
    assert s[j] == s[j..j + |CREATED + u|][0];
  }

  lemma BracketIsFirst(t: string, i: nat)
    requires IsId(t) && 0 < i < |CREATED + t|
    ensures (CREATED + t)[i] != '['
  {
    if i >= |CREATED| {
      var j := i - |CREATED|;
      assert (CREATED + t)[i] == t[j];
      if j < 5 { assert t[j] == t[..5][j]; } else { assert t[j] == t[5..][j - 5]; }
    }
  }

  /** The `matchAll` loop: after a match the search goes on behind it. */
  method FindIds(s: string) returns (ids: set<string>)
    ensures forall t :: t in ids <==> Mentions(s, t)
  {
    hide MentionedAt, MatchAt;
    ids := {};
    var k := 0;
    while k <= |s|
      invariant 0 <= k
      invariant forall t :: t in ids <==> exists j :: 0 <= j < k && j <= |s| && MentionedAt(s, t, j)
      decreases |s| + 1 - k
    {
      var t := MatchAt(s, k);
      MatchedHere(s, k);
      if t != "" {
        ids := ids + {t};
        var e := k + |CREATED + t|;
        forall u, j | k < j < e ensures !MentionedAt(s, u, j) { NoMatchInside(s, t, k, u, j); }
        k := e;
      } else {
        k := k + 1;
      }
    }
  }

  lemma MatchedHere(s: string, k: nat)
    ensures forall u :: MentionedAt(s, u, k) <==> MatchAt(s, k) != "" && u == MatchAt(s, k)
  {
    hide MentionedAt, MatchAt;
  }

  // ---- The class.

  class AppLogObserver {
    var tail: string
    var createdTerminalIds: set<string>
    var shutdownComplete: bool
    var fatalStartupOutput: bool
    ghost var chunks: seq<string>

    ghost predicate Valid()
      reads this
    {
      && tail == Last(Stream(chunks), MAX_TAIL)
      && (forall t :: t in createdTerminalIds <==> SeenId(chunks, t, MAX_TAIL))
      && (shutdownComplete <==> Seen(chunks, SHUTDOWN, MAX_TAIL))
      && (fatalStartupOutput <==> exists i :: 0 <= i < |FATAL| && Seen(LowerAll(chunks), FATAL[i], MAX_TAIL))
    }

    constructor ()
      ensures Valid() && chunks == []
    {
      tail, createdTerminalIds, shutdownComplete, fatalStartupOutput := "", {}, false, false;
      chunks := [];
    }

    method Append(text: string)
      requires Valid()
      modifies this
      ensures Valid() && chunks == old(chunks) + [text]
    {
      hide Last, Stream, Contains, LowerText, Mentions;
      ghost var before := chunks;
      chunks := chunks + [text];
      assert chunks[..|chunks| - 1] == before;
      TailOfMore(before, text, MAX_TAIL);
      tail := Last(tail + text, MAX_TAIL);
      var ids := FindIds(tail);
      createdTerminalIds := createdTerminalIds + ids;
      shutdownComplete := shutdownComplete || Contains(tail, SHUTDOWN);
      var lower := LowerText(tail);
      LoweredTail(chunks, MAX_TAIL);
      assert LowerAll(chunks)[..|chunks| - 1] == LowerAll(before);
      fatalStartupOutput := fatalStartupOutput || exists i :: 0 <= i < |FATAL| && Contains(lower, FATAL[i]);
    }
  }

  lemma LastOfLast(s: string, t: string, w: nat)
    ensures Last(Last(s, w) + t, w) == Last(s + t, w)
  {
    if |s| > w {
      var u, d := s + t, |s| - w;
      assert Last(s, w) + t == u[d..];
      assert u[d..][|t|..] == u[d + |t|..];
    }
  }

  /** The bounded tail can be kept from the bounded tail before. */
  lemma TailOfMore(chunks: seq<string>, text: string, w: nat)
    ensures Last(Last(Stream(chunks), w) + text, w) == Last(Stream(chunks + [text]), w)
  {
    hide Last;
    assert (chunks + [text])[..|chunks|] == chunks;
    LastOfLast(Stream(chunks), text, w);
  }

  lemma {:induction false} LoweredStream(chunks: seq<string>)
    ensures Stream(LowerAll(chunks)) == LowerText(Stream(chunks))
  {
    if chunks != [] {
      LoweredStream(chunks[..|chunks| - 1]);
      assert LowerAll(chunks)[..|chunks| - 1] == LowerAll(chunks[..|chunks| - 1]);
    }
  }

  lemma LoweredLast(s: string, w: nat)
    ensures LowerText(Last(s, w)) == Last(LowerText(s), w)
  {
    hide Lower;
    var l, r := LowerText(Last(s, w)), Last(LowerText(s), w);
    var d := |s| - |Last(s, w)|;
    forall i | 0 <= i < |l| ensures l[i] == r[i] {
      assert l[i] == Lower(s[d + i]);
    }
  }

  lemma LoweredTail(chunks: seq<string>, w: nat)
    ensures LowerText(Last(Stream(chunks), w)) == Last(Stream(LowerAll(chunks)), w)
  {
    hide LowerText, LowerAll, Last;
    LoweredStream(chunks);
    LoweredLast(Stream(chunks), w);
  }

  // ---- When the flag tells the truth about the whole stream.

  /** The stream still fits the window, or the chunk and all but one character of the text fit it. */
  predicate Fits(before: nat, length: nat, m: nat, w: nat) { before + length <= w || length + m - 1 <= w }

  predicate AllFit(chunks: seq<string>, m: nat, w: nat) {
    if chunks == [] then true
    else AllFit(chunks[..|chunks| - 1], m, w) && Fits(|Stream(chunks[..|chunks| - 1])|, |chunks[|chunks| - 1]|, m, w)
  }

  lemma SliceOfSlice(s: string, a: nat, b: nat, i: nat, j: nat)
    requires a <= b <= |s| && i <= j <= b - a
    ensures s[a..b][i..j] == s[a + i..a + j]
  {
    var l, r := s[a..b][i..j], s[a + i..a + j];
    forall x | 0 <= x < j - i ensures l[x] == r[x] {
      assert l[x] == s[a..b][i + x] == s[a + (i + x)];
    }
  }

  lemma PartContains(a: string, s: string, m: string, from: nat)
    requires from + |a| <= |s| && a == s[from..from + |a|] && Contains(a, m)
    ensures Contains(s, m)
  {
    var k :| 0 <= k <= |a| && At(a, m, k);
    SliceOfSlice(s, from, from + |a|, k, k + |m|);
    assert At(s, m, from + k);
  }

  /** A raised flag is always right. */
  lemma {:induction false} SeenIsThere(chunks: seq<string>, m: string, w: nat)
    requires Seen(chunks, m, w)
    ensures Contains(Stream(chunks), m)
  {
    hide Contains;
    var s, init := Stream(chunks), chunks[..|chunks| - 1];
    if Seen(init, m, w) {
      SeenIsThere(init, m, w);
      PartContains(Stream(init), s, m, 0);
    } else {
      PartContains(Last(s, w), s, m, |s| - |Last(s, w)|);
    }
  }

  /** A text that ends in the last chunk, when that chunk fits, is in the bounded tail. */
  lemma NewlyThere(s: string, m: string, w: nat, k: nat, before: nat)
    requires before <= |s| && Fits(before, |s| - before, |m|, w) && At(s, m, k) && k + |m| > before
    ensures Contains(Last(s, w), m)
  {
    var d := |s| - |Last(s, w)|;
    assert d <= k;
    assert Last(s, w) == s[d..|s|];
    SliceOfSlice(s, d, |s|, k - d, k - d + |m|);
    assert At(Last(s, w), m, k - d);
  }

  /** When every chunk fits, nothing that occurs in the stream is missed, however it was cut into chunks. */
  lemma {:induction false} ThereIsSeen(chunks: seq<string>, m: string, w: nat)
    requires AllFit(chunks, |m|, w) && m != "" && Contains(Stream(chunks), m)
    ensures Seen(chunks, m, w)
  {
    hide Fits, Last;
    var s := Stream(chunks);
    var k :| 0 <= k <= |s| && At(s, m, k);
    assert chunks != [];
    var init := chunks[..|chunks| - 1];
    if k + |m| <= |Stream(init)| {
      assert Stream(init)[k..k + |m|] == s[k..k + |m|];
      assert At(Stream(init), m, k);
      ThereIsSeen(init, m, w);
    } else {
      NewlyThere(s, m, w, k, |Stream(init)|);
    }
  }

  // ---- The condition cannot be weakened: it is necessary for every way of cutting the stream.

  /** The same cutting of another stream. */
  function Cut(s: string, chunks: seq<string>): (r: seq<string>)
    requires |s| == |Stream(chunks)|
    ensures |r| == |chunks| && Stream(r) == s && forall i :: 0 <= i < |r| ==> |r[i]| == |chunks[i]|
    decreases |chunks|
  {
    if chunks == [] then []
    else
      var n := |Stream(chunks[..|chunks| - 1])|;
      var init := Cut(s[..n], chunks[..|chunks| - 1]);
      assert (init + [s[n..]])[..|init|] == init;
      init + [s[n..]]
  }

  lemma CutStep(s: string, chunks: seq<string>)
    requires |s| == |Stream(chunks)| && chunks != []
    ensures var init := chunks[..|chunks| - 1]; var n := |Stream(init)|;
      n <= |s| && Cut(s, chunks) == Cut(s[..n], init) + [s[n..]]
  {
  }

  lemma {:induction false} CutPrefix(s: string, chunks: seq<string>, i: nat)
    requires |s| == |Stream(chunks)| && i <= |chunks|
    ensures |Stream(chunks[..i])| <= |s| && Stream(Cut(s, chunks)[..i]) == s[..|Stream(chunks[..i])|]
    decreases |chunks|
  {
    hide Stream, Cut;
    var pieces := Cut(s, chunks);
    if i == |chunks| {
      assert chunks[..i] == chunks && pieces[..i] == pieces;
      assert s[..|s|] == s;
    } else {
      var init := chunks[..|chunks| - 1];
      var n := |Stream(init)|;
      CutStep(s, chunks);
      CutPrefix(s[..n], init, i);
      assert init[..i] == chunks[..i];
      assert pieces[..i] == Cut(s[..n], init)[..i];
    }
  }

  function Fill(n: nat, x: char): (s: string)
    ensures |s| == n && forall i :: 0 <= i < n ==> s[i] == x
  {
    seq(n, _ => x)
  }

  /** A stream of one character with the text once in it. */
  function Planted(m: string, x: char, k: nat, n: nat): (s: string)
    requires k + |m| <= n
    ensures |s| == n && At(s, m, k) && forall i :: 0 <= i < n && !(k <= i < k + |m|) ==> s[i] == x
  {
    Fill(k, x) + m + Fill(n - k - |m|, x)
  }

  /** The text occurs nowhere else. */
  lemma PlantedOnce(m: string, x: char, k: nat, n: nat, i: nat)
    requires k + |m| <= n && m != "" && x !in m && At(Planted(m, x, k, n), m, i)
    ensures i == k
  {
    hide Planted;
    var s := Planted(m, x, k, n);
    assert s[i..i + |m|][0] == s[i] == m[0];
    assert s[i..i + |m|][|m| - 1] == s[i + |m| - 1] == m[|m| - 1];
    assert s[i] in m && s[i + |m| - 1] in m;
  }

  lemma PartOfPlanted(m: string, x: char, k: nat, n: nat, from: nat, to: nat)
    requires k + |m| <= n && m != "" && x !in m && from <= to <= n && Contains(Planted(m, x, k, n)[from..to], m)
    ensures from <= k && k + |m| <= to
  {
    hide Planted;
    var s := Planted(m, x, k, n);
    var j :| 0 <= j <= to - from && At(s[from..to], m, j);
    assert s[from..to][j..j + |m|] == s[from + j..from + j + |m|];
    PlantedOnce(m, x, k, n, from + j);
  }

  /** Where the text ends in a chunk and begins before the tail that is kept after it. */
  predicate Missed(chunks: seq<string>, k: nat, m: nat, w: nat, i: nat) {
    && i < |chunks|
    && |Stream(chunks[..i])| < k + m <= |Stream(chunks[..i + 1])|
    && k + w < |Stream(chunks[..i + 1])|
  }

  lemma {:induction false} Longer(chunks: seq<string>, i: nat, j: nat)
    requires i <= j <= |chunks|
    ensures |Stream(chunks[..i])| <= |Stream(chunks[..j])|
    decreases j
  {
    if i < j {
      Longer(chunks, i, j - 1);
      assert chunks[..j][..j - 1] == chunks[..j - 1];
    }
  }

  lemma {:induction false} PlantedIsMissed(m: string, x: char, k: nat, chunks: seq<string>, w: nat, i: nat, j: nat)
    requires m != "" && x !in m && Missed(chunks, k, |m|, w, i) && j <= |chunks| && k + |m| <= |Stream(chunks)|
    ensures !Seen(Cut(Planted(m, x, k, |Stream(chunks)|), chunks)[..j], m, w)
    decreases j
  {
    hide Planted, Cut, Contains;
    if j > 0 {
      var s := Planted(m, x, k, |Stream(chunks)|);
      var pieces := Cut(s, chunks);
      PlantedIsMissed(m, x, k, chunks, w, i, j - 1);
      assert pieces[..j][..j - 1] == pieces[..j - 1];
      CutPrefix(s, chunks, j);
      var b := |Stream(chunks[..j])|;
      var a := if b <= w then 0 else b - w;
      assert Last(s[..b], w) == s[a..b];
      if Contains(s[a..b], m) {
        PartOfPlanted(m, x, k, |Stream(chunks)|, a, b);
        if j <= i { Longer(chunks, j, i); } else { Longer(chunks, i + 1, j); }
        assert false;
      }
    }
  }

  lemma {:induction false} UnfitChunk(chunks: seq<string>, m: nat, w: nat) returns (i: nat)
    requires !AllFit(chunks, m, w)
    ensures i < |chunks| && |Stream(chunks[..i + 1])| == |Stream(chunks[..i])| + |chunks[i]|
    ensures !Fits(|Stream(chunks[..i])|, |chunks[i]|, m, w)
  {
    hide Fits;
    var init := chunks[..|chunks| - 1];
    if !AllFit(init, m, w) {
      i := UnfitChunk(init, m, w);
      assert init[..i] == chunks[..i] && init[..i + 1] == chunks[..i + 1];
    } else {
      i := |init|;
      assert chunks[..i + 1] == chunks;
    }
  }

  /** If some chunk does not fit, a stream cut the same way holds the text and the flag stays down. */
  lemma UnfitCanMiss(chunks: seq<string>, m: string, x: char, w: nat) returns (other: seq<string>)
    requires !AllFit(chunks, |m|, w) && m != "" && x !in m && |m| <= w
    ensures |other| == |chunks| && forall i :: 0 <= i < |other| ==> |other[i]| == |chunks[i]|
    ensures Contains(Stream(other), m) && !Seen(other, m, w)
  {
    hide Planted, AllFit, Cut, Seen, Stream;
    var i := UnfitChunk(chunks, |m|, w);
    var b, n := |Stream(chunks[..i])|, |Stream(chunks)|;
    var k := if b >= |m| then b - |m| + 1 else 0;
    Longer(chunks, i + 1, |chunks|);
    assert chunks[..|chunks|] == chunks;
    var s := Planted(m, x, k, n);
    other := Cut(s, chunks);
    assert At(s, m, k);
    PlantedIsMissed(m, x, k, chunks, w, i, |chunks|);
    assert other[..|chunks|] == other;
  }

  predicate SameCutting(chunks: seq<string>, other: seq<string>) {
    |other| == |chunks| && forall i :: 0 <= i < |other| ==> |other[i]| == |chunks[i]|
  }

  lemma {:induction false} FitIsLengths(chunks: seq<string>, other: seq<string>, m: nat, w: nat)
    requires SameCutting(chunks, other)
    ensures |Stream(other)| == |Stream(chunks)| && (AllFit(chunks, m, w) <==> AllFit(other, m, w))
  {
    if chunks != [] { FitIsLengths(chunks[..|chunks| - 1], other[..|other| - 1], m, w); }
  }

  /** The flag is exact for every stream cut in one way exactly when every chunk of that cutting fits. */
  lemma FlagIsExactIff(chunks: seq<string>, m: string, x: char, w: nat)
    requires m != "" && x !in m && |m| <= w
    ensures AllFit(chunks, |m|, w) <==>
      forall other :: SameCutting(chunks, other) ==> (Seen(other, m, w) <==> Contains(Stream(other), m))
  {
    hide Seen, AllFit, Contains;
    if AllFit(chunks, |m|, w) {
      forall other | SameCutting(chunks, other) ensures Seen(other, m, w) <==> Contains(Stream(other), m) {
        FitIsLengths(chunks, other, |m|, w);
        if Seen(other, m, w) { SeenIsThere(other, m, w); }
        if Contains(Stream(other), m) { ThereIsSeen(other, m, w); }
      }
    } else {
      var other := UnfitCanMiss(chunks, m, x, w);
      assert SameCutting(chunks, other);
    }
  }

  /** For the shutdown text and the window of the program. */
  lemma ShutdownFlag(chunks: seq<string>)
    ensures AllFit(chunks, 25, MAX_TAIL) <==>
      forall other :: SameCutting(chunks, other) ==> (Seen(other, SHUTDOWN, MAX_TAIL) <==> Contains(Stream(other), SHUTDOWN))
  {
    hide Seen, AllFit, Contains;
    FlagIsExactIff(chunks, SHUTDOWN, 'x', MAX_TAIL);
  }
}
