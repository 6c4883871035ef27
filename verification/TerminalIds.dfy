/** Which terminal ids the log observer reports, compared with those the whole stream mentions. */
module TerminalIds {
  import opened JsText
  import opened LogObserver

  // ---- Which terminal ids are reported.

  lemma {:induction false} SeenIdAt(chunks: seq<string>, t: string, w: nat, i: nat)
    requires 0 < i <= |chunks| && Mentions(Last(Stream(chunks[..i]), w), t)
    ensures SeenId(chunks, t, w)
  {
    hide Mentions, Last, Stream;
    if i == |chunks| {
      assert chunks[..i] == chunks;
    } else {
      assert chunks[..|chunks| - 1][..i] == chunks[..i];
      SeenIdAt(chunks[..|chunks| - 1], t, w, i);
    }
  }

  lemma {:induction false} SeenIdWhere(chunks: seq<string>, t: string, w: nat) returns (i: nat)
    requires SeenId(chunks, t, w)
    ensures 0 < i <= |chunks| && Mentions(Last(Stream(chunks[..i]), w), t)
  {
    hide Mentions, Last, Stream;
    var init := chunks[..|chunks| - 1];
    if SeenId(init, t, w) {
      i := SeenIdWhere(init, t, w);
      assert init[..i] == chunks[..i];
    } else {
      i := |chunks|;
      assert chunks[..i] == chunks;
    }
  }

  lemma {:induction false} StreamPrefix(chunks: seq<string>, i: nat)
    requires i <= |chunks|
    ensures Stream(chunks[..i]) <= Stream(chunks)
  {
    if i == |chunks| {
      assert chunks[..i] == chunks;
    } else {
      var init := chunks[..|chunks| - 1];
      assert init[..i] == chunks[..i];
      StreamPrefix(init, i);
    }
  }

  /** After `i` chunks the stream stopped right behind an id's first digits, and went on with a word character. */
  predicate TornAt(chunks: seq<string>, t: string, i: nat) {
    var s := Stream(chunks);
    && i <= |chunks| && IsId(t)
    && var b := |Stream(chunks[..i])|;
    |CREATED + t| <= b < |s| && At(s, CREATED + t, b - |CREATED + t|) && WordChar(s[b])
  }

  predicate Torn(chunks: seq<string>, t: string) { exists i :: 0 <= i <= |chunks| && TornAt(chunks, t, i) }

  /** What a prefix of a text mentions, the text mentions, unless the prefix ends there in the middle of a word. */
  lemma MentionOrTear(p: string, s: string, t: string, from: nat, k: nat)
    requires p <= s && from <= |p| && MentionedAt(p[from..], t, k)
    ensures At(s, CREATED + t, from + k) && from + k + |CREATED + t| <= |p|
    ensures MentionedAt(s, t, from + k) || (from + k + |CREATED + t| == |p| < |s| && WordChar(s[|p|]))
  {
    hide WordChar, IsId;
    var m := CREATED + t;
    var e := from + k + |m|;
    SliceOfSlice(p, from, |p|, k, k + |m|);
    assert p[from + k..e] == s[from + k..e];
    if e < |p| { assert p[from..][k + |m|] == p[e] == s[e]; }
  }

  lemma {:induction false} MentionIsSeen(chunks: seq<string>, t: string, w: nat)
    requires AllFit(chunks, |CREATED + t|, w) && Mentions(Stream(chunks), t)
    ensures SeenId(chunks, t, w)
  {
    hide Fits, Last, IsId, WordChar;
    var s, m := Stream(chunks), CREATED + t;
    var k :| 0 <= k <= |s| && MentionedAt(s, t, k);
    var init := chunks[..|chunks| - 1];
    var e := k + |m|;
    if e <= |Stream(init)| {
      assert Stream(init)[k..e] == s[k..e];
      assert MentionedAt(Stream(init), t, k);
      MentionIsSeen(init, t, w);
    } else {
      MentionInTail(s, t, w, k, |Stream(init)|);
    }
  }

  lemma MentionInTail(s: string, t: string, w: nat, k: nat, before: nat)
    requires before <= |s| && Fits(before, |s| - before, |CREATED + t|, w) && MentionedAt(s, t, k) && k + |CREATED + t| > before
    ensures Mentions(Last(s, w), t)
  {
    hide IsId, WordChar;
    var m, l := CREATED + t, Last(s, w);
    var d := |s| - |l|;
    assert d <= k;
    assert l == s[d..|s|];
    SliceOfSlice(s, d, |s|, k - d, k - d + |m|);
    if k + |m| < |s| { assert l[k - d + |m|] == s[k + |m|]; }
    assert MentionedAt(l, t, k - d);
  }

  lemma {:induction false} FitPrefix(chunks: seq<string>, m: nat, w: nat, i: nat)
    requires AllFit(chunks, m, w) && i <= |chunks|
    ensures AllFit(chunks[..i], m, w)
  {
    hide Fits;
    if i == |chunks| {
      assert chunks[..i] == chunks;
    } else {
      FitPrefix(chunks[..|chunks| - 1], m, w, i);
      assert chunks[..|chunks| - 1][..i] == chunks[..i];
    }
  }

  /** Every id reported is mentioned in the stream or is the beginning of a word that a chunk boundary tore apart. */
  lemma SeenIdIsThere(chunks: seq<string>, t: string, w: nat)
    requires SeenId(chunks, t, w)
    ensures Mentions(Stream(chunks), t) || Torn(chunks, t)
  {
    hide MentionedAt, Stream, IsId, WordChar, At;
    var i := SeenIdWhere(chunks, t, w);
    StreamPrefix(chunks, i);
    var p, s := Stream(chunks[..i]), Stream(chunks);
    var from := |p| - |Last(p, w)|;
    assert Last(p, w) == p[from..];
    var k :| 0 <= k <= |p| - from && MentionedAt(p[from..], t, k);
    MentionIsId(p[from..], t, k);
    MentionOrTear(p, s, t, from, k);
    if !MentionedAt(s, t, from + k) { assert TornAt(chunks, t, i); }
  }

  lemma MentionIsId(s: string, t: string, k: nat)
    requires MentionedAt(s, t, k)
    ensures IsId(t)
  {
  }

  lemma TornIsSeen(chunks: seq<string>, t: string, w: nat)
    requires AllFit(chunks, |CREATED + t|, w) && Torn(chunks, t)
    ensures SeenId(chunks, t, w)
  {
    hide IsId, WordChar, Stream, AllFit;
    var i :| 0 <= i <= |chunks| && TornAt(chunks, t, i);
    var head, m := chunks[..i], CREATED + t;
    StreamPrefix(chunks, i);
    var p, s := Stream(head), Stream(chunks);
    assert p[|p| - |m|..|p|] == s[|p| - |m|..|p|];
    assert MentionedAt(p, t, |p| - |m|);
    FitPrefix(chunks, |m|, w, i);
    MentionIsSeen(head, t, w);
    var j := SeenIdWhere(head, t, w);
    assert head[..j] == chunks[..j];
    SeenIdAt(chunks, t, w, j);
  }

  /** Exactly the ids of the stream are reported, and the torn ones besides. */
  lemma ReportedIds(chunks: seq<string>, t: string, w: nat)
    requires AllFit(chunks, |CREATED + t|, w)
    ensures SeenId(chunks, t, w) <==> Mentions(Stream(chunks), t) || Torn(chunks, t)
  {
    hide SeenId, Mentions, Torn, Stream, AllFit;
    if SeenId(chunks, t, w) { SeenIdIsThere(chunks, t, w); }
    if Mentions(Stream(chunks), t) { MentionIsSeen(chunks, t, w); }
    if Torn(chunks, t) { TornIsSeen(chunks, t, w); }
  }

  // ---- For which cuttings the ids are exact.

  /** No chunk ends, before the end of the stream, where a whole match could already stand. */
  predicate NoInnerEnd(chunks: seq<string>) {
    forall i :: 0 <= i <= |chunks| ==> |Stream(chunks[..i])| < SHORTEST || |Stream(chunks[..i])| == |Stream(chunks)|
  }

  const ONE: string := "term-1"

  lemma ShortestMatch()
    ensures IsId(ONE) && |CREATED + ONE| == SHORTEST && '[' !in ONE && CREATED[0] == '[' && '[' !in CREATED[1..]
  {
    assert ONE[..5] == "term-" && ONE[5..] == "1";
  }

  /** The shortest match is planted once, with one character around it; nothing else begins with a bracket. */
  function Line(before: nat, x: char, after: nat): (s: string)
    ensures |s| == before + |CREATED + ONE| + after
  {
    Fill(before, ' ') + (CREATED + ONE) + Fill(after, x)
  }

  lemma LineHoldsOne(before: nat, x: char, after: nat, t: string, k: nat)
    requires x != '[' && At(Line(before, x, after), CREATED + t, k)
    ensures k == before
  {
    ShortestMatch();
    var s, m := Line(before, x, after), CREATED + ONE;
    BeginsWithBracket(s, t, k);
    if before < k < before + |m| {
      assert s[k] == m[k - before];
      BracketIsFirst(ONE, k - before);
    }
  }

  lemma LineAt(before: nat, x: char, after: nat)
    ensures At(Line(before, x, after), CREATED + ONE, before)
    ensures after > 0 ==> Line(before, x, after)[before + |CREATED + ONE|] == x
  {
    var s, m := Line(before, x, after), CREATED + ONE;
    assert s[before..before + |m|] == m;
  }

  /** An inner end of a chunk tears an id: `term-1` is reported where the stream has a longer one. */
  lemma TornLine(chunks: seq<string>, i: nat, w: nat) returns (other: seq<string>)
    requires SHORTEST <= w && i <= |chunks| && SHORTEST <= |Stream(chunks[..i])| < |Stream(chunks)|
    ensures SameCutting(chunks, other) && SeenId(other, ONE, w) && !Mentions(Stream(other), ONE)
  {
    hide Line, Stream, Cut, SeenId, At;
    ShortestMatch();
    var b, n := |Stream(chunks[..i])|, |Stream(chunks)|;
    var before := b - SHORTEST;
    var s := Line(before, '0', n - b);
    LineAt(before, '0', n - b);
    other := Cut(s, chunks);
    forall k | 0 <= k <= |s| ensures !MentionedAt(s, ONE, k) {
      if At(s, CREATED + ONE, k) { LineHoldsOne(before, '0', n - b, ONE, k); }
    }
    CutPrefix(s, chunks, i);
    EndIsMentioned(s, b, w);
    assert i > 0 by { if i == 0 { NoStream(chunks); } }
    SeenIdAt(other, ONE, w, i);
  }

  lemma NoStream(chunks: seq<string>)
    ensures |Stream(chunks[..0])| == 0
  {
  }

  lemma EndIsMentioned(s: string, b: nat, w: nat)
    requires SHORTEST <= w && SHORTEST <= b <= |s| && At(s, CREATED + ONE, b - SHORTEST)
    ensures Mentions(Last(s[..b], w), ONE)
  {
    ShortestMatch();
    var l, m := Last(s[..b], w), CREATED + ONE;
    assert l[|l| - |m|..|l|] == s[b - |m|..b];
    assert MentionedAt(l, ONE, |l| - |m|);
  }

  /** A stream longer than the window, with no end of a chunk in time, loses what stands at its beginning. */
  lemma LostLine(chunks: seq<string>, w: nat) returns (other: seq<string>)
    requires SHORTEST <= w < |Stream(chunks)| && NoInnerEnd(chunks)
    ensures SameCutting(chunks, other) && !SeenId(other, ONE, w) && Mentions(Stream(other), ONE)
  {
    hide Line, Stream, Cut, SeenId, At;
    ShortestMatch();
    var n := |Stream(chunks)|;
    var s := Line(0, ' ', n - SHORTEST);
    LineAt(0, ' ', n - SHORTEST);
    assert MentionedAt(s, ONE, 0);
    other := Cut(s, chunks);
    if SeenId(other, ONE, w) {
      var i := SeenIdWhere(other, ONE, w);
      CutPrefix(s, chunks, i);
      NotInTail(s, |Stream(chunks[..i])|, w);
      assert false;
    }
  }

  lemma NotInTail(s: string, b: nat, w: nat)
    requires SHORTEST <= w < |s| && s == Line(0, ' ', |s| - SHORTEST) && (b < SHORTEST || b == |s|)
    ensures b <= |s| && !Mentions(Last(s[..b], w), ONE)
  {
    hide Line, At;
    ShortestMatch();
    var l := Last(s[..b], w);
    forall k | 0 <= k <= |l| ensures !MentionedAt(l, ONE, k) {
      if MentionedAt(l, ONE, k) {
        MentionAtShift(l, s, |s| - w, k, b);
        LineHoldsOne(0, ' ', |s| - SHORTEST, ONE, |s| - w + k);
        assert false;
      }
    }
  }

  lemma MentionAtShift(l: string, s: string, from: nat, k: nat, b: nat)
    requires from <= |s| && b <= |s| && l == Last(s[..b], |s| - from) && (b < SHORTEST || b == |s|) && MentionedAt(l, ONE, k)
    ensures b == |s| && At(s, CREATED + ONE, from + k)
  {
    ShortestMatch();
    assert b == |s| && s[..b] == s;
    SliceOfSlice(s, from, |s|, k, k + |CREATED + ONE|);
  }

  /**
   * The reported ids are those of the stream, for every stream cut in one way, exactly when the stream fits the window
   * and no chunk but the last ends where a whole match could stand.
   */
  lemma IdsAreExactIff(chunks: seq<string>, w: nat)
    requires SHORTEST <= w
    ensures |Stream(chunks)| <= w && NoInnerEnd(chunks) <==>
      forall other, t :: SameCutting(chunks, other) ==> (SeenId(other, t, w) <==> Mentions(Stream(other), t))
  {
    hide SeenId, Mentions, Stream;
    if !NoInnerEnd(chunks) {
      var i :| 0 <= i <= |chunks| && SHORTEST <= |Stream(chunks[..i])| && |Stream(chunks[..i])| != |Stream(chunks)|;
      StreamPrefix(chunks, i);
      var other := TornLine(chunks, i, w);
    } else if |Stream(chunks)| > w {
      var other := LostLine(chunks, w);
    } else {
      forall other, t | SameCutting(chunks, other) ensures SeenId(other, t, w) <==> Mentions(Stream(other), t) {
        FitIsLengths(chunks, other, 0, w);
        ShortFits(other, |CREATED + t|, w);
        ReportedIds(other, t, w);
        NotTorn(chunks, other, t);
      }
    }
  }

  lemma {:induction false} ShortFits(chunks: seq<string>, m: nat, w: nat)
    requires |Stream(chunks)| <= w
    ensures AllFit(chunks, m, w)
  {
    if chunks != [] { ShortFits(chunks[..|chunks| - 1], m, w); }
  }

  lemma NotTorn(chunks: seq<string>, other: seq<string>, t: string)
    requires SameCutting(chunks, other) && NoInnerEnd(chunks)
    ensures !Torn(other, t)
  {
    hide Stream, At, WordChar;
    if Torn(other, t) {
      var i :| 0 <= i <= |other| && TornAt(other, t, i);
      FitIsLengths(chunks, other, 0, 0);
      FitIsLengths(chunks[..i], other[..i], 0, 0);
      assert false;
    }
  }
}
