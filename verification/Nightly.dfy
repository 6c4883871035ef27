/** The nightly script: version printing, the next free counter, and the order of nightlies. */
module Nightly {
  import opened SemVer
  import opened UpdateVersion
  import opened Splitting
  import opened Wrappers
  import Decimal
  import ReleaseScript

  const COUNTER_MAX: nat := 999

  /** `formatCounter` */
  function FormatCounter(n: nat): (r: Option<string>)
    ensures r.Some? <==> 1 <= n <= COUNTER_MAX
    ensures r.Some? ==> |r.value| == 3 && Decimal.AllDigits(r.value) && Decimal.Number(r.value) == n
  {
    assert Decimal.Pow10(3) == 1000;
    if 1 <= n <= COUNTER_MAX then Decimal.NumberOfPadded(n, 3); Some(Decimal.PaddedText(n, 3)) else None
  }

  predicate DateText(s: string) { |s| == 8 && Decimal.AllDigits(s) && ValidDate(s) }

  function NightlyIdent(date: string, counter: nat): string { "nightly" + date + "c" + Decimal.PaddedText(counter, 3) }

  function NightlyVersion(base: Version, date: string, counter: nat): Version {
    Version(base.major, base.minor, base.patch, [Alpha(NightlyIdent(date, counter))])
  }

  /** The part of a tag before its counter. */
  function TagPrefix(base: string, date: string): string { "clodex@" + base + "-nightly" + date + "c" }

  /** `nightly\d{8}c(\d{3})$`, at the end of a tag. */
  function TagCounter(tag: string): Option<nat> {
    if |tag| < 19 then None
    else match MatchNightly(tag[|tag| - 19..])
         case Some(m) => Some(m.1)
         case None => None
  }

  /** The largest counter among the tags of one base and date, or zero. */
  function MaxCounter(tags: seq<string>, prefix: string): (n: nat)
    ensures forall t :: t in tags && prefix <= t && TagCounter(t).Some? ==> TagCounter(t).value <= n
  {
    if tags == [] then 0
    else
      var rest := MaxCounter(tags[1..], prefix);
      assert tags == [tags[0]] + tags[1..];
      if prefix <= tags[0] && TagCounter(tags[0]).Some? && TagCounter(tags[0]).value > rest then TagCounter(tags[0]).value else rest
  }

  /** It is the counter of one of those tags, or zero. */
  lemma {:induction false} CounterIsAttained(tags: seq<string>, prefix: string)
    ensures MaxCounter(tags, prefix) == 0 || exists t :: t in tags && prefix <= t && TagCounter(t) == Some(MaxCounter(tags, prefix))
  {
    hide TagCounter;
    if tags != [] {
      CounterIsAttained(tags[1..], prefix);
      assert tags == [tags[0]] + tags[1..];
    }
  }

  /** `getNextCounter` */
  function NextCounter(tags: seq<string>, base: string, date: string): nat { MaxCounter(tags, TagPrefix(base,
                       date)) + 1 }

  /** `main`: the next patch of the stable core, the date and the counter. */
  function NightlyMain(stable: string, date: string, counter: string, tags: seq<string>): (r: Option<string>) {
    match Strict(stable)
    case None => None
    case Some(v) =>
      var base := ReleaseScript.Inc(Version(v.major, v.minor, v.patch, []), ReleaseScript.Patch);
      if !DateText(date) || (counter != "" && !Decimal.AllDigits(counter)) then None
      else
        var n := if counter != "" then Decimal.Number(counter) else NextCounter(tags, Print(base), date);
        match FormatCounter(n)
        case None => None
        case Some(text) => Some(Print(base) + "-nightly" + date + "c" + text)
  }

  // ---- What it prints.

  lemma IdentIsValid(date: string, counter: nat)
    requires |date| == 8 && Decimal.AllDigits(date)
    ensures ValidIdent(Alpha(NightlyIdent(date, counter)))
  {
    var s := NightlyIdent(date, counter);
    assert s[0] == 'n' && !Decimal.IsDigit(s[0]);
    forall i | 0 <= i < |s| ensures IdentChar(s[i]) {
      assert i >= 7 && i != 15 ==> Decimal.IsDigit(s[i]);
    }
  }

  lemma IdentIsMatched(date: string, counter: nat)
    requires |date| == 8 && Decimal.AllDigits(date) && counter <= COUNTER_MAX
    ensures MatchNightly(NightlyIdent(date, counter)) == Some((date, counter))
    ensures ReleaseScript.MatchConcatenated(NightlyIdent(date, counter)) == None
  {
    var s := NightlyIdent(date, counter);
    assert s[..7] == "nightly" && s[7..15] == date && s[15] == 'c' && s[16..] == Decimal.PaddedText(counter, 3);
    assert Decimal.Pow10(3) == 1000;
    Decimal.NumberOfPadded(counter, 3);
    assert s[0] == 'n';
  }

  lemma HyphenMoves(core: string, date: string, digits: string)
    ensures core + "-nightly" + date + "c" + digits == core + ("-" + ("nightly" + date + "c" + digits))
  {
    assert "-nightly" == "-" + "nightly";
  }

  lemma IdentIs(date: string, counter: nat)
    ensures NightlyIdent(date, counter) == "nightly" + date + "c" + Decimal.PaddedText(counter, 3)
  {
  }

  lemma NightlyText(base: Version, date: string, counter: nat)
    requires base.pre == []
    ensures Print(base) + "-nightly" + date + "c" + Decimal.PaddedText(counter, 3) == Print(NightlyVersion(base, date, counter))
  {
    hide Core, Decimal.PaddedText, NightlyIdent;
    var id, core := NightlyIdent(date, counter), Core(base.major, base.minor, base.patch);
    var parts := IdentStrings([Alpha(id)]);
    assert |parts| == 1 && parts[0] == id;
    assert Join(parts, '.') == id;
    assert Print(base) == core;
    HyphenMoves(core, date, Decimal.PaddedText(counter, 3));
    assert id == "nightly" + date + "c" + Decimal.PaddedText(counter, 3) by { IdentIs(date, counter); }
  }

  /** Every nightly is read by the server with the date and counter that made it, and belongs to that channel alone. */
  lemma NightlyIsRead(base: Version, date: string, counter: nat)
    requires base.pre == [] && DateText(date) && counter <= COUNTER_MAX
    ensures var r := ParseVersion(Print(NightlyVersion(base, date, counter)));
      && r.Some? && r.value.version == NightlyVersion(base, date, counter)
      && r.value.kind == Some(NightlyKind) && r.value.number == Some(counter) && r.value.date == Some(date)
      && forall channel :: MatchesChannel(r.value, channel) <==> channel == NightlyChannel
  {
    hide Strict, Print, Clean, MatchNightly, NightlyIdent;
    IdentIsValid(date, counter);
    IdentIsMatched(date, counter);
    PrintedIsClean(NightlyVersion(base, date, counter));
  }

  /** The least stable version above the core of `v`, whatever prerelease `v` has. */
  ghost predicate NextPatch(v: Version, base: Version) {
    var core := Version(v.major, v.minor, v.patch, []);
    && base.pre == [] && Compare(core, base) < 0
    && forall w: Version :: w.pre == [] && Compare(core, w) < 0 ==> Compare(base, w) <= 0
  }

  lemma PatchIsNext(v: Version)
    ensures NextPatch(v, ReleaseScript.Inc(Version(v.major, v.minor, v.patch, []), ReleaseScript.Patch))
  {
    hide Compare, ReleaseScript.Inc;
    var core := Version(v.major, v.minor, v.patch, []);
    ReleaseScript.IncIsLeast(core, ReleaseScript.Patch, core);
    forall w: Version | w.pre == [] && Compare(core, w) < 0
      ensures Compare(ReleaseScript.Inc(core, ReleaseScript.Patch), w) <= 0 {
      ReleaseScript.IncIsLeast(core, ReleaseScript.Patch, w);
    }
  }

  /** What the script prints is such a version, for the given date, between the stable version and its next patch. */
  lemma MainPrintsNightly(stable: string, date: string, counter: string, tags: seq<string>) returns (base: Version,
                          n: nat)
    requires NightlyMain(stable, date, counter, tags).Some?
    ensures base.pre == [] && DateText(date) && 1 <= n <= COUNTER_MAX
    ensures NightlyMain(stable, date, counter, tags).value == Print(NightlyVersion(base, date, n))
    ensures n == if counter == "" then NextCounter(tags, Print(base), date) else Decimal.Number(counter)
    ensures Strict(stable).Some? && Compare(Strict(stable).value, NightlyVersion(base, date, n)) < 0
    ensures Compare(NightlyVersion(base, date, n), base) < 0
    ensures NextPatch(Strict(stable).value, base)
  {
    hide Strict, Print, NextCounter;
    var v := Strict(stable).value;
    base := ReleaseScript.Inc(Version(v.major, v.minor, v.patch, []), ReleaseScript.Patch);
    n := if counter != "" then Decimal.Number(counter) else NextCounter(tags, Print(base), date);
    NightlyText(base, date, n);
    PatchIsNext(v);
  }

  // ---- Freshness.

  lemma TagIsCounted(base: string, date: string, n: nat)
    requires |date| == 8 && Decimal.AllDigits(date) && n <= COUNTER_MAX
    ensures TagPrefix(base, date) <= TagPrefix(base, date) + Decimal.PaddedText(n, 3)
    ensures TagCounter(TagPrefix(base, date) + Decimal.PaddedText(n, 3)) == Some(n)
  {
    var tag := TagPrefix(base, date) + Decimal.PaddedText(n, 3);
    assert tag == ("clodex@" + base + "-") + NightlyIdent(date, n);
    assert |NightlyIdent(date, n)| == 19;
    assert tag[|tag| - 19..] == NightlyIdent(date, n);
    IdentIsMatched(date, n);
  }

  /** Without an explicit counter the printed tag is not among the existing tags. */
  lemma CounterIsFresh(stable: string, date: string, tags: seq<string>)
    requires NightlyMain(stable, date, "", tags).Some?
    ensures "clodex@" + NightlyMain(stable, date, "", tags).value !in tags
  {
    hide Strict, Print, TagCounter, MatchNightly, NightlyMain, Decimal.PaddedText, MaxCounter, Compare;
    var base, n := MainPrintsNightly(stable, date, "", tags);
    var prefix := TagPrefix(Print(base), date);
    NightlyText(base, date, n);
    var tag := "clodex@" + NightlyMain(stable, date, "", tags).value;
    assert tag == prefix + Decimal.PaddedText(n, 3);
    TagIsCounted(Print(base), date, n);
    assert TagCounter(tag) == Some(n) && prefix <= tag && n == MaxCounter(tags, prefix) + 1;
  }

  // ---- Order.

  lemma {:induction false} FixedWidth(a: string, b: string, x: string, y: string)
    requires |a| == |b|
    ensures CompareText(a + x, b + y) == if CompareText(a, b) != 0 then CompareText(a, b) else CompareText(x, y)
  {
    if a == [] {
      assert a + x == x && b + y == y;
    } else {
      assert (a + x)[1..] == a[1..] + x && (b + y)[1..] == b[1..] + y;
      FixedWidth(a[1..], b[1..], x, y);
    }
  }

  lemma IdentsInOrder(d1: string, n1: nat, d2: string, n2: nat)
    requires DateText(d1) && DateText(d2) && n1 <= COUNTER_MAX && n2 <= COUNTER_MAX
    ensures CompareText(NightlyIdent(d1, n1), NightlyIdent(d2, n2)) ==
      if Decimal.Number(d1) != Decimal.Number(d2) then CompareNat(Decimal.Number(d1), Decimal.Number(d2)) else CompareNat(n1, n2)
  {
    hide CompareText, ValidDate, Decimal.PaddedText;
    var p1, p2 := Decimal.PaddedText(n1, 3), Decimal.PaddedText(n2, 3);
    assert NightlyIdent(d1, n1) == "nightly" + (d1 + ("c" + p1)) && NightlyIdent(d2, n2) == "nightly" + (d2 + ("c" + p2));
    CommonPrefix("nightly", d1 + ("c" + p1), d2 + ("c" + p2));
    FixedWidth(d1, d2, "c" + p1, "c" + p2);
    CommonPrefix("c", p1, p2);
    assert Decimal.Pow10(3) == 1000;
    PaddedOrder(n1, n2, 3);
    Decimal.PaddedOfNumber(d1);
    Decimal.PaddedOfNumber(d2);
    PaddedOrder(Decimal.Number(d1), Decimal.Number(d2), 8);
  }

  /** Nightlies of one base are ordered by date and then by counter. */
  lemma NightliesInOrder(base: Version, d1: string, n1: nat, d2: string, n2: nat)
    requires DateText(d1) && DateText(d2) && n1 <= COUNTER_MAX && n2 <= COUNTER_MAX
    ensures Compare(NightlyVersion(base, d1, n1), NightlyVersion(base, d2, n2)) ==
      if Decimal.Number(d1) != Decimal.Number(d2) then CompareNat(Decimal.Number(d1), Decimal.Number(d2)) else CompareNat(n1, n2)
  {
    hide CompareText, ValidDate, NightlyIdent;
    IdentsInOrder(d1, n1, d2, n2);
    var a, b := NightlyVersion(base, d1, n1).pre, NightlyVersion(base, d2, n2).pre;
    assert a[1..] == [] && b[1..] == [];
    assert CompareIdents(a, b) == CompareText(NightlyIdent(d1, n1), NightlyIdent(d2, n2));
  }
}
