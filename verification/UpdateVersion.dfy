/** How the update server reads versions: channel, counter and nightly date. */
module UpdateVersion {
  import opened JsText
  import opened SemVer
  import opened Splitting
  import opened Wrappers
  import Decimal
  import ReleaseScript

  datatype Kind = AlphaKind | BetaKind | NightlyKind
  datatype Channel = ReleaseChannel | NightlyChannel | BetaChannel | AlphaChannel

  datatype Parsed = Parsed(raw: string, clean: string, version: Version, kind: Option<Kind>, number: Option<nat>, date: Option<string>)

  function StripPrefixChars(s: string): string {
    if s != [] && (s[0] == '=' || s[0] == 'v') then StripPrefixChars(s[1..]) else s
  }

  /** `semver.clean` */
  function Clean(s: string): Option<string> {
    match Strict(StripPrefixChars(Trim(s)))
    case Some(v) => Some(Print(v))
    case None => None
  }

  // ---- Nightly dates.

  predicate LeapYear(y: nat) { y % 4 == 0 && (y % 100 != 0 || y % 400 == 0) }

  function DaysInMonth(y: nat, m: nat): nat {
    if m == 2 then (if LeapYear(y) then 29 else 28)
    else if m in {4, 6, 9, 11} then 30
    else 31
  }

  /** `isValidNightlyDate`: `Date.UTC` moves years below 100 to the twentieth century, so they never match. */
  predicate ValidDate(s: string)
    requires |s| == 8 && Decimal.AllDigits(s)
  {
    var y, m, d := Decimal.Number(s[..4]), Decimal.Number(s[4..6]), Decimal.Number(s[6..]);
    100 <= y && 1 <= m <= 12 && 1 <= d <= DaysInMonth(y, m)
  }

  /** `^nightly(\d{8})c(\d{3})$` */
  function MatchNightly(s: string): (r: Option<(string, nat)>)
    ensures r.Some? ==> |r.value.0| == 8 && Decimal.AllDigits(r.value.0)
  {
    if |s| == 19 && s[..7] == "nightly" && Decimal.AllDigits(s[7..15]) && s[15] == 'c' && Decimal.AllDigits(s[16..])
    then Some((s[7..15], Decimal.Number(s[16..])))
    else None
  }

  /** The classification branch of `parseVersion`. */
  function Classify(pre: seq<Ident>): (r: (Option<Kind>, Option<nat>, Option<string>)) {
    if pre == [] then (None, None, None)
    else
      var first := IdentString(pre[0]);
      var concatenated := ReleaseScript.MatchConcatenated(first);
      var nightly := MatchNightly(first);
      if concatenated.Some? then
        (Some(if concatenated.value.0.AlphaChannel? then AlphaKind else BetaKind), Some(concatenated.value.1), None)
      else if nightly.Some? && ValidDate(nightly.value.0) then
        (Some(NightlyKind), Some(nightly.value.1), Some(nightly.value.0))
      else if first == "alpha" || first == "beta" then
        (Some(if first == "alpha" then AlphaKind else BetaKind), if |pre| > 1 && pre[1].Num? then Some(pre[1].n) else None, None)
      else (None, None, None)
  }

  /** `parseVersion` */
  function ParseVersion(s: string): (r: Option<Parsed>) {
    match Clean(s)
    case None => None
    case Some(clean) =>
      match Strict(clean)
      case None => None
      case Some(v) =>
        var (kind, number, date) := Classify(v.pre);
        Some(Parsed(s, clean, v, kind, number, date))
  }

  /** `matchesChannel` */
  predicate MatchesChannel(p: Parsed, channel: Channel) {
    match channel
    case ReleaseChannel => p.version.pre == []
    case NightlyChannel => p.kind == Some(NightlyKind)
    case BetaChannel => p.kind == Some(BetaKind)
    case AlphaChannel => p.kind == Some(AlphaKind) || p.kind == Some(BetaKind)
  }

  /** A printed version is its own cleaned form, and every parser of the server reads it back. */
  lemma PrintedIsClean(v: Version)
    requires Valid(v)
    ensures Clean(Print(v)) == Some(Print(v)) && Strict(Print(v)) == Some(v)
    ensures ParseVersion(Print(v)) ==
      Some(Parsed(Print(v), Print(v), v, Classify(v.pre).0, Classify(v.pre).1, Classify(v.pre).2))
  {
    hide Strict, Print, Classify, Trim;
    PrintedEnds(v);
    assert !IsSpace(Print(v)[|Print(v)| - 1]);
    TrimNothing(Print(v));
    StrictPrint(v);
    assert Print(v)[0] != 'v' && Print(v)[0] != '=';
  }

  // ---- What the filter accepts and the comparison does not.

  lemma StartsWithDigit(s: string)
    requires Parse(s).Some?
    ensures s != [] && Decimal.IsDigit(s[0])
  {
    hide Split, ParseIdents, IndexOf;
    var a := s[..IndexOf(s, '+')];
    assert IndexOf(s, '+') == |s| ==> a == s;
    var b := a[..IndexOf(a, '-')];
    assert IndexOf(a, '-') == |a| ==> b == a;
    SplitHead(b, '.');
    assert NumberText(Split(b, '.')[0]);
    assert b[0] == a[0] == s[0];
  }

  lemma SplitHead(s: string, c: char)
    ensures |Split(s, c)| >= 1 && Split(s, c)[0] <= s
  {
  }

  lemma {:induction false} TrimEdges(s: string)
    ensures var t := Trim(s); t == [] || (!IsSpace(t[0]) && !IsSpace(t[|t| - 1]))
  {
    var u := TrimStart(s);
    var t := TrimEnd(u);
    if t != [] { assert t[0] == u[0]; }
  }

  /** The trimmed text begins with a digit, or with a digit after one `v`. */
  predicate DigitAtEdge(t: string) {
    t != [] && (Decimal.IsDigit(t[0]) || (t[0] == 'v' && |t| > 1 && Decimal.IsDigit(t[1])))
  }

  /** A version that the server accepts can be compared exactly when only spaces and one `v` precede its digits. */
  lemma ComparableIff(s: string)
    requires ParseVersion(s).Some?
    ensures Strict(s).Some? <==> DigitAtEdge(Trim(s))
  {
    hide Parse, Trim, Classify, Print, StripPrefixChars;
    var t := Trim(s);
    TrimEdges(s);
    if Strict(s).Some? {
      StartsWithDigit(if t != [] && t[0] == 'v' then t[1..] else t);
    } else if DigitAtEdge(t) {
      var u := if t[0] == 'v' then t[1..] else t;
      StripAtDigit(t);
      assert StripPrefixChars(t) == u;
      assert u[|u| - 1] == t[|t| - 1];
      TrimNothing(u);
    }
  }

  lemma StripAtDigit(t: string)
    requires DigitAtEdge(t)
    ensures StripPrefixChars(t) == if t[0] == 'v' then t[1..] else t
  {
  }

  /** So an equals sign in front of any printed version passes the filter and makes the comparison throw. */
  lemma EqualsSignIsNotComparable(v: Version)
    requires Valid(v)
    ensures ParseVersion("=" + Print(v)).Some? && Strict("=" + Print(v)) == None
  {
    hide Strict, Parse, Print, Classify, Trim;
    var p := Print(v);
    PrintedEnds(v);
    var s := "=" + p;
    assert s[|s| - 1] == p[|p| - 1] && s[1..] == p;
    TrimNothing(s);
    assert StripPrefixChars(s) == StripPrefixChars(p) == p;
    StrictPrint(v);
    ComparableIff(s);
  }

  // ---- The two programs agree.

  function KindOf(c: ReleaseScript.Channel): Kind { if c.AlphaChannel? then AlphaKind else BetaKind }

  function ChannelFor(c: ReleaseScript.Channel): Channel {
    match c
    case AlphaChannel => AlphaChannel
    case BetaChannel => BetaChannel
    case ReleaseChannel => ReleaseChannel
  }

  lemma FormatIsClassified(f: ReleaseScript.Format)
    requires ReleaseScript.WellFormed(f)
    ensures Classify(ReleaseScript.PreOf(f)) ==
      if f.Stable? then (None, None, None) else (Some(KindOf(f.channel)), Some(f.n), None)
  {
    hide MatchNightly, ReleaseScript.MatchConcatenated;
    if f.Padded? {
      ReleaseScript.PaddedIsMatched(f.channel, f.n);
    } else if f.Legacy? {
      NamesAreBare(f.channel);
    }
  }

  lemma NamesAreBare(c: ReleaseScript.Channel)
    requires !c.ReleaseChannel?
    ensures ReleaseScript.MatchConcatenated(ReleaseScript.ChannelName(c)) == None
    ensures MatchNightly(ReleaseScript.ChannelName(c)) == None
  {
  }

  /**
   * Every version the release script prints or starts from is read by the server as it was meant: it is offered on its own
   * channel and, if it is a beta, to alpha clients as well, and on no other.
   */
  lemma ScriptVersionsAreRead(f: ReleaseScript.Format)
    requires ReleaseScript.WellFormed(f)
    ensures var r := ParseVersion(ReleaseScript.Show(f));
      && r.Some?
      && r.value.version == ReleaseScript.VersionOf(f) && r.value.date == None
      && r.value.kind == (if f.Stable? then None else Some(KindOf(f.channel)))
      && r.value.number == (if f.Stable? then None else Some(f.n))
      && forall channel :: MatchesChannel(r.value, channel) <==>
           channel == (if f.Stable? then ReleaseChannel else ChannelFor(f.channel)) ||
           (channel == AlphaChannel && !f.Stable? && f.channel.BetaChannel?)
  {
    hide Strict, Print, Clean, Classify;
    ReleaseScript.FormatIsValid(f);
    PrintedIsClean(ReleaseScript.VersionOf(f));
    FormatIsClassified(f);
  }
}
