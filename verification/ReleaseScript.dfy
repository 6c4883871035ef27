/** The release script: version bumping over prerelease channels, and runs of it. */
module ReleaseScript {
  import opened SemVer
  import opened Splitting
  import opened Wrappers
  import Decimal

  datatype Channel = AlphaChannel | BetaChannel | ReleaseChannel
  datatype Bump = Patch | Minor | Major

  const PADDING: nat := 3
  const NUM_MAX: nat := 999

  function ChannelName(c: Channel): string {
    match c
    case AlphaChannel => "alpha"
    case BetaChannel => "beta"
    case ReleaseChannel => "release"
  }

  function ChannelOrder(c: Channel): nat {
    match c
    case AlphaChannel => 0
    case BetaChannel => 1
    case ReleaseChannel => 2
  }

  /** `padPrereleaseNum` */
  function PadNumber(n: nat): (r: Result<string>)
    ensures r.Ok? <==> n <= NUM_MAX
    ensures r.Ok? ==> |r.value| == PADDING && Decimal.AllDigits(r.value) && Decimal.Number(r.value) == n
  {
    assert Decimal.Pow10(3) == 1000;
    if n > NUM_MAX then Err("Prerelease number exceeds the maximum supported value")
    else Decimal.NumberOfPadded(n, PADDING); Ok(Decimal.PaddedText(n, PADDING))
  }

  /** `^(alpha|beta)(\d+)$` */
  function MatchConcatenated(s: string): (r: Option<(Channel, nat)>) {
    if "alpha" < s && Decimal.AllDigits(s[5..]) then Some((AlphaChannel, Decimal.Number(s[5..])))
    else if "beta" < s && Decimal.AllDigits(s[4..]) then Some((BetaChannel, Decimal.Number(s[4..])))
    else None
  }

  /** `Number.parseInt(s, 10) || 0`: the leading digits, or zero. */
  function LeadingNumber(s: string): nat {
    Decimal.Number(LeadingDigits(s))
  }

  function LeadingDigits(s: string): (r: string)
    ensures Decimal.AllDigits(r)
  {
    if s == [] || !Decimal.IsDigit(s[0]) then [] else [s[0]] + LeadingDigits(s[1..])
  }

  datatype Parsed = Parsed(version: Version, prerelease: Option<Channel>, number: nat, base: string)

  /** The channel and number read from the prerelease identifiers. */
  function Classify(pre: seq<Ident>): (r: Option<(Channel, nat)>) {
    if pre == [] then None
    else
      var first := IdentString(pre[0]);
      if MatchConcatenated(first).Some? then MatchConcatenated(first)
      else if (first == "alpha" || first == "beta") && |pre| >= 2 then
        Some((if first == "alpha" then AlphaChannel else BetaChannel,
              match pre[1] case Num(n) => n case Alpha(s) => LeadingNumber(s)))
      else None
  }

  /** `parseVersion` of bump-version.ts */
  function ParseVersion(s: string): (r: Result<Parsed>) {
    match Strict(s)
    case None => Err("Invalid version")
    case Some(v) =>
      var c := Classify(v.pre);
      Ok(Parsed(v, if c.Some? then Some(c.value.0) else None, if c.Some? then c.value.1 else 0, Core(v.major, v.minor, v.patch)))
  }

  /** `semver.inc` */
  function Inc(v: Version, bump: Bump): Version {
    match bump
    case Major => if v.minor != 0 || v.patch != 0 || v.pre == [] then Version(v.major + 1, 0, 0, []) else Version(v.major, 0, 0, [])
    case Minor => if v.patch != 0 || v.pre == [] then Version(v.major, v.minor + 1, 0, []) else Version(v.major, v.minor, 0, [])
    case Patch => if v.pre == [] then Version(v.major, v.minor, v.patch + 1, []) else Version(v.major, v.minor, v.patch, [])
  }

  /** A stable version that a bump of this size can lead to: what is below the bumped number is zero. */
  predicate Rounded(w: Version, bump: Bump) {
    w.pre == [] && (bump != Patch ==> w.patch == 0) && (bump == Major ==> w.minor == 0)
  }

  /** A bump leads to the least such version above the given one. */
  lemma IncIsLeast(v: Version, bump: Bump, w: Version)
    ensures Rounded(Inc(v, bump), bump) && Compare(v, Inc(v, bump)) < 0
    ensures Rounded(w, bump) && Compare(v, w) < 0 ==> Compare(Inc(v, bump), w) <= 0
  {
  }

  function WithNumber(base: string, channel: Channel, n: nat): (r: Result<string>) {
    match PadNumber(n)
    case Err(m) => Err(m)
    case Ok(padded) => Ok(base + "-" + ChannelName(channel) + padded)
  }

  /** `calculateNextVersion` */
  function CalculateNext(current: string, bump: Bump, target: Channel): (r: Result<string>) {
    match ParseVersion(current)
    case Err(m) => Err(m)
    case Ok(p) =>
      if target.ReleaseChannel? then
        if p.prerelease.None? then Ok(Print(Inc(p.version, bump))) else Ok(p.base)
      else if p.prerelease.None? then WithNumber(Print(Inc(p.version, bump)), target, 1)
      else if p.prerelease.value == target then WithNumber(p.base, target, p.number + 1)
      else if ChannelOrder(target) < ChannelOrder(p.prerelease.value) then Err("Cannot downgrade")
      else WithNumber(p.base, target, 1)
  }

  /** The choices of one invocation of the script. */
  datatype Choice = Choice(bump: Bump, target: Channel, newCycle: bool)

  /** The version part of `main` in index.ts, with its handling of `--new-cycle`. */
  function NextVersion(current: string, choice: Choice): (r: Result<string>) {
    if !choice.newCycle then CalculateNext(current, choice.bump, choice.target)
    else
      match ParseVersion(current)
      case Err(m) => Err(m)
      case Ok(p) =>
        if p.prerelease.None? then Err("--new-cycle is only valid when current version is a prerelease")
        else if choice.target.ReleaseChannel? then Err("--new-cycle cannot be used with release channel")
        else CalculateNext(p.base, choice.bump, choice.target)
  }

  // ---- The formats.

  /** A stable version, a three-digit alpha or beta, or a dotted one from before the format switch. */
  datatype Format =
    | Stable(major: nat, minor: nat, patch: nat)
    | Padded(major: nat, minor: nat, patch: nat, channel: Channel, n: nat)
    | Legacy(major: nat, minor: nat, patch: nat, channel: Channel, n: nat)

  predicate WellFormed(f: Format) {
    match f
    case Stable(_, _, _) => true
    case Padded(_, _, _, c, n) => !c.ReleaseChannel? && n <= NUM_MAX
    case Legacy(_, _, _, c, _) => !c.ReleaseChannel?
  }

  predicate CanonicalFormat(f: Format) { WellFormed(f) && !f.Legacy? }

  function PreOf(f: Format): seq<Ident> {
    match f
    case Stable(_, _, _) => []
    case Padded(_, _, _, c, n) => [Alpha(ChannelName(c) + Decimal.PaddedText(n, PADDING))]
    case Legacy(_, _, _, c, n) => [Alpha(ChannelName(c)), Num(n)]
  }

  function VersionOf(f: Format): Version { Version(f.major, f.minor, f.patch, PreOf(f)) }

  function Show(f: Format): string { Print(VersionOf(f)) }

  lemma FormatIsValid(f: Format)
    requires WellFormed(f)
    ensures Valid(VersionOf(f))
  {
    if f.Padded? {
      var s := ChannelName(f.channel) + Decimal.PaddedText(f.n, PADDING);
      assert s[0] == ChannelName(f.channel)[0] && !Decimal.IsDigit(s[0]);
      forall i | 0 <= i < |s| ensures IdentChar(s[i]) {
        assert i >= |ChannelName(f.channel)| ==> Decimal.IsDigit(s[i]);
      }
    } else if f.Legacy? {
      assert !Decimal.IsDigit(ChannelName(f.channel)[0]);
    }
  }

  lemma ShowIsRead(f: Format)
    requires WellFormed(f)
    ensures Strict(Show(f)) == Some(VersionOf(f))
  {
    hide Strict, Print;
    FormatIsValid(f);
    StrictPrint(VersionOf(f));
  }

  lemma PaddedIsMatched(c: Channel, n: nat)
    requires !c.ReleaseChannel? && n <= NUM_MAX
    ensures MatchConcatenated(ChannelName(c) + Decimal.PaddedText(n, PADDING)) == Some((c, n))
  {
    var s, d := ChannelName(c) + Decimal.PaddedText(n, PADDING), Decimal.PaddedText(n, PADDING);
    assert Decimal.Pow10(3) == 1000;
    Decimal.NumberOfPadded(n, PADDING);
    if c.AlphaChannel? {
      assert s[5..] == d && s[..5] == "alpha";
    } else {
      assert s[4..] == d && s[..4] == "beta" && s[0] == 'b';
    }
  }

  /** The script reads every known format back to its channel and number. */
  lemma FormatIsClassified(f: Format)
    requires WellFormed(f)
    ensures Classify(PreOf(f)) == if f.Stable? then None else Some((f.channel, f.n))
  {
    if f.Padded? {
      PaddedIsMatched(f.channel, f.n);
    } else if f.Legacy? {
      assert MatchConcatenated("alpha") == None && MatchConcatenated("beta") == None;
    }
  }

  lemma ReadFormat(f: Format)
    requires WellFormed(f)
    ensures ParseVersion(Show(f)) ==
      Ok(Parsed(VersionOf(f), if f.Stable? then None else Some(f.channel), if f.Stable? then 0 else f.n, Core(f.major, f.minor, f.patch)))
  {
    hide Strict, Print, Classify, Core, PreOf;
    ShowIsRead(f);
    FormatIsClassified(f);
    if f.Stable? { assert PreOf(f) == [] by { StableHasNone(f); } }
  }

  lemma StableHasNone(f: Format)
    requires f.Stable?
    ensures PreOf(f) == []
  {
  }

  // ---- What one step emits.

  function Base(f: Format): Format { Stable(f.major, f.minor, f.patch) }

  function BumpFormat(f: Format, bump: Bump): Format {
    match bump
    case Major => Stable(f.major + 1, 0, 0)
    case Minor => Stable(f.major, f.minor + 1, 0)
    case Patch => Stable(f.major, f.minor, f.patch + 1)
  }

  function Tagged(f: Format, c: Channel, n: nat): Format { Padded(f.major, f.minor, f.patch, c, n) }

  /** The step on formats instead of texts; nothing when the script throws. */
  function NextFormat(f: Format, bump: Bump, target: Channel): (r: Option<Format>) {
    if target.ReleaseChannel? then Some(if f.Stable? then BumpFormat(f, bump) else Base(f))
    else if f.Stable? then Some(Tagged(BumpFormat(f, bump), target, 1))
    else if f.channel == target then (if f.n + 1 <= NUM_MAX then Some(Tagged(f, target, f.n + 1)) else None)
    else if ChannelOrder(target) < ChannelOrder(f.channel) then None
    else Some(Tagged(f, target, 1))
  }

  function NextByChoice(f: Format, choice: Choice): (r: Option<Format>) {
    if !choice.newCycle then NextFormat(f, choice.bump, choice.target)
    else if f.Stable? || choice.target.ReleaseChannel? then None
    else NextFormat(Base(f), choice.bump, choice.target)
  }

  lemma BaseText(f: Format)
    ensures Core(f.major, f.minor, f.patch) == Show(Base(f))
  {
    assert Show(Base(f)) == Core(f.major, f.minor, f.patch) + "";
  }

  lemma TaggedText(f: Format, c: Channel, n: nat)
    requires n <= NUM_MAX
    ensures WithNumber(Core(f.major, f.minor, f.patch), c, n) == Ok(Show(Tagged(f, c, n)))
  {
    hide Core;
    var t := Tagged(f, c, n);
    var parts := IdentStrings(PreOf(t));
    assert |parts| == 1 && parts[0] == ChannelName(c) + Decimal.PaddedText(n, PADDING);
    assert Join(parts, '.') == parts[0];
    assert Core(f.major, f.minor, f.patch) + "-" + ChannelName(c) + Decimal.PaddedText(n, PADDING)
        == Core(f.major, f.minor, f.patch) + ("-" + parts[0]);
  }

  lemma TooLarge(base: string, c: Channel, n: nat)
    requires n > NUM_MAX
    ensures WithNumber(base, c, n).Err?
  {
  }

  lemma IncText(f: Format, bump: Bump)
    requires f.Stable?
    ensures Print(Inc(VersionOf(f), bump)) == Show(BumpFormat(f, bump))
    ensures Print(Inc(VersionOf(f), bump)) == Core(BumpFormat(f, bump).major, BumpFormat(f, bump).minor, BumpFormat(f, bump).patch)
  {
    hide Core;
    BaseText(BumpFormat(f, bump));
  }

  /** The script prints exactly the text of the step on formats, and throws exactly when there is none. */
  lemma StepText(f: Format, bump: Bump, target: Channel)
    requires WellFormed(f)
    ensures match NextFormat(f, bump, target)
            case Some(g) => CalculateNext(Show(f), bump, target) == Ok(Show(g)) && CanonicalFormat(g)
            case None => CalculateNext(Show(f), bump, target).Err?
  {
    hide Show, Core, Print, Inc, Strict, Classify, WithNumber;
    ReadFormat(f);
    BaseText(f);
    if f.Stable? { IncText(f, bump); TaggedText(BumpFormat(f, bump), target, 1); }
    TaggedText(f, target, 1);
    if !f.Stable? {
      if f.n + 1 <= NUM_MAX { TaggedText(f, target, f.n + 1); } else { TooLarge(Core(f.major, f.minor, f.patch), target, f.n + 1); }
    }
  }

  lemma ChoiceText(f: Format, choice: Choice)
    requires WellFormed(f)
    ensures match NextByChoice(f, choice)
            case Some(g) => NextVersion(Show(f), choice) == Ok(Show(g)) && CanonicalFormat(g)
            case None => NextVersion(Show(f), choice).Err?
  {
    hide Show, Core, Strict, Classify, CalculateNext, NextFormat;
    ReadFormat(f);
    BaseText(f);
    StepText(f, choice.bump, choice.target);
    StepText(Base(f), choice.bump, choice.target);
  }

  /**
   * A stable version goes to the least version of the bump above it, on the release channel as it is, and with the
   * first number of the channel otherwise.
   */
  lemma BumpIsLeast(f: Format, bump: Bump, target: Channel, w: Version) returns (g: Format)
    requires WellFormed(f) && f.Stable?
    ensures g.Stable? && CalculateNext(Show(f), bump, ReleaseChannel) == Ok(Show(g))
    ensures !target.ReleaseChannel? ==> CalculateNext(Show(f), bump, target) == Ok(Show(Tagged(g, target, 1)))
    ensures Rounded(VersionOf(g), bump) && Compare(VersionOf(f), VersionOf(g)) < 0
    ensures Rounded(w, bump) && Compare(VersionOf(f), w) < 0 ==> Compare(VersionOf(g), w) <= 0
  {
    hide Show, CalculateNext, Compare;
    g := BumpFormat(f, bump);
    StepText(f, bump, ReleaseChannel);
    StepText(f, bump, target);
    IncIsLeast(VersionOf(f), bump, w);
    assert VersionOf(g) == Inc(VersionOf(f), bump);
  }

  // ---- Every step goes up.

  lemma ChannelsAscend(n: nat)
    requires n <= NUM_MAX
    ensures CompareText("alpha" + Decimal.PaddedText(n, PADDING), "beta" + Decimal.PaddedText(1, PADDING)) < 0
    ensures CompareText("alpha", "beta" + Decimal.PaddedText(1, PADDING)) < 0
  {
    assert ("beta" + Decimal.PaddedText(1, PADDING))[0] == 'b';
    assert ("alpha" + Decimal.PaddedText(n, PADDING))[0] == 'a';
  }

  lemma NumbersAscend(c: Channel, n: nat)
    requires n + 1 <= NUM_MAX
    ensures CompareText(ChannelName(c) + Decimal.PaddedText(n, PADDING), ChannelName(c) + Decimal.PaddedText(n + 1, PADDING)) < 0
  {
    hide CompareText;
    assert Decimal.Pow10(3) == 1000;
    CommonPrefix(ChannelName(c), Decimal.PaddedText(n, PADDING), Decimal.PaddedText(n + 1, PADDING));
    PaddedOrder(n, n + 1, PADDING);
  }

  /** A dotted identifier is a proper beginning of every padded one of its channel. */
  lemma LegacyBelow(c: Channel, n: nat)
    ensures CompareText(ChannelName(c), ChannelName(c) + Decimal.PaddedText(n, PADDING)) < 0
  {
    hide CompareText;
    assert ChannelName(c) + "" == ChannelName(c);
    CommonPrefix(ChannelName(c), "", Decimal.PaddedText(n, PADDING));
    EmptyIsLeast(Decimal.PaddedText(n, PADDING));
  }

  lemma EmptyIsLeast(s: string)
    requires s != []
    ensures CompareText("", s) < 0
  {
  }

  lemma SamePatchAscends(f: Format, g: Format)
    requires WellFormed(f) && !f.Stable? && g.Padded? && !g.channel.ReleaseChannel?
    requires f.major == g.major && f.minor == g.minor && f.patch == g.patch
    requires (f.channel == g.channel && g.n == f.n + 1 <= NUM_MAX) || (f.channel.AlphaChannel? && g.channel.BetaChannel? && g.n == 1)
    ensures Compare(VersionOf(f), VersionOf(g)) < 0
  {
    hide CompareText;
    if f.channel == g.channel {
      if f.Padded? { NumbersAscend(f.channel, f.n); } else { LegacyBelow(f.channel, g.n); }
    } else {
      ChannelsAscend(if f.Padded? then f.n else 0);
    }
    assert CompareIdent(PreOf(f)[0], PreOf(g)[0]) < 0;
  }

  lemma StepAscends(f: Format, bump: Bump, target: Channel)
    requires WellFormed(f) && NextFormat(f, bump, target).Some?
    ensures Compare(VersionOf(f), VersionOf(NextFormat(f, bump, target).value)) < 0
  {
    hide CompareText;
    var g := NextFormat(f, bump, target).value;
    if !f.Stable? && !target.ReleaseChannel? {
      SamePatchAscends(f, g);
    }
  }

  /** Padded prereleases of one base are ordered by channel and then by number. */
  lemma PaddedInOrder(f: Format, g: Format)
    requires CanonicalFormat(f) && CanonicalFormat(g) && f.Padded? && g.Padded?
    requires f.major == g.major && f.minor == g.minor && f.patch == g.patch
    ensures Compare(VersionOf(f), VersionOf(g)) ==
      if f.channel == g.channel then CompareNat(f.n, g.n) else if f.channel.AlphaChannel? then -1 else 1
  {
    hide CompareText, Decimal.PaddedText;
    var a, b := VersionOf(f).pre, VersionOf(g).pre;
    assert a[1..] == [] && b[1..] == [];
    var x, y := Decimal.PaddedText(f.n, PADDING), Decimal.PaddedText(g.n, PADDING);
    assert CompareIdents(a, b) == CompareText(ChannelName(f.channel) + x, ChannelName(g.channel) + y);
    if f.channel == g.channel {
      assert Decimal.Pow10(3) == 1000;
      CommonPrefix(ChannelName(f.channel), x, y);
      PaddedOrder(f.n, g.n, PADDING);
    } else {
      FirstLetters(x, y);
    }
  }

  lemma FirstLetters(x: string, y: string)
    ensures CompareText("alpha" + x, "beta" + y) == -1 && CompareText("beta" + x, "alpha" + y) == 1
  {
    assert ("alpha" + x)[0] == 'a' && ("beta" + y)[0] == 'b' && ("beta" + x)[0] == 'b' && ("alpha" + y)[0] == 'a';
  }

  /**
   * From a padded prerelease the script goes to the least one of the target channel with the same base above it, and
   * throws exactly when there is none; on the release channel it goes to the least stable version above it.
   */
  lemma PrereleaseStepIsLeast(f: Format, bump: Bump, target: Channel, n: nat)
    requires CanonicalFormat(f) && f.Padded? && 1 <= n <= NUM_MAX && !target.ReleaseChannel?
    ensures var above := Compare(VersionOf(f), VersionOf(Tagged(f, target, n))) < 0;
      match NextFormat(f, bump, target)
      case Some(g) => above ==> Compare(VersionOf(g), VersionOf(Tagged(f, target, n))) <= 0
      case None => !above
  {
    hide Compare, VersionOf;
    PaddedInOrder(f, Tagged(f, target, n));
    var g := NextFormat(f, bump, target);
    if g.Some? { PaddedInOrder(g.value, Tagged(f, target, n)); }
  }

  lemma ReleaseStepIsLeast(f: Format, bump: Bump, w: Version)
    requires CanonicalFormat(f) && f.Padded? && w.pre == []
    ensures NextFormat(f, bump, ReleaseChannel).Some?
    ensures Compare(VersionOf(f), w) < 0 ==> Compare(VersionOf(NextFormat(f, bump, ReleaseChannel).value), w) <= 0
  {
  }

  lemma ChoiceAscends(f: Format, choice: Choice)
    requires WellFormed(f) && NextByChoice(f, choice).Some?
    ensures Compare(VersionOf(f), VersionOf(NextByChoice(f, choice).value)) < 0
  {
    hide Compare, NextFormat;
    if choice.newCycle {
      assert Compare(VersionOf(f), VersionOf(Base(f))) < 0 by { BaseAbove(f); }
      StepAscends(Base(f), choice.bump, choice.target);
      TotalOrder(VersionOf(f), VersionOf(Base(f)), VersionOf(NextByChoice(f, choice).value));
    } else {
      StepAscends(f, choice.bump, choice.target);
    }
  }

  lemma BaseAbove(f: Format)
    requires !f.Stable?
    ensures Compare(VersionOf(f), VersionOf(Base(f))) < 0
  {
  }

  /** A text the script knows, and its precedence. */
  ghost predicate Known(s: string) { exists f: Format :: WellFormed(f) && s == Show(f) }

  ghost predicate KnownCanonical(s: string) { exists f: Format :: CanonicalFormat(f) && s == Show(f) }

  ghost predicate Precedes(s: string, t: string) {
    Strict(s).Some? && Strict(t).Some? && Compare(Strict(s).value, Strict(t).value) < 0
  }

  /** Whatever the script emits is canonical and strictly newer than what it started from. */
  lemma EmittedIsNewer(s: string, choice: Choice)
    requires Known(s) && NextVersion(s, choice).Ok?
    ensures KnownCanonical(NextVersion(s, choice).value) && Precedes(s, NextVersion(s, choice).value)
  {
    hide Show, Strict, NextVersion, NextByChoice, Compare;
    var f: Format :| WellFormed(f) && s == Show(f);
    ChoiceText(f, choice);
    ChoiceAscends(f, choice);
    ShowIsRead(f);
    ShowIsRead(NextByChoice(f, choice).value);
  }

  /** A run: each version is emitted from the one before it. */
  ghost predicate IsRun(versions: seq<string>, choices: seq<Choice>) {
    && |versions| == |choices| + 1
    && forall i :: 0 <= i < |choices| ==> NextVersion(versions[i], choices[i]) == Ok(versions[i + 1])
  }

  lemma {:induction false} RunStaysKnown(versions: seq<string>, choices: seq<Choice>, i: nat)
    requires IsRun(versions, choices) && Known(versions[0]) && i < |versions|
    ensures Known(versions[i]) && (i > 0 ==> KnownCanonical(versions[i]) && Precedes(versions[i - 1], versions[i]))
  {
    hide Strict, NextVersion, Precedes, Show;
    if i > 0 {
      RunStaysKnown(versions, choices, i - 1);
      assert NextVersion(versions[i - 1], choices[i - 1]) == Ok(versions[i - 1 + 1]);
      EmittedIsNewer(versions[i - 1], choices[i - 1]);
    }
  }

  /** In every run of the script every later version is strictly newer than every earlier one. */
  lemma {:induction false} RunsAscend(versions: seq<string>, choices: seq<Choice>, i: nat, j: nat)
    requires IsRun(versions, choices) && Known(versions[0]) && i < j < |versions|
    ensures KnownCanonical(versions[j]) && Precedes(versions[i], versions[j])
    decreases j
  {
    hide Strict, NextVersion, Show, Compare, Known, KnownCanonical;
    RunStaysKnown(versions, choices, j);
    if i < j - 1 {
      RunsAscend(versions, choices, i, j - 1);
      TotalOrder(Strict(versions[i]).value, Strict(versions[j - 1]).value, Strict(versions[j]).value);
    }
  }
}
