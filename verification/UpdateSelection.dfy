/** Which release the update server offers to a macOS client. */
module UpdateSelection {
  import opened JsText
  import opened SemVer
  import opened UpdateFeed
  import opened UpdateVersion
  import opened Wrappers

  /** An absent pin and an empty one are the same. */
  datatype Policy = Policy(blocked: seq<string>, pins: map<Channel, string>)

  function Pin(policy: Policy, channel: Channel): string {
    if channel in policy.pins then policy.pins[channel] else ""
  }

  predicate Eligible(r: Release, channel: Channel, policy: Policy) {
    && MatchesChannel(r.parsed, channel)
    && r.version !in policy.blocked
    && (Pin(policy, channel) == "" || r.version == Pin(policy, channel))
  }

  /** The policy has nothing against a version on this channel. */
  predicate Permits(policy: Policy, channel: Channel, version: string) {
    && version !in policy.blocked
    && (channel in policy.pins && policy.pins[channel] != "" ==> version == policy.pins[channel])
  }

  lemma EligibleIff(r: Release, channel: Channel, policy: Policy)
    ensures Eligible(r, channel, policy) <==> MatchesChannel(r.parsed, channel) && Permits(policy, channel, r.version)
  {
    hide MatchesChannel;
  }

  /** `getEligibleReleases` */
  function EligibleReleases(rs: seq<Release>, channel: Channel, policy: Policy): (r: seq<Release>)
    ensures forall x :: x in r <==> x in rs && Eligible(x, channel, policy)
    ensures forall x :: x in r ==> MatchesChannel(x.parsed, channel) && Permits(policy, channel, x.version)
    ensures forall x :: x in rs && MatchesChannel(x.parsed, channel) && Permits(policy, channel, x.version) ==> x in r
    ensures NewestFirst(rs) ==> NewestFirst(r)
  {
    hide Eligible, Order, Comparable, MatchesChannel, Permits;
    if rs == [] then []
    else
      EligibleIff(rs[0], channel, policy);
      var rest := EligibleReleases(rs[1..], channel, policy);
      assert rs == [rs[0]] + rs[1..];
      if Eligible(rs[0], channel, policy) then
        assert NewestFirst(rs) ==> NewestFirst([rs[0]] + rest) by {
          if NewestFirst(rs) { NewestInFront(rs[0], rest); }
        }
        [rs[0]] + rest
      else rest
  }

  // ---- The asset pattern.

  predicate SameText(s: string, t: string) { |s| == |t| && forall i :: 0 <= i < |s| ==> Lower(s[i]) == Lower(t[i]) }

  /** `(?:-[a-zA-Z0-9]+)?` */
  predicate OptionalSuffix(s: string) { s == [] || (|s| >= 2 && s[0] == '-' && forall i :: 1 <= i < |s| ==> Alphanumeric(s[i])) }

  function ZipTail(arch: string, version: string): string { "-darwin-" + arch + "-" + version + ".zip" }

  /** `buildMacOSZipPattern`: the application, perhaps one suffix, the architecture and the version, in any case. */
  predicate MatchesZip(name: string, app: string, arch: string, version: string) {
    var tail := ZipTail(arch, version);
    && |app| + |tail| <= |name|
    && SameText(name[..|app|], app)
    && SameText(name[|name| - |tail|..], tail)
    && OptionalSuffix(name[|app|..|name| - |tail|])
  }

  lemma SameTextConcat(a: string, b: string, x: string, y: string)
    requires |a| == |x|
    ensures SameText(a + b, x + y) <==> SameText(a, x) && SameText(b, y)
  {
    hide Lower;
    if SameText(a + b, x + y) {
      forall i | 0 <= i < |a| ensures Lower(a[i]) == Lower(x[i]) {
        assert (a + b)[i] == a[i] && (x + y)[i] == x[i];
      }
      forall i | 0 <= i < |b| ensures Lower(b[i]) == Lower(y[i]) {
        assert (a + b)[|a| + i] == b[i] && (x + y)[|a| + i] == y[i];
      }
    }
  }

  lemma SuffixUpToCase(s: string, t: string)
    requires SameText(s, t) && OptionalSuffix(t)
    ensures OptionalSuffix(s)
  {
  }

  /** The pattern read declaratively: some optional suffix completes the name, up to the case of its letters. */
  lemma ZipNames(name: string, app: string, arch: string, version: string)
    ensures MatchesZip(name, app, arch, version) <==>
      exists suffix :: OptionalSuffix(suffix) && SameText(name, app + suffix + ("-darwin-" + arch + "-" + version + ".zip"))
  {
    hide SameText, OptionalSuffix;
    var tail := ZipTail(arch, version);
    if MatchesZip(name, app, arch, version) {
      var suffix := name[|app|..|name| - |tail|];
      assert name == name[..|app|] + suffix + name[|name| - |tail|..];
      SameTextConcat(name[..|app|] + suffix, name[|name| - |tail|..], app + suffix, tail);
      SameTextConcat(name[..|app|], suffix, app, suffix);
      SameTextRefl(suffix);
    }
    if suffix :| OptionalSuffix(suffix) && SameText(name, app + suffix + tail) {
      SameLength(name, app + suffix + tail);
      var n, k := |app|, |app| + |suffix|;
      assert name == name[..n] + name[n..k] + name[k..];
      SameTextConcat(name[..n] + name[n..k], name[k..], app + suffix, tail);
      SameTextConcat(name[..n], name[n..k], app, suffix);
      SuffixUpToCase(name[n..k], suffix);
    }
  }

  lemma SameTextRefl(s: string)
    ensures SameText(s, s)
  {
  }

  lemma SameLength(s: string, t: string)
    requires SameText(s, t)
    ensures |s| == |t|
  {
  }

  /** `findAsset`: the first one that matches. */
  method FindAsset(r: Release, app: string, arch: string) returns (a: Option<Asset>)
    ensures a == FirstZip(r.assets, app, arch, r.version)
  {
    hide MatchesZip;
    for i := 0 to |r.assets|
      invariant FirstZip(r.assets, app, arch, r.version) == FirstZip(r.assets[i..], app, arch, r.version)
    {
      assert r.assets[i..][1..] == r.assets[i + 1..];
      if MatchesZip(r.assets[i].name, app, arch, r.version) {
        return Some(r.assets[i]);
      }
    }
    return None;
  }

  function FirstZip(assets: seq<Asset>, app: string, arch: string, version: string): (r: Option<Asset>)
    ensures r.Some? ==> r.value in assets && MatchesZip(r.value.name, app, arch, version)
    ensures r.None? ==> forall a :: a in assets ==> !MatchesZip(a.name, app, arch, version)
  {
    if assets == [] then None
    else if MatchesZip(assets[0].name, app, arch, version) then Some(assets[0])
    else FirstZip(assets[1..], app, arch, version)
  }

  // ---- The selection.

  datatype Match = Match(release: Release, asset: Asset)

  /** An empty current version counts as absent. */
  predicate Newer(r: Release, current: string) {
    current == "" || (Comparable(r) && Strict(current).Some? && Compare(Strict(r.version).value, Strict(current).value) > 0)
  }

  predicate ComparisonThrows(r: Release, current: string) { current != "" && (!Comparable(r) || Strict(current).None?) }

  /** What the loop of `selectMacOSUpdateAsset` returns on an eligible list. */
  function Offer(es: seq<Release>, app: string, arch: string, current: string): (r: Result<Option<Match>>) {
    if es == [] then Ok(None)
    else if ComparisonThrows(es[0], current) then Err("Invalid Version")
    else if !Newer(es[0], current) then Offer(es[1..], app, arch, current)
    else match FirstZip(es[0].assets, app, arch, es[0].version)
         case Some(a) => Ok(Some(Match(es[0], a)))
         case None => Offer(es[1..], app, arch, current)
  }

  /** `selectMacOSUpdateAsset` */
  method SelectMacOSUpdate(rs: seq<Release>, channel: Channel, app: string, arch: string, current: string,
                           policy: Policy)
    returns (r: Result<Option<Match>>)
    ensures r == Offer(EligibleReleases(rs, channel, policy), app, arch, current)
  {
    hide EligibleReleases, Newer, ComparisonThrows, FirstZip;
    var es := EligibleReleases(rs, channel, policy);
    for i := 0 to |es|
      invariant Offer(es, app, arch, current) == Offer(es[i..], app, arch, current)
    {
      assert es[i..][1..] == es[i + 1..];
      if ComparisonThrows(es[i], current) { return Err("Invalid Version"); }
      if !Newer(es[i], current) { continue; }
      var a := FindAsset(es[i], app, arch);
      if a.Some? { return Ok(Some(Match(es[i], a.value))); }
    }
    return Ok(None);
  }

  /** A release the client could be offered. */
  predicate Candidate(x: Release, channel: Channel, policy: Policy, app: string, arch: string, current: string) {
    && Eligible(x, channel, policy) && Newer(x, current)
    && exists a :: a in x.assets && MatchesZip(a.name, app, arch, x.version)
  }

  predicate Usable(x: Release, app: string, arch: string, current: string) {
    Newer(x, current) && FirstZip(x.assets, app, arch, x.version).Some?
  }

  /** On any list, sorted or not, the offer is the first usable release, unless a comparison throws on the way. */
  lemma {:induction false} OfferIsFirst(es: seq<Release>, app: string, arch: string, current: string) returns (k: nat)
    ensures k <= |es| && forall i :: 0 <= i < k ==> !Usable(es[i], app, arch, current) && !ComparisonThrows(es[i], current)
    ensures k == |es| <==> Offer(es, app, arch, current) == Ok(None)
    ensures k < |es| ==> (ComparisonThrows(es[k], current) <==> Offer(es, app, arch, current).Err?)
    ensures k < |es| && !ComparisonThrows(es[k], current) ==>
      && Usable(es[k], app, arch, current)
      && Offer(es, app, arch, current) == Ok(Some(Match(es[k], FirstZip(es[k].assets, app, arch, es[k].version).value)))
  {
    hide Newer, ComparisonThrows, FirstZip;
    if es == [] || ComparisonThrows(es[0], current) || Usable(es[0], app, arch, current) {
      k := 0;
    } else {
      var j := OfferIsFirst(es[1..], app, arch, current);
      k := j + 1;
    }
  }

  lemma UsableIsCandidate(x: Release, channel: Channel, policy: Policy, app: string, arch: string, current: string)
    requires Eligible(x, channel, policy)
    ensures Usable(x, app, arch, current) <==> Candidate(x, channel, policy, app, arch, current)
  {
    hide Newer, MatchesZip, Eligible;
  }

  /** The selection fails exactly when there is something to compare and the client's version cannot be parsed. */
  lemma SelectionFailsIff(rs: seq<Release>, channel: Channel, app: string, arch: string, current: string,
                          policy: Policy)
    requires NewestFirst(rs)
    ensures var es := EligibleReleases(rs, channel, policy);
      Offer(es, app, arch, current).Err? <==> es != [] && current != "" && Strict(current).None?
  {
    hide EligibleReleases, Strict, FirstZip, Order, Compare;
    var es := EligibleReleases(rs, channel, policy);
    var k := OfferIsFirst(es, app, arch, current);
  }

  /** The offer is a candidate that no candidate exceeds, and there is none exactly when there is no candidate. */
  lemma OfferIsMaximal(rs: seq<Release>, channel: Channel, app: string, arch: string, current: string, policy: Policy)
    requires NewestFirst(rs) && (current == "" || Strict(current).Some?)
    ensures var o := Offer(EligibleReleases(rs, channel, policy), app, arch, current);
      && o.Ok?
      && (o.value.None? <==> forall x :: x in rs ==> !Candidate(x, channel, policy, app, arch, current))
      && (o.value.Some? ==>
            var m := o.value.value;
            && m.release in rs && Candidate(m.release, channel, policy, app, arch, current)
            && m.asset in m.release.assets && MatchesZip(m.asset.name, app, arch, m.release.version)
            && forall x :: x in rs && Candidate(x, channel, policy, app, arch, current) ==> Comparable(x) && Order(x, m.release) <= 0)
  {
    hide EligibleReleases, Strict, Newer, FirstZip, Compare, Eligible, MatchesZip, Candidate, Order;
    var es := EligibleReleases(rs, channel, policy);
    SelectionFailsIff(rs, channel, app, arch, current, policy);
    var k := OfferIsFirst(es, app, arch, current);
    forall x | x in rs && Candidate(x, channel, policy, app, arch, current)
      ensures k < |es| && Comparable(x) && Order(x, es[k]) <= 0 {
      CandidateIsEligible(x, channel, policy, app, arch, current);
      UsableIsCandidate(x, channel, policy, app, arch, current);
      assert x in es;
      var i :| 0 <= i < |es| && es[i] == x;
      assert i >= k;
      OrderIsTransitive(es[k], x, x);
    }
    if k < |es| {
      assert es[k] in es;
      UsableIsCandidate(es[k], channel, policy, app, arch, current);
    }
  }

  lemma CandidateIsEligible(x: Release, channel: Channel, policy: Policy, app: string, arch: string, current: string)
    requires Candidate(x, channel, policy, app, arch, current)
    ensures Eligible(x, channel, policy) && Newer(x, current)
  {
  }

  lemma EmptyIsNoVersion()
    ensures Strict("") == None
  {
  }

  /** A client that installs what it was offered is offered nothing more from the same list and policy. */
  lemma InstalledIsFinal(rs: seq<Release>, channel: Channel, app: string, arch: string, current: string, policy: Policy)
    requires NewestFirst(rs) && Offer(EligibleReleases(rs, channel, policy), app, arch, current).Ok?
    requires Offer(EligibleReleases(rs, channel, policy), app, arch, current).value.Some?
    ensures var m := Offer(EligibleReleases(rs, channel, policy), app, arch, current).value.value;
      Offer(EligibleReleases(rs, channel, policy), app, arch, m.release.version) == Ok(None)
  {
    hide EligibleReleases, Offer, Strict, FirstZip, Eligible, MatchesZip, Candidate, Compare;
    var es := EligibleReleases(rs, channel, policy);
    SelectionFailsIff(rs, channel, app, arch, current, policy);
    var k := OfferIsFirst(es, app, arch, current);
    OfferIsMaximal(rs, channel, app, arch, current, policy);
    var m := Offer(es, app, arch, current).value.value;
    CandidateIsEligible(m.release, channel, policy, app, arch, current);
    EmptyIsNoVersion();
    assert m.release.version != "";
    OfferIsMaximal(rs, channel, app, arch, m.release.version, policy);
    forall x | x in rs ensures !Candidate(x, channel, policy, app, arch, m.release.version) {
      if Candidate(x, channel, policy, app, arch, m.release.version) {
        NewerIsCandidate(x, m.release, channel, policy, app, arch, current);
        assert Order(x, m.release) <= 0;
        CandidateIsEligible(x, channel, policy, app, arch, m.release.version);
        assert false;
      }
    }
  }

  /** What is newer than an offered release was newer than the client before. */
  lemma NewerIsCandidate(x: Release, y: Release, channel: Channel, policy: Policy, app: string, arch: string,
                         current: string)
    requires Candidate(x, channel, policy, app, arch, y.version) && y.version != "" && Newer(y, current)
    ensures Candidate(x, channel, policy, app, arch, current)
  {
    hide Strict, Compare, Eligible, MatchesZip;
    if current != "" {
      TotalOrder(Strict(current).value, Strict(y.version).value, Strict(x.version).value);
      TotalOrder(Strict(x.version).value, Strict(current).value, Strict(y.version).value);
      TotalOrder(Strict(x.version).value, Strict(y.version).value, Strict(current).value);
      TotalOrder(Strict(y.version).value, Strict(current).value, Strict(x.version).value);
    }
  }

  // ---- What the policy does to the offer.

  /** Nothing blocked, nothing off the pin and nothing of another channel is ever offered, on any list. */
  lemma OfferIsPermitted(rs: seq<Release>, channel: Channel, app: string, arch: string, current: string,
                         policy: Policy)
    ensures var o := Offer(EligibleReleases(rs, channel, policy), app, arch, current);
      o.Ok? && o.value.Some? ==>
        var x := o.value.value.release;
        x in rs && MatchesChannel(x.parsed, channel) && Permits(policy, channel, x.version)
  {
    hide EligibleReleases, Newer, ComparisonThrows, FirstZip, MatchesChannel;
    var es := EligibleReleases(rs, channel, policy);
    var k := OfferIsFirst(es, app, arch, current);
    if k < |es| { assert es[k] in es; }
  }

  /** A release of the channel that the policy permits, that is newer and has the asset, keeps an offer from being none. */
  lemma PermittedIsOffered(rs: seq<Release>, channel: Channel, app: string, arch: string, current: string,
                           policy: Policy, x: Release, a: Asset)
    requires NewestFirst(rs) && (current == "" || Strict(current).Some?)
    requires x in rs && MatchesChannel(x.parsed, channel) && Permits(policy, channel, x.version) && Newer(x, current)
    requires a in x.assets && MatchesZip(a.name, app, arch, x.version)
    ensures var o := Offer(EligibleReleases(rs, channel, policy), app, arch, current);
      && o.Ok? && o.value.Some? && Comparable(x) && Comparable(o.value.value.release)
      && Order(x, o.value.value.release) <= 0
  {
    hide EligibleReleases, Offer, Newer, MatchesZip, MatchesChannel, Strict, Order, Comparable, Candidate;
    OfferIsMaximal(rs, channel, app, arch, current, policy);
    PermittedIsCandidate(x, a, channel, app, arch, current, policy);
  }

  lemma PermittedIsCandidate(x: Release, a: Asset, channel: Channel, app: string, arch: string, current: string,
                             policy: Policy)
    requires MatchesChannel(x.parsed, channel) && Permits(policy, channel, x.version) && Newer(x, current)
    requires a in x.assets && MatchesZip(a.name, app, arch, x.version)
    ensures Candidate(x, channel, policy, app, arch, current)
  {
    hide MatchesChannel, Newer, MatchesZip;
  }

  function Blocking(policy: Policy, version: string): Policy { policy.(blocked := policy.blocked + [version]) }

  function Pinning(policy: Policy, channel: Channel, version: string): Policy {
    policy.(pins := policy.pins[channel := version])
  }

  /** The best candidate under `policy` among the releases with, or without, this version. */
  ghost predicate BestAmong(o: Result<Option<Match>>, rs: seq<Release>, channel: Channel, app: string, arch: string,
                            current: string, policy: Policy, version: string, with: bool) {
    && o.Ok?
    && (o.value.None? <==>
        forall x :: x in rs && (x.version == version <==> with) ==> !Candidate(x, channel, policy, app, arch, current))
    && (o.value.Some? ==>
          var y := o.value.value.release;
          && y in rs && (y.version == version <==> with) && Candidate(y, channel, policy, app, arch, current)
          && forall x :: x in rs && (x.version == version <==> with) && Candidate(x, channel, policy, app, arch, current) ==>
               Comparable(x) && Comparable(y) && Order(x, y) <= 0)
  }

  /** Blocking a version, an offered one for instance, turns the offer into the best of the others, or into none. */
  lemma BlockingTheOffer(rs: seq<Release>, channel: Channel, app: string, arch: string, current: string, policy: Policy,
                         version: string)
    requires NewestFirst(rs) && (current == "" || Strict(current).Some?)
    ensures BestAmong(Offer(EligibleReleases(rs, channel, Blocking(policy, version)), app, arch, current),
                      rs, channel, app, arch, current, policy, version, false)
  {
    hide EligibleReleases, Offer, Candidate, Strict, Order, Comparable, Blocking, NewestFirst, MatchesZip;
    OfferIsMaximal(rs, channel, app, arch, current, Blocking(policy, version));
    forall x ensures Candidate(x, channel, Blocking(policy, version), app, arch, current) <==>
                     x.version != version && Candidate(x, channel, policy, app, arch, current) {
      BlockedCandidate(x, channel, app, arch, current, policy, version);
    }
  }

  lemma BlockedCandidate(x: Release, channel: Channel, app: string, arch: string, current: string, policy: Policy,
                         version: string)
    ensures Candidate(x, channel, Blocking(policy, version), app, arch, current) <==>
      x.version != version && Candidate(x, channel, policy, app, arch, current)
  {
    hide MatchesChannel, Newer, MatchesZip;
  }

  /** Pinning a channel leaves the best candidate of that version, or none, whatever an older pin allowed. */
  lemma PinningTheOffer(rs: seq<Release>, channel: Channel, app: string, arch: string, current: string, policy: Policy,
                        version: string)
    requires NewestFirst(rs) && (current == "" || Strict(current).Some?) && version != ""
    ensures BestAmong(Offer(EligibleReleases(rs, channel, Pinning(policy, channel, version)), app, arch, current),
                      rs, channel, app, arch, current, Pinning(policy, channel, ""), version, true)
  {
    hide EligibleReleases, Offer, Candidate, Strict, Order, Comparable, Pinning, NewestFirst, MatchesZip;
    OfferIsMaximal(rs, channel, app, arch, current, Pinning(policy, channel, version));
    forall x ensures Candidate(x, channel, Pinning(policy, channel, version), app, arch, current) <==>
                     x.version == version && Candidate(x, channel, Pinning(policy, channel, ""), app, arch, current) {
      PinnedCandidate(x, channel, app, arch, current, policy, version);
    }
  }

  lemma PinnedCandidate(x: Release, channel: Channel, app: string, arch: string, current: string, policy: Policy,
                        version: string)
    requires version != ""
    ensures Candidate(x, channel, Pinning(policy, channel, version), app, arch, current) <==>
      x.version == version && Candidate(x, channel, Pinning(policy, channel, ""), app, arch, current)
  {
    hide MatchesChannel, Newer, MatchesZip;
  }

  // ---- The selection on a fetched list.

  /** The release was accepted from an entry of the published data. */
  ghost predicate AcceptedFrom(data: seq<Entry>, app: string, x: Release) {
    exists i :: 0 <= i < |data| && Accept(data[i], app) == Some(x)
  }

  /** A published release that could be offered to the client. */
  ghost predicate Offerable(data: seq<Entry>, x: Release, channel: Channel, policy: Policy, app: string, arch: string,
                            current: string) {
    AcceptedFrom(data, app, x) && Candidate(x, channel, policy, app, arch, current)
  }

  /** The offer is among the published candidates, has a matching asset, and no published candidate exceeds it. */
  ghost predicate IsBest(data: seq<Entry>, m: Match, channel: Channel, policy: Policy, app: string, arch: string,
                         current: string) {
    && Offerable(data, m.release, channel, policy, app, arch, current)
    && m.asset in m.release.assets && MatchesZip(m.asset.name, app, arch, m.release.version)
    && forall x :: Offerable(data, x, channel, policy, app, arch, current) ==>
         Comparable(x) && Comparable(m.release) && Order(x, m.release) <= 0
  }

  /** The fetched list is newest first and holds exactly the accepted releases. */
  lemma FetchedList(data: seq<Entry>, app: string) returns (rs: seq<Release>)
    requires AllComparable(Collect(data, app))
    ensures Feed(data, app) == Ok(rs) && NewestFirst(rs)
    ensures forall x :: x in rs <==> AcceptedFrom(data, app, x)
  {
    hide Collect, Feed, Comparable, Order, Accept, ParseVersion;
    FeedIsSorted(data, app, Version(0, 0, 0, []));
    rs := Feed(data, app).value;
    forall x ensures x in rs <==> AcceptedFrom(data, app, x) { InFeedIff(data, app, x); }
  }

  /**
   * From published data to an installed update: the client is offered a published candidate that no published candidate
   * exceeds, nothing if and only if there is none, and nothing more once it has installed the offer.
   */
  lemma FetchedOffer(data: seq<Entry>, channel: Channel, app: string, arch: string, current: string, policy: Policy)
    requires AllComparable(Collect(data, app)) && (current == "" || Strict(current).Some?)
    ensures Feed(data, app).Ok?
    ensures var es := EligibleReleases(Feed(data, app).value, channel, policy);
      var o := Offer(es, app, arch, current);
      && o.Ok?
      && (o.value.None? <==> forall x :: !Offerable(data, x, channel, policy, app, arch, current))
      && (o.value.Some? ==>
            && IsBest(data, o.value.value, channel, policy, app, arch, current)
            && Offer(es, app, arch, o.value.value.release.version) == Ok(None))
  {
    hide Collect, Feed, EligibleReleases, Offer, Strict, Candidate, MatchesZip, Order, Comparable, AcceptedFrom;
    var rs := FetchedList(data, app);
    OfferIsMaximal(rs, channel, app, arch, current, policy);
    var o := Offer(EligibleReleases(rs, channel, policy), app, arch, current);
    if o.value.Some? {
      assert Offerable(data, o.value.value.release, channel, policy, app, arch, current);
      InstalledIsFinal(rs, channel, app, arch, current, policy);
    }
  }

  lemma EligibleOfOne(x: Release, channel: Channel, policy: Policy)
    ensures EligibleReleases([x], channel, policy) == if Eligible(x, channel, policy) then [x] else []
  {
    hide Eligible, NewestFirst;
    assert [x][1..] == [];
    assert EligibleReleases([x][1..], channel, policy) == [];
  }

  /**
   * The one list that is fetched although it cannot be compared holds a single release: if that release is eligible,
   * the selection throws for every client that names its version, and offers it to a client that does not.
   */
  lemma FetchedUncomparable(data: seq<Entry>, channel: Channel, app: string, arch: string, current: string,
                            policy: Policy)
    requires Feed(data, app).Ok? && !AllComparable(Collect(data, app))
    ensures var rs := Feed(data, app).value;
      && |rs| == 1 && !Comparable(rs[0])
      && Offer(EligibleReleases(rs, channel, policy), app, arch, current) ==
           if !Eligible(rs[0], channel, policy) then Ok(None)
           else if current != "" then Err("Invalid Version")
           else match FirstZip(rs[0].assets, app, arch, rs[0].version)
                case Some(a) => Ok(Some(Match(rs[0], a)))
                case None => Ok(None)
  {
    hide Collect, Feed, Strict, MatchesZip, Accept, ParseVersion, FirstZip, Eligible, EligibleReleases;
    FeedIsSorted(data, app, Version(0, 0, 0, []));
    var rs := Feed(data, app).value;
    EligibleOfOne(rs[0], channel, policy);
    assert rs == [rs[0]] && [rs[0]][1..] == [];
  }
}
