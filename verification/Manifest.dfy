/** The Squirrel.Windows manifest: arch-free proxy names, and finding the real package behind one. */
module Manifest {
  import opened JsText
  import opened SemVer
  import opened UpdateFeed
  import opened UpdateVersion
  import opened UpdateSelection
  import opened Splitting
  import opened Wrappers

  const FULL: string := "-full.nupkg"

  function ArchFull(arch: string): string { "-" + arch + FULL }

  predicate EndsWith(s: string, t: string) { |t| <= |s| && s[|s| - |t|..] == t }

  /** `split(/\s+/)` of a trimmed text: its maximal runs of non-space characters, or one empty word. */
  function Words(s: string): (r: seq<string>)
    ensures |r| >= 1
    decreases |s|
  {
    var k := WordEnd(s);
    if k == |s| then [s] else [s[..k]] + Words(TrimStart(s[k + 1..]))
  }

  function WordEnd(s: string): (k: nat)
    ensures k <= |s| && (k < |s| ==> IsSpace(s[k])) && forall i :: 0 <= i < k ==> !IsSpace(s[i])
  {
    if s == [] || IsSpace(s[0]) then 0 else 1 + WordEnd(s[1..])
  }

  /** An output line: an input line as it was, a direct download, or a name for this server's proxy route. */
  datatype Line =
    | Kept(text: string)
    | Direct(hash: string, url: string, size: string)
    | Proxied(hash: string, clean: string, size: string)

  /** `assets.find` by name. */
  function FindByName(assets: seq<Asset>, name: string): (r: Option<Asset>)
    ensures r.Some? ==> r.value in assets && r.value.name == name
    ensures r.None? ==> forall a :: a in assets ==> a.name != name
  {
    if assets == [] then None
    else if assets[0].name == name then Some(assets[0])
    else FindByName(assets[1..], name)
  }

  /** The file name on a manifest line that has one. */
  function FileName(line: string): (r: Option<string>) {
    var words := Words(Trim(line));
    if |words| < 2 then None else Some(words[1])
  }

  function CleanName(file: string, arch: string): string
    requires EndsWith(file, ArchFull(arch))
  {
    file[..|file| - |ArchFull(arch)|] + FULL
  }

  /** One iteration of `transformReleasesContent`. */
  function Rewrite(line: string, release: Release, arch: string): (r: Option<Line>) {
    var words := Words(Trim(line));
    if |words| < 2 then None
    else
      var hash, file := words[0], words[1];
      var size := if |words| > 2 && words[2] != "" then words[2] else "0";
      match FindByName(release.assets, file)
      case None => Some(Kept(line))
      case Some(a) =>
        if !EndsWith(file, ArchFull(arch)) then Some(Direct(hash, a.url, size))
        else Some(Proxied(hash, CleanName(file, arch), size))
  }

  function RewriteAll(lines: seq<string>, release: Release, arch: string): (r: seq<Line>) {
    if lines == [] then []
    else
      var before := RewriteAll(lines[..|lines| - 1], release, arch);
      match Rewrite(lines[|lines| - 1], release, arch)
      case Some(l) => before + [l]
      case None => before
  }

  /** `transformReleasesContent`, before its lines are printed. */
  method TransformReleases(content: string, release: Release, arch: string) returns (transformed: seq<Line>)
    ensures transformed == RewriteAll(Split(Trim(content), '\n'), release, arch)
  {
    hide Rewrite, Trim, Split;
    var lines := Split(Trim(content), '\n');
    transformed := [];
    for i := 0 to |lines|
      invariant transformed == RewriteAll(lines[..i], release, arch)
    {
      assert lines[..i + 1][..i] == lines[..i];
      var l := Rewrite(lines[i], release, arch);
      if l.Some? { transformed := transformed + [l.value]; }
    }
    assert lines[..|lines|] == lines;
  }

  // ---- The proxy route.

  function ArchName(clean: string, arch: string): string
    requires EndsWith(clean, FULL)
  {
    clean[..|clean| - |FULL|] + ArchFull(arch)
  }

  function FirstNamed(es: seq<Release>, name: string): (r: Option<Match>)
    ensures r.Some? ==> r.value.release in es && r.value.asset in r.value.release.assets && r.value.asset.name == name
    ensures r.None? ==> forall x :: x in es ==> FindByName(x.assets, name).None?
  {
    if es == [] then None
    else match FindByName(es[0].assets, name)
         case Some(a) => Some(Match(es[0], a))
         case None => FirstNamed(es[1..], name)
  }

  function Nupkg(rs: seq<Release>, channel: Channel, policy: Policy, arch: string, clean: string): (r: Option<Match>) {
    if !EndsWith(clean, FULL) then None else FirstNamed(EligibleReleases(rs, channel, policy), ArchName(clean, arch))
  }

  /** `findNupkgAsset` */
  method FindNupkgAsset(rs: seq<Release>, channel: Channel, policy: Policy, arch: string, clean: string)
    returns (r: Option<Match>)
    ensures r == Nupkg(rs, channel, policy, arch, clean)
  {
    hide EligibleReleases, FindByName;
    if !EndsWith(clean, FULL) { return None; }
    var name := ArchName(clean, arch);
    var es := EligibleReleases(rs, channel, policy);
    for i := 0 to |es|
      invariant FirstNamed(es, name) == FirstNamed(es[i..], name)
    {
      assert es[i..][1..] == es[i + 1..];
      var a := FindByName(es[i].assets, name);
      if a.Some? { return Some(Match(es[i], a.value)); }
    }
    return None;
  }

  // ---- The two functions undo each other.

  /** Stripping the architecture and putting it back are inverse. */
  lemma NamesRoundTrip(file: string, clean: string, arch: string)
    ensures EndsWith(file, ArchFull(arch)) ==> EndsWith(CleanName(file, arch), FULL) && ArchName(CleanName(file, arch), arch) == file
    ensures EndsWith(clean, FULL) ==> EndsWith(ArchName(clean, arch), ArchFull(arch)) && CleanName(ArchName(clean, arch), arch) == clean
  {
    if EndsWith(file, ArchFull(arch)) {
      var c, n := CleanName(file, arch), |file| - |ArchFull(arch)|;
      assert c[n..] == FULL && c[..n] == file[..n];
      assert file == file[..n] + file[n..];
    }
    if EndsWith(clean, FULL) {
      var f, n := ArchName(clean, arch), |clean| - |FULL|;
      assert f[n..] == ArchFull(arch) && f[..n] == clean[..n];
      assert clean == clean[..n] + clean[n..];
    }
  }

  /** The architecture goes between the name of the package and its ending. */
  lemma ArchIsInserted(stem: string, arch: string)
    ensures var file, clean := stem + ("-" + arch + "-full.nupkg"), stem + "-full.nupkg";
      EndsWith(file, ArchFull(arch)) && CleanName(file, arch) == clean && EndsWith(clean, FULL) && ArchName(clean, arch) == file
  {
    var file, clean := stem + ("-" + arch + "-full.nupkg"), stem + "-full.nupkg";
    assert file[|stem|..] == ArchFull(arch) && file[..|stem|] == stem;
    assert clean[|stem|..] == FULL && clean[..|stem|] == stem;
  }

  /** The proxy route finds a package exactly when a release of the channel that the policy permits has it. */
  lemma NupkgIsPermitted(rs: seq<Release>, channel: Channel, policy: Policy, arch: string, clean: string)
    ensures var r := Nupkg(rs, channel, policy, arch, clean);
      && (r.Some? ==>
            var x := r.value.release;
            && x in rs && MatchesChannel(x.parsed, channel) && Permits(policy, channel, x.version)
            && EndsWith(clean, FULL) && r.value.asset in x.assets && r.value.asset.name == ArchName(clean, arch))
      && (r.None? && EndsWith(clean, FULL) ==>
            forall x, a :: x in rs && MatchesChannel(x.parsed, channel) && Permits(policy, channel, x.version) && a in x.assets ==>
              a.name != ArchName(clean, arch))
  {
    hide EligibleReleases, MatchesChannel, FindByName, EndsWith;
    var es := EligibleReleases(rs, channel, policy);
    if EndsWith(clean, FULL) {
      forall x | x in rs && MatchesChannel(x.parsed, channel) && Permits(policy, channel, x.version) ensures x in es {
        assert Eligible(x, channel, policy);
      }
    }
  }

  /** A line is rewritten to a proxy name exactly when it names a full package of this architecture on the release. */
  lemma ProxiedIff(line: string, release: Release, arch: string)
    ensures (exists h, c, z :: Rewrite(line, release, arch) == Some(Proxied(h, c, z))) <==>
      (FileName(line).Some? && FindByName(release.assets, FileName(line).value).Some? && EndsWith(FileName(line).value, ArchFull(arch)))
  {
    hide Words, Trim, FindByName, CleanName;
    var words := Words(Trim(line));
    if |words| >= 2 && FindByName(release.assets, words[1]).Some? && EndsWith(words[1], ArchFull(arch)) {
      assert Rewrite(line, release, arch) ==
        Some(Proxied(words[0], CleanName(words[1], arch), if |words| > 2 && words[2] != "" then words[2] else "0"));
    }
  }

  /** A proxied line of an eligible release resolves to a package with the file name that the line had. */
  lemma ProxiedResolves(line: string, release: Release, arch: string, rs: seq<Release>, channel: Channel,
                        policy: Policy)
    requires Rewrite(line, release, arch).Some? && Rewrite(line, release, arch).value.Proxied?
    requires release in rs && Eligible(release, channel, policy)
    ensures FileName(line).Some?
    ensures var r := Nupkg(rs, channel, policy, arch, Rewrite(line, release, arch).value.clean);
      && r.Some? && r.value.asset.name == FileName(line).value && r.value.asset in r.value.release.assets
      && r.value.release in rs && Eligible(r.value.release, channel, policy)
  {
    hide Words, Trim, FindByName, EligibleReleases, Eligible, EndsWith;
    var file := FileName(line).value;
    NamesRoundTrip(file, "", arch);
    var es := EligibleReleases(rs, channel, policy);
    assert release in es;
  }

  lemma {:induction false} FirstNamedSkips(before: seq<Release>, x: Release, after: seq<Release>, name: string)
    requires forall y :: y in before ==> FindByName(y.assets, name).None?
    ensures FindByName(x.assets, name).Some? ==>
      FirstNamed(before + [x] + after, name) == Some(Match(x, FindByName(x.assets, name).value))
  {
    hide FindByName;
    if before == [] {
      assert (before + [x] + after)[0] == x;
    } else {
      assert before[0] in before;
      assert (before + [x] + after)[1..] == before[1..] + [x] + after;
      FirstNamedSkips(before[1..], x, after, name);
    }
  }

  /** It is the release's own package exactly when no other release before it in the list has a package of that name. */
  lemma ProxiedIsOwn(line: string, release: Release, arch: string, rs: seq<Release>, channel: Channel, policy: Policy,
                     k: nat)
    requires Rewrite(line, release, arch).Some? && Rewrite(line, release, arch).value.Proxied?
    requires k < |EligibleReleases(rs, channel, policy)| && EligibleReleases(rs, channel, policy)[k] == release
    requires release !in EligibleReleases(rs, channel, policy)[..k]
    ensures var es := EligibleReleases(rs, channel, policy);
      var own := FindByName(release.assets, FileName(line).value);
      && own.Some?
      && (Nupkg(rs, channel, policy, arch, Rewrite(line, release, arch).value.clean) == Some(Match(release, own.value)) <==>
          forall y :: y in es[..k] ==> FindByName(y.assets, FileName(line).value).None?)
  {
    hide Words, Trim, FindByName, EligibleReleases, EndsWith, CleanName, ArchName, NewestFirst, Eligible, FirstNamed;
    var file := FileName(line).value;
    NamesRoundTrip(file, "", arch);
    var es := EligibleReleases(rs, channel, policy);
    assert Nupkg(rs, channel, policy, arch, Rewrite(line, release, arch).value.clean) == FirstNamed(es, file);
    if forall y :: y in es[..k] ==> FindByName(y.assets, file).None? {
      assert es == es[..k] + [release] + es[k + 1..];
      FirstNamedSkips(es[..k], release, es[k + 1..], file);
    } else {
      var y :| y in es[..k] && FindByName(y.assets, file).Some?;
      FirstNamedIsEarly(es, k, file);
    }
  }

  lemma {:induction false} FirstNamedIsEarly(es: seq<Release>, k: nat, name: string)
    requires k <= |es| && exists y :: y in es[..k] && FindByName(y.assets, name).Some?
    ensures FirstNamed(es, name).Some? && FirstNamed(es, name).value.release in es[..k]
  {
    hide FindByName;
    var y :| y in es[..k] && FindByName(y.assets, name).Some?;
    if FindByName(es[0].assets, name).None? {
      var rest := es[1..][..k - 1];
      assert |es[..k]| == k > 0 && |rest| == k - 1;
      assert forall i :: 0 < i < k ==> es[..k][i] == rest[i - 1];
      assert es[..k] == [es[0]] + rest;
      assert y in rest;
      FirstNamedIsEarly(es[1..], k - 1, name);
    } else {
      assert es[0] in es[..k];
    }
  }

  /** Every other line keeps its own target: its text when no asset has its name, else that asset's address. */
  lemma OthersKeepTheirTarget(line: string, release: Release, arch: string)
    requires FileName(line).Some?
    ensures FindByName(release.assets, FileName(line).value).None? ==> Rewrite(line, release, arch) == Some(Kept(line))
    ensures FindByName(release.assets, FileName(line).value).Some? && !EndsWith(FileName(line).value, ArchFull(arch)) ==>
      exists a, h, z :: a in release.assets && a.name == FileName(line).value && Rewrite(line, release, arch) == Some(Direct(h, a.url, z))
  {
    hide Words, Trim, FindByName;
    var words := Words(Trim(line));
    var a := FindByName(release.assets, words[1]);
    if a.Some? && !EndsWith(words[1], ArchFull(arch)) {
      assert Rewrite(line, release, arch) ==
        Some(Direct(words[0], a.value.url, if |words| > 2 && words[2] != "" then words[2] else "0"));
    }
  }

  // ---- The other two words of a line.

  /** A word of a line. */
  predicate Solid(s: string) { s != [] && forall i :: 0 <= i < |s| ==> !IsSpace(s[i]) }

  predicate StartsWithSpace(s: string) { s == [] || IsSpace(s[0]) }

  lemma {:induction false} WordEndOf(word: string, more: string)
    requires (forall i :: 0 <= i < |word| ==> !IsSpace(word[i])) && StartsWithSpace(more)
    ensures WordEnd(word + more) == |word|
  {
    hide IsSpace;
    if word == [] {
      assert word + more == more;
    } else {
      assert (word + more)[1..] == word[1..] + more;
      WordEndOf(word[1..], more);
    }
  }

  lemma FirstWord(word: string, more: string)
    requires Solid(word) && StartsWithSpace(more)
    ensures Words(word + more)[0] == word && (more == [] ==> Words(word + more) == [word])
  {
    hide IsSpace, WordEnd;
    WordEndOf(word, more);
    assert (word + more)[..|word|] == word;
  }

  lemma NextWord(s: string)
    ensures var k := WordEnd(s); k < |s| ==> Words(s) == [s[..k]] + Words(TrimStart(s[k + 1..]))
  {
    hide WordEnd, IsSpace, TrimStart;
  }

  lemma WordThenRest(word: string, gap: string, rest: string)
    requires Solid(word) && Spaces(gap) && gap != [] && rest != [] && !IsSpace(rest[0])
    ensures Words(word + gap + rest) == [word] + Words(rest)
  {
    hide IsSpace, WordEnd, Words, TrimStart;
    var s := word + gap + rest;
    assert s == word + (gap + rest);
    WordEndOf(word, gap + rest);
    NextWord(s);
    assert s[..|word|] == word && s[|word| + 1..] == gap[1..] + rest;
    TrimStartOf(gap[1..], rest);
  }

  /** The words of a line, however it is spaced. */
  lemma LineWords(lead: string, hash: string, gap: string, file: string, more: string) returns (kept: string)
    requires Spaces(lead) && Solid(hash) && Spaces(gap) && gap != [] && Solid(file) && StartsWithSpace(more)
    ensures kept <= more && (Spaces(more) ==> kept == [])
    ensures Trim(lead + hash + gap + file + more) == hash + gap + (file + kept)
    ensures Words(hash + gap + (file + kept)) == [hash] + Words(file + kept) && Words(file + kept)[0] == file
  {
    hide IsSpace, WordEnd, Words;
    var core := hash + gap + file;
    assert lead + hash + gap + file + more == lead + (core + more);
    TrimStartOf(lead, core + more);
    kept := TrimEndOf(core, more);
    assert core + kept == hash + gap + (file + kept);
    WordThenRest(hash, gap, file + kept);
    FirstWord(file, kept);
  }

  /** What a line becomes, by its words. */
  predicate Rewritten(r: Option<Line>, line: string, hash: string, file: string, size: string, release: Release,
                      arch: string) {
    match FindByName(release.assets, file)
    case None => r == Some(Kept(line))
    case Some(a) =>
      if EndsWith(file, ArchFull(arch)) then r == Some(Proxied(hash, CleanName(file, arch), size))
      else r == Some(Direct(hash, a.url, size))
  }

  /** A line of two words has the first one as hash, and "0" as size. */
  lemma TwoWordLine(lead: string, hash: string, gap: string, file: string, trail: string, release: Release,
                    arch: string)
    requires Spaces(lead) && Solid(hash) && Spaces(gap) && gap != [] && Solid(file) && Spaces(trail)
    ensures var line := lead + hash + gap + file + trail;
      FileName(line) == Some(file) && Rewritten(Rewrite(line, release, arch), line, hash, file, "0", release, arch)
  {
    hide IsSpace, Words, Trim, FindByName, EndsWith, CleanName;
    StartOfSpaces(trail);
    var kept := LineWords(lead, hash, gap, file, trail);
    FirstWord(file, kept);
  }

  lemma StartOfSpaces(s: string)
    requires Spaces(s)
    ensures StartsWithSpace(s)
  {
    hide IsSpace;
  }

  /** A longer line has the first word as hash and the third as size. */
  lemma LongerLine(lead: string, hash: string, gap: string, file: string, gap2: string, size: string, more: string,
                   release: Release, arch: string)
    requires Spaces(lead) && Solid(hash) && Spaces(gap) && gap != [] && Solid(file)
    requires Spaces(gap2) && gap2 != [] && Solid(size) && StartsWithSpace(more)
    ensures var line := lead + hash + gap + file + (gap2 + size + more);
      FileName(line) == Some(file) && Rewritten(Rewrite(line, release, arch), line, hash, file, size, release, arch)
  {
    hide IsSpace, Words, Trim, FindByName, EndsWith, CleanName, Solid;
    LongerWords(lead, hash, gap, file, gap2, size, more);
  }

  lemma LongerWords(lead: string, hash: string, gap: string, file: string, gap2: string, size: string, more: string)
    requires Spaces(lead) && Solid(hash) && Spaces(gap) && gap != [] && Solid(file)
    requires Spaces(gap2) && gap2 != [] && Solid(size) && StartsWithSpace(more)
    ensures var words := Words(Trim(lead + hash + gap + file + (gap2 + size + more)));
      |words| > 2 && words[0] == hash && words[1] == file && words[2] == size && size != ""
  {
    hide IsSpace, WordEnd, Words;
    var core := hash + gap + (file + gap2 + size);
    Regrouped(lead, hash, gap, file, gap2, size, more);
    TrimStartOf(lead, core + more);
    var kept := TrimEndOf(core, more);
    Regrouped([], hash, gap, file, gap2, size, kept);
    WordThenRest(hash, gap, file + gap2 + (size + kept));
    WordThenRest(file, gap2, size + kept);
    FirstWord(size, kept);
  }

  lemma Regrouped(lead: string, hash: string, gap: string, file: string, gap2: string, size: string, more: string)
    ensures lead + hash + gap + file + (gap2 + size + more) == lead + (hash + gap + (file + gap2 + size) + more)
    ensures hash + gap + (file + gap2 + size) + more == hash + gap + (file + gap2 + (size + more))
  {
  }

  /** Every output line comes from an input line, in order, and every line with a file name gives one. */
  lemma {:induction false} LinesKeepTheirOrder(lines: seq<string>, release: Release, arch: string, i: nat)
    returns (k: nat)
    requires i < |lines| && FileName(lines[i]).Some?
    ensures k == |RewriteAll(lines[..i], release, arch)| < |RewriteAll(lines, release, arch)|
    ensures Rewrite(lines[i], release, arch) == Some(RewriteAll(lines, release, arch)[k])
  {
    hide Words, Trim, FindByName, CleanName, EndsWith;
    if i == |lines| - 1 {
      k := |RewriteAll(lines[..i], release, arch)|;
      assert Rewrite(lines[i], release, arch).Some?;
    } else {
      k := LinesKeepTheirOrder(lines[..|lines| - 1], release, arch, i);
      assert lines[..|lines| - 1][..i] == lines[..i];
    }
  }

  // ---- The manifest and the proxy route on fetched lists.

  /** A release newer than the manifest's own that is eligible and has a package of the same name takes its place. */
  lemma NewerTakesItsPlace(line: string, data: seq<Entry>, app: string, own: Release, newer: Release, arch: string,
                           channel: Channel, policy: Policy)
    requires AllComparable(Collect(data, app)) && Feed(data, app).Ok?
    requires own in Feed(data, app).value && newer in Feed(data, app).value
    requires Eligible(own, channel, policy) && Eligible(newer, channel, policy)
    requires Rewrite(line, own, arch).Some? && Rewrite(line, own, arch).value.Proxied? && FileName(line).Some?
    requires FindByName(newer.assets, FileName(line).value).Some?
    requires Comparable(own) && Comparable(newer) && Order(newer, own) > 0
    ensures var r := Nupkg(Feed(data, app).value, channel, policy, arch, Rewrite(line, own, arch).value.clean);
      r.Some? && Comparable(r.value.release) && Order(r.value.release, own) > 0 && r.value.release != own
  {
    hide Words, Trim, FindByName, EligibleReleases, Eligible, EndsWith, CleanName, ArchName, Feed, Collect,
         Comparable, Order, FirstNamed;
    var rs, file := Feed(data, app).value, FileName(line).value;
    FeedIsSorted(data, app, SemVer.Version(0, 0, 0, []));
    NamesRoundTrip(file, "", arch);
    var es := EligibleReleases(rs, channel, policy);
    assert newer in es;
    FirstNamedIsNewer(es, newer, own, file);
  }

  /** On a newest-first list the first release with a package of that name is no older than any with one. */
  lemma FirstNamedIsNewer(es: seq<Release>, newer: Release, own: Release, file: string)
    requires NewestFirst(es) && newer in es && FindByName(newer.assets, file).Some?
    requires Comparable(own) && Comparable(newer) && Order(newer, own) > 0
    ensures FirstNamed(es, file).Some?
    ensures var z := FirstNamed(es, file).value.release; Comparable(z) && Order(z, own) > 0 && z != own
  {
    hide FindByName, Comparable, Order, FirstNamed;
    var k :| 0 <= k < |es| && es[k] == newer;
    assert es[..k + 1][k] == newer;
    FirstNamedIsEarly(es, k + 1, file);
    var z := FirstNamed(es, file).value.release;
    var i :| 0 <= i < k + 1 && es[..k + 1][i] == z;
    assert es[i] == z;
    OrderIsTransitive(newer, newer, newer);
    StillNewer(z, newer, own);
  }

  lemma StillNewer(z: Release, newer: Release, own: Release)
    requires Comparable(z) && Comparable(newer) && Comparable(own) && Order(z, newer) >= 0 && Order(newer, own) > 0
    ensures Order(z, own) > 0 && z != own
  {
    hide Compare, Strict;
    var a, b, c := Strict(z.version).value, Strict(newer.version).value, Strict(own.version).value;
    TotalOrder(c, b, a);
    TotalOrder(a, b, c);
    TotalOrder(b, c, a);
    TotalOrder(a, c, b);
    TotalOrder(a, a, a);
  }

  /** A later major version with the same prerelease that is not on a list of blocked versions. */
  lemma FreshMajor(from: nat, pre: seq<Ident>, blocked: set<string>) returns (major: nat)
    requires Valid(SemVer.Version(0, 0, 0, pre))
    ensures major >= from && Print(SemVer.Version(major, 0, 0, pre)) !in blocked
    decreases |blocked|
  {
    hide Print, Parse;
    var first := Print(SemVer.Version(from, 0, 0, pre));
    if first !in blocked {
      major := from;
    } else {
      major := FreshMajor(from + 1, pre, blocked - {first});
      ParsePrint(SemVer.Version(from, 0, 0, pre));
      ParsePrint(SemVer.Version(major, 0, 0, pre));
    }
  }

  /** A published entry of the same channel that is newer than a release, and has its packages. */
  lemma NewerEntry(own: Release, e: Entry, app: string, channel: Channel, policy: Policy) returns (entry: Entry,
                   newer: Release)
    requires Accept(e, app) == Some(own) && Comparable(own) && Eligible(own, channel, policy) && Pin(policy, channel) == ""
    ensures Accept(entry, app) == Some(newer) && newer.assets == own.assets
    ensures Comparable(newer) && Order(newer, own) > 0 && Eligible(newer, channel, policy)
  {
    hide Print, Strict, Parse, Clean, UpdateVersion.Classify, Trim;
    var v := own.parsed.version;
    ParsedIsValid(own.version);
    var w := Strict(own.version).value;
    var major := FreshMajor(w.major + 1, v.pre, set b | b in policy.blocked);
    var u := SemVer.Version(major, 0, 0, v.pre);
    PrintedIsClean(u);
    PrintedEnds(u);
    var text := Print(u);
    entry := UpdateFeed.Published(app + "@" + text, own.assets);
    assert (app + "@" + text)[|app| + 1..] == text && app + "@" <= app + "@" + text;
    newer := Accept(entry, app).value;
    assert newer.version == text;
  }

  lemma ParsedIsValid(s: string)
    requires ParseVersion(s).Some?
    ensures Valid(ParseVersion(s).value.version)
    ensures var p := ParseVersion(s).value; (p.kind, p.number, p.date) == UpdateVersion.Classify(p.version.pre)
  {
    hide Parse, Trim, Print, UpdateVersion.Classify, Valid;
    var clean := Clean(s).value;
    var t := Trim(clean);
    ReadIsValid(if t != [] && t[0] == 'v' then t[1..] else t);
  }

  /** On an unpinned channel this can happen to every proxied line: there is published data, its own entry included, for
      which its name resolves to another release. */
  lemma ProxiedCanBeForeign(line: string, own: Release, e: Entry, app: string, arch: string, channel: Channel,
                            policy: Policy)
    returns (data: seq<Entry>)
    requires Accept(e, app) == Some(own) && Comparable(own) && Eligible(own, channel, policy) && Pin(policy, channel) == ""
    requires Rewrite(line, own, arch).Some? && Rewrite(line, own, arch).value.Proxied?
    ensures e in data && Feed(data, app).Ok? && own in Feed(data, app).value
    ensures var r := Nupkg(Feed(data, app).value, channel, policy, arch, Rewrite(line, own, arch).value.clean);
      r.Some? && r.value.release != own
  {
    hide Words, Trim, FindByName, EndsWith, CleanName, ArchName, Eligible, Comparable, Order, Accept, ParseVersion, Sorted,
         EligibleReleases;
    var entry, newer := NewerEntry(own, e, app, channel, policy);
    data := [e, entry];
    TwoCollected(e, own, entry, newer, app);
    FeedIsSorted(data, app, SemVer.Version(0, 0, 0, []));
    assert data[0] == e && data[1] == entry;
    InFeedIff(data, app, own);
    InFeedIff(data, app, newer);
    NewerTakesItsPlace(line, data, app, own, newer, arch, channel, policy);
  }

  lemma TwoCollected(e: Entry, x: Release, f: Entry, y: Release, app: string)
    requires Accept(e, app) == Some(x) && Accept(f, app) == Some(y) && Comparable(x) && Comparable(y)
    ensures Collect([e, f], app) == [x, y] && AllComparable([x, y])
  {
    hide Accept, Comparable, Collect, ParseVersion, Strict;
    NoneCollected(app);
    OneMoreCollected([], e, [e], x, [x], app);
    OneMoreCollected([e], f, [e, f], y, [x, y], app);
  }

  lemma NoneCollected(app: string)
    ensures Collect([], app) == []
  {
  }

  lemma OneMoreCollected(data: seq<Entry>, e: Entry, more: seq<Entry>, x: Release, rs: seq<Release>, app: string)
    requires Accept(e, app) == Some(x) && more == data + [e] && rs == Collect(data, app) + [x]
    ensures Collect(more, app) == rs
  {
    hide Accept, ParseVersion;
    assert more[..|data|] == data;
  }

  /** Published data has one entry for a tag. */
  predicate OneEntryPerTag(data: seq<Entry>) {
    forall i, j :: 0 <= i < |data| && 0 <= j < |data| && data[i].Published? && data[j].Published? && data[i].tag == data[j].tag ==> i == j
  }

  /** On a pinned channel it cannot happen: every proxied line resolves to the package of its own release. */
  lemma PinnedIsOwn(line: string, data: seq<Entry>, app: string, own: Release, arch: string, channel: Channel,
                    policy: Policy)
    requires Feed(data, app).Ok? && OneEntryPerTag(data) && own in Feed(data, app).value
    requires Eligible(own, channel, policy) && Pin(policy, channel) != ""
    requires Rewrite(line, own, arch).Some? && Rewrite(line, own, arch).value.Proxied?
    ensures FileName(line).Some? && FindByName(own.assets, FileName(line).value).Some?
    ensures Nupkg(Feed(data, app).value, channel, policy, arch, Rewrite(line, own, arch).value.clean)
      == Some(Match(own, FindByName(own.assets, FileName(line).value).value))
  {
    hide Words, Trim, FindByName, EndsWith, CleanName, ArchName, Feed, MatchesChannel, EligibleReleases;
    var rs, file := Feed(data, app).value, FileName(line).value;
    NamesRoundTrip(file, "", arch);
    var es := EligibleReleases(rs, channel, policy);
    assert own in es;
    forall x | x in es ensures x == own {
      OneOfAVersion(data, app, x, own);
    }
    assert es[0] in es;
  }

  lemma OneOfAVersion(data: seq<Entry>, app: string, x: Release, y: Release)
    requires Feed(data, app).Ok? && OneEntryPerTag(data) && x in Feed(data, app).value && y in Feed(data, app).value
    requires x.version == y.version
    ensures x == y
  {
    hide Feed, Accept, ParseVersion;
    InFeedIff(data, app, x);
    InFeedIff(data, app, y);
  }

  /**
   * A whole manifest: every line of the rewritten manifest comes from one line of the content, in order, and if it is a
   * proxy name, the proxy route leads from it to an asset with the file name of that very line.
   */
  lemma {:induction false} ManifestResolves(lines: seq<string>, release: Release, arch: string, rs: seq<Release>,
                                            channel: Channel,
                                            policy: Policy, k: nat) returns (i: nat)
    requires k < |RewriteAll(lines, release, arch)| && release in rs && Eligible(release, channel, policy)
    ensures i < |lines| && FileName(lines[i]).Some? && k == |RewriteAll(lines[..i], release, arch)|
    ensures var out := RewriteAll(lines, release, arch)[k];
      && Rewrite(lines[i], release, arch) == Some(out)
      && (out.Proxied? ==>
            var r := Nupkg(rs, channel, policy, arch, out.clean);
            r.Some? && r.value.asset.name == FileName(lines[i]).value && r.value.release in rs && Eligible(r.value.release, channel, policy))
  {
    hide Words, Trim, FindByName, EndsWith, CleanName, Nupkg, Eligible;
    var init, n := lines[..|lines| - 1], |lines| - 1;
    if k < |RewriteAll(init, release, arch)| {
      i := ManifestResolves(init, release, arch, rs, channel, policy, k);
      assert init[..i] == lines[..i];
    } else {
      i := n;
      if RewriteAll(lines, release, arch)[k].Proxied? { ProxiedResolves(lines[n], release, arch, rs, channel, policy); }
    }
  }
}
