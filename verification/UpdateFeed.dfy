/** Reading the list of published releases: the version filter and the newest-first order. */
module UpdateFeed {
  import opened SemVer
  import opened Wrappers
  import UpdateVersion

  datatype Asset = Asset(name: string, url: string, size: nat)

  /** An element of the answer, after the check of its shape: drafts and malformed values are rejected. */
  datatype Entry = Rejected | Published(tag: string, assets: seq<Asset>)

  datatype Release = Release(tag: string, version: string, parsed: UpdateVersion.Parsed, assets: seq<Asset>)

  /** `extractVersionFromTag`, where an absent and an empty version are treated alike by the caller. */
  function VersionOfTag(tag: string, app: string): (r: string)
    ensures r != "" ==> tag == app + "@" + r
  {
    if app + "@" <= tag then tag[|app| + 1..] else ""
  }

  /** One iteration of the loop in `fetchReleases`. */
  function Accept(e: Entry, app: string): (r: Option<Release>)
    ensures r.Some? ==> e.Published? && e.tag == app + "@" + r.value.version && r.value.tag == e.tag && r.value.assets == e.assets
    ensures r.Some? ==> UpdateVersion.ParseVersion(r.value.version) == Some(r.value.parsed)
  {
    hide UpdateVersion.ParseVersion, VersionOfTag;
    if e.Rejected? then None
    else
      var version := VersionOfTag(e.tag, app);
      if version == "" then None
      else match UpdateVersion.ParseVersion(version)
           case None => None
           case Some(p) => Some(Release(e.tag, version, p, e.assets))
  }

  /** An entry is accepted exactly when it is published under the name of the application and a readable version. */
  lemma AcceptIff(e: Entry, app: string)
    ensures Accept(e, app).Some? <==>
      e.Published? && exists v :: v != "" && e.tag == app + "@" + v && UpdateVersion.ParseVersion(v).Some?
  {
    hide UpdateVersion.ParseVersion;
    forall v | e.Published? && v != "" && e.tag == app + "@" + v && UpdateVersion.ParseVersion(v).Some?
      ensures Accept(e, app).Some? {
      assert e.tag[|app| + 1..] == v;
    }
  }

  function Collect(data: seq<Entry>, app: string): (r: seq<Release>) {
    if data == [] then []
    else
      var before := Collect(data[..|data| - 1], app);
      match Accept(data[|data| - 1], app)
      case Some(x) => before + [x]
      case None => before
  }

  predicate Comparable(r: Release) { Strict(r.version).Some? }

  predicate AllComparable(rs: seq<Release>) { forall i :: 0 <= i < |rs| ==> Comparable(rs[i]) }

  function Order(a: Release, b: Release): int
    requires Comparable(a) && Comparable(b)
  {
    Compare(Strict(a.version).value, Strict(b.version).value)
  }

  /** `compareVersions` on two releases: it throws when either version cannot be parsed. */
  function CompareVersions(a: Release, b: Release): (r: Result<int>) {
    if Comparable(a) && Comparable(b) then Ok(Order(a, b)) else Err("Invalid Version")
  }

  predicate NewestFirst(rs: seq<Release>) {
    AllComparable(rs) && forall i, j :: 0 <= i < j < |rs| ==> Order(rs[i], rs[j]) >= 0
  }

  // ---- The stable sort, which passes on what the comparison throws.

  function Insert(x: Release, rs: seq<Release>): (r: Result<seq<Release>>)
    ensures r.Ok? ==> |r.value| == |rs| + 1
    ensures Comparable(x) && AllComparable(rs) ==> r.Ok? && AllComparable(r.value)
  {
    if rs == [] then Ok([x])
    else
      match CompareVersions(x, rs[0])
      case Err(m) => Err(m)
      case Ok(order) =>
        if order >= 0 then Ok([x] + rs)
        else
          match Insert(x, rs[1..])
          case Err(m) => Err(m)
          case Ok(tail) => Ok([rs[0]] + tail)
  }

  function Sorted(rs: seq<Release>): (r: Result<seq<Release>>)
    ensures r.Ok? ==> |r.value| == |rs|
    ensures AllComparable(rs) ==> r.Ok? && AllComparable(r.value)
  {
    if rs == [] then Ok([])
    else
      match Sorted(rs[1..])
      case Err(m) => Err(m)
      case Ok(tail) => Insert(rs[0], tail)
  }

  /** Sorting throws exactly when there is something to compare and a version that cannot be parsed. */
  lemma {:induction false} SortFailsIff(rs: seq<Release>)
    ensures Sorted(rs).Err? <==> |rs| >= 2 && !AllComparable(rs)
    ensures |rs| == 1 ==> Sorted(rs) == Ok(rs)
  {
    hide Comparable, Order;
    if rs != [] {
      SortFailsIff(rs[1..]);
      assert rs == [rs[0]] + rs[1..];
      if |rs| == 1 {
        assert Sorted(rs[1..]) == Ok([]);
        assert Insert(rs[0], []) == Ok([rs[0]]) && rs == [rs[0]];
      }
      if |rs| >= 2 && Sorted(rs[1..]).Ok? && !AllComparable(rs) {
        var tail := Sorted(rs[1..]).value;
        if AllComparable(rs[1..]) {
          assert !Comparable(rs[0]);
        } else {
          assert tail == rs[1..] && !Comparable(tail[0]);
        }
        assert CompareVersions(rs[0], tail[0]).Err?;
      }
    }
  }

  /** The releases of one precedence, in the order they have in the list. */
  function OfPrecedence(rs: seq<Release>, v: Version): seq<Release>
    requires AllComparable(rs)
  {
    if rs == [] then []
    else (if Strict(rs[0].version).value == v then [rs[0]] else []) + OfPrecedence(rs[1..], v)
  }

  lemma {:induction false} InsertKeeps(x: Release, rs: seq<Release>)
    requires Comparable(x) && AllComparable(rs)
    ensures multiset(Insert(x, rs).value) == multiset(rs) + multiset{x}
  {
    hide Comparable, Order;
    if rs != [] && Order(x, rs[0]) < 0 {
      assert rs == [rs[0]] + rs[1..];
      InsertKeeps(x, rs[1..]);
    }
  }

  /** A release no older than every one of a list can be put before it. */
  lemma NewestInFront(x: Release, rs: seq<Release>)
    requires Comparable(x) && NewestFirst(rs) && forall y :: y in rs ==> Comparable(y) && Order(x, y) >= 0
    ensures NewestFirst([x] + rs)
  {
    hide Comparable, Order;
    var all := [x] + rs;
    forall i, j | 0 <= i < j < |all| ensures AllComparable(all) && Order(all[i], all[j]) >= 0 {
      assert all[j] == rs[j - 1];
    }
  }

  lemma {:induction false} InsertSorts(x: Release, rs: seq<Release>)
    requires Comparable(x) && NewestFirst(rs)
    ensures Insert(x, rs).Ok? && NewestFirst(Insert(x, rs).value)
  {
    hide Comparable, Order;
    if rs != [] && Order(x, rs[0]) < 0 {
      InsertSorts(x, rs[1..]);
      InsertKeeps(x, rs[1..]);
      OrderIsTransitive(rs[0], x, x);
      var tail := Insert(x, rs[1..]).value;
      forall y | y in tail ensures Comparable(y) && Order(rs[0], y) >= 0 {
        assert y in multiset(tail);
        if y != x { assert y in rs[1..]; }
      }
      NewestInFront(rs[0], tail);
    } else if rs != [] {
      forall y | y in rs ensures Comparable(y) && Order(x, y) >= 0 {
        OrderIsTransitive(y, y, y);
        OrderIsTransitive(x, rs[0], y);
      }
      NewestInFront(x, rs);
    }
  }

  lemma OrderIsTransitive(a: Release, b: Release, c: Release)
    requires Comparable(a) && Comparable(b) && Comparable(c)
    ensures Order(a, b) >= 0 && Order(b, c) >= 0 ==> Order(a, c) >= 0
    ensures Order(a, b) == -Order(b, a) && Order(a, a) == 0
  {
    hide Compare, Strict;
    var x, y, z := Strict(a.version).value, Strict(b.version).value, Strict(c.version).value;
    TotalOrder(z, y, x);
    TotalOrder(x, y, z);
    TotalOrder(y, z, x);
    TotalOrder(x, z, y);
    TotalOrder(x, x, x);
  }

  lemma {:induction false} InsertIsStable(x: Release, rs: seq<Release>, v: Version)
    requires Comparable(x) && AllComparable(rs)
    ensures OfPrecedence(Insert(x, rs).value, v) == OfPrecedence([x] + rs, v)
  {
    hide Compare, Strict;
    if rs != [] && Order(x, rs[0]) < 0 {
      InsertIsStable(x, rs[1..], v);
      var a, b := Strict(x.version).value, Strict(rs[0].version).value;
      TotalOrder(a, b, b);
      assert ([x] + rs)[1..] == rs && ([x] + rs[1..])[1..] == rs[1..];
      assert ([rs[0]] + Insert(x, rs[1..]).value)[1..] == Insert(x, rs[1..]).value;
    }
  }

  /** One step of the sort on releases that can be compared. */
  lemma SortStep(rs: seq<Release>) returns (tail: seq<Release>)
    requires AllComparable(rs) && rs != []
    ensures AllComparable(rs[1..]) && Sorted(rs[1..]) == Ok(tail) && AllComparable(tail) && Comparable(rs[0])
    ensures Sorted(rs) == Insert(rs[0], tail) && rs == [rs[0]] + rs[1..] && ([rs[0]] + tail)[1..] == tail
  {
    hide Comparable, Order, Insert;
    tail := Sorted(rs[1..]).value;
  }

  lemma {:induction false} SortedIsNewestFirst(rs: seq<Release>)
    requires AllComparable(rs)
    ensures Sorted(rs).Ok? && NewestFirst(Sorted(rs).value) && multiset(Sorted(rs).value) == multiset(rs)
  {
    hide Comparable, Order, Insert;
    if rs != [] {
      var tail := SortStep(rs);
      SortedIsNewestFirst(rs[1..]);
      hide Sorted;
      InsertSorts(rs[0], tail);
      InsertKeeps(rs[0], tail);
      assert multiset(rs) == multiset{rs[0]} + multiset(rs[1..]);
    }
  }

  lemma {:induction false} SortedKeepsOrder(rs: seq<Release>, v: Version)
    requires AllComparable(rs)
    ensures Sorted(rs).Ok? && AllComparable(Sorted(rs).value) && OfPrecedence(Sorted(rs).value, v) == OfPrecedence(rs, v)
  {
    hide Comparable, Order, Insert, Strict;
    if rs != [] {
      var tail := SortStep(rs);
      SortedKeepsOrder(rs[1..], v);
      hide Sorted;
      InsertIsStable(rs[0], tail, v);
    }
  }

  /** The sort orders newest first, keeps every release, and keeps the order of equal ones. */
  lemma SortedIsStable(rs: seq<Release>, v: Version)
    requires AllComparable(rs)
    ensures Sorted(rs).Ok? && NewestFirst(Sorted(rs).value) && multiset(Sorted(rs).value) == multiset(rs)
    ensures OfPrecedence(Sorted(rs).value, v) == OfPrecedence(rs, v)
  {
    hide Comparable, Order, Sorted;
    SortedIsNewestFirst(rs);
    SortedKeepsOrder(rs, v);
  }

  /** What `fetchReleases` returns for the data of an answer. */
  function Feed(data: seq<Entry>, app: string): (r: Result<seq<Release>>) { Sorted(Collect(data, app)) }

  /** `fetchReleases` */
  method FetchReleases(data: seq<Entry>, app: string) returns (r: Result<seq<Release>>)
    ensures r == Feed(data, app)
  {
    hide Comparable, Order, Accept, UpdateVersion.ParseVersion, Sorted;
    var releases: seq<Release> := [];
    for i := 0 to |data|
      invariant releases == Collect(data[..i], app)
    {
      assert data[..i + 1][..i] == data[..i];
      var accepted := Accept(data[i], app);
      if accepted.Some? {
        releases := releases + [accepted.value];
      }
    }
    assert data[..|data|] == data;
    r := Sorted(releases);
  }

  /**
   * The feed fails exactly when two or more releases were accepted and one of them cannot be compared. Otherwise it
   * holds the accepted releases, newest first and equal ones in their old order, unless it is a single release that
   * cannot be compared.
   */
  lemma FeedIsSorted(data: seq<Entry>, app: string, v: Version)
    ensures var all := Collect(data, app); var r := Feed(data, app);
      && (r.Err? <==> |all| >= 2 && !AllComparable(all))
      && (r.Ok? ==> multiset(r.value) == multiset(all) && (NewestFirst(r.value) <==> AllComparable(all)))
      && (r.Ok? && AllComparable(all) ==> OfPrecedence(r.value, v) == OfPrecedence(all, v))
      && (r.Ok? && !AllComparable(all) ==> r.value == all && |all| == 1)
  {
    hide Comparable, Order, Collect, Sorted;
    var all := Collect(data, app);
    SortFailsIff(all);
    if AllComparable(all) { SortedIsStable(all, v); }
  }

  /** A release is in the feed exactly when an entry of the answer was accepted as it. */
  lemma InFeedIff(data: seq<Entry>, app: string, x: Release)
    requires Feed(data, app).Ok?
    ensures x in Feed(data, app).value <==> exists i :: 0 <= i < |data| && Accept(data[i], app) == Some(x)
  {
    hide Accept, UpdateVersion.ParseVersion, Sorted, Collect, Comparable, Order;
    FeedIsSorted(data, app, Version(0, 0, 0, []));
    var all, rs := Collect(data, app), Feed(data, app).value;
    assert x in rs <==> x in multiset(rs);
    assert x in all <==> x in multiset(all);
    if x in all { var i := CollectedWasAccepted(data, app, x); }
    if i :| 0 <= i < |data| && Accept(data[i], app) == Some(x) { AcceptedIsCollected(data, app, i); }
  }

  /** The filter keeps every published entry of the application whose version parses, and nothing else. */
  lemma {:induction false} AcceptedIsCollected(data: seq<Entry>, app: string, i: nat)
    requires i < |data| && Accept(data[i], app).Some?
    ensures Accept(data[i], app).value in Collect(data, app)
  {
    hide Accept, UpdateVersion.ParseVersion;
    if i < |data| - 1 {
      AcceptedIsCollected(data[..|data| - 1], app, i);
    }
  }

  lemma {:induction false} CollectedWasAccepted(data: seq<Entry>, app: string, x: Release) returns (i: nat)
    requires x in Collect(data, app)
    ensures i < |data| && Accept(data[i], app) == Some(x)
  {
    hide Accept, UpdateVersion.ParseVersion;
    if x in Collect(data[..|data| - 1], app) {
      i := CollectedWasAccepted(data[..|data| - 1], app, x);
    } else {
      i := |data| - 1;
    }
  }
}
