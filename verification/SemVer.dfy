/** Semantic Versioning 2.0.0: the grammar (sections 2, 9 and 10) and precedence (section 11). */
module SemVer {
  import opened JsText
  import opened Splitting
  import opened Wrappers
  import Decimal

  /** A prerelease identifier. */
  datatype Ident = Num(n: nat) | Alpha(s: string)

  /** Build metadata is read and dropped: it has no part in precedence. */
  datatype Version = Version(major: nat, minor: nat, patch: nat, pre: seq<Ident>)

  // ---- Reading and printing.

  predicate IdentChar(c: char) { 'a' <= c <= 'z' || 'A' <= c <= 'Z' || '0' <= c <= '9' || c == '-' }

  predicate IdentText(s: string) { s != [] && forall i :: 0 <= i < |s| ==> IdentChar(s[i]) }

  predicate NumberText(s: string) { s != [] && Decimal.AllDigits(s) && (s[0] == '0' ==> |s| == 1) }

  function ParseIdent(s: string): (r: Option<Ident>) {
    if !IdentText(s) then None
    else if !Decimal.AllDigits(s) then Some(Alpha(s))
    else if NumberText(s) then Some(Num(Decimal.Number(s)))
    else None
  }

  function ParseIdents(parts: seq<string>): (r: Option<seq<Ident>>) {
    if parts == [] then Some([])
    else
      match (ParseIdent(parts[0]), ParseIdents(parts[1..]))
      case (Some(x), Some(xs)) => Some([x] + xs)
      case _ => None
  }

  function ParseCore(s: string, pre: seq<Ident>): (r: Option<Version>) {
    var parts := Split(s, '.');
    if |parts| == 3 && NumberText(parts[0]) && NumberText(parts[1]) && NumberText(parts[2])
    then Some(Version(Decimal.Number(parts[0]), Decimal.Number(parts[1]), Decimal.Number(parts[2]), pre))
    else None
  }

  function ParseWithoutBuild(s: string): (r: Option<Version>) {
    var k := IndexOf(s, '-');
    if k == |s| then ParseCore(s, [])
    else
      match ParseIdents(Split(s[k + 1..], '.'))
      case Some(pre) => ParseCore(s[..k], pre)
      case None => None
  }

  function Parse(s: string): (r: Option<Version>) {
    var k := IndexOf(s, '+');
    if k == |s| then ParseWithoutBuild(s)
    else if forall p :: p in Split(s[k + 1..], '.') ==> IdentText(p) then ParseWithoutBuild(s[..k])
    else None
  }

  function Core(major: nat, minor: nat, patch: nat): (s: string) {
    Decimal.Text(major) + "." + Decimal.Text(minor) + "." + Decimal.Text(patch)
  }

  function IdentString(x: Ident): (s: string) {
    match x
    case Num(n) => Decimal.Text(n)
    case Alpha(s) => s
  }

  function IdentStrings(xs: seq<Ident>): (r: seq<string>)
    ensures |r| == |xs|
  {
    seq(|xs|, i requires 0 <= i < |xs| => IdentString(xs[i]))
  }

  function Print(v: Version): (s: string) {
    Core(v.major, v.minor, v.patch) + (if v.pre == [] then "" else "-" + Join(IdentStrings(v.pre), '.'))
  }

  predicate ValidIdent(x: Ident) { x.Alpha? ==> IdentText(x.s) && !Decimal.AllDigits(x.s) }

  predicate Valid(v: Version) { forall i :: 0 <= i < |v.pre| ==> ValidIdent(v.pre[i]) }

  // ---- Printing is undone by reading.

  lemma IdentRoundTrip(x: Ident)
    requires ValidIdent(x)
    ensures ParseIdent(IdentString(x)) == Some(x)
    ensures forall i :: 0 <= i < |IdentString(x)| ==> IdentChar(IdentString(x)[i])
  {
    if x.Num? { Decimal.NumberOfText(x.n); }
  }

  lemma {:induction false} IdentsRoundTrip(xs: seq<Ident>)
    requires forall i :: 0 <= i < |xs| ==> ValidIdent(xs[i])
    ensures ParseIdents(IdentStrings(xs)) == Some(xs)
  {
    hide ParseIdent, IdentString, ValidIdent;
    if xs != [] {
      IdentRoundTrip(xs[0]);
      IdentsRoundTrip(xs[1..]);
      assert IdentStrings(xs)[1..] == IdentStrings(xs[1..]);
      assert xs == [xs[0]] + xs[1..];
    }
  }

  lemma LacksSeparators(s: string)
    requires forall i :: 0 <= i < |s| ==> IdentChar(s[i])
    ensures '.' !in s && '+' !in s
  {
  }

  lemma DigitsLack(s: string, c: char)
    requires Decimal.AllDigits(s) && !Decimal.IsDigit(c)
    ensures c !in s
  {
  }

  lemma CoreRoundTrip(major: nat, minor: nat, patch: nat, pre: seq<Ident>)
    ensures ParseCore(Core(major, minor, patch), pre) == Some(Version(major, minor, patch, pre))
    ensures '-' !in Core(major, minor, patch) && '+' !in Core(major, minor, patch)
  {
    hide Split, Decimal.Text;
    var a, b, c := Decimal.Text(major), Decimal.Text(minor), Decimal.Text(patch);
    Decimal.NumberOfText(major);
    Decimal.NumberOfText(minor);
    Decimal.NumberOfText(patch);
    DigitsLack(a, '.'); DigitsLack(b, '.'); DigitsLack(c, '.');
    DigitsLack(a, '-'); DigitsLack(b, '-'); DigitsLack(c, '-');
    DigitsLack(a, '+'); DigitsLack(b, '+'); DigitsLack(c, '+');
    assert Core(major, minor, patch) == a + ['.'] + (b + ['.'] + c);
    SplitFirst(a, b + ['.'] + c, '.');
    SplitFirst(b, c, '.');
    SplitNone(c, '.');
  }

  /** The text of a version without build metadata is read at its first hyphen. */
  lemma ReadAtHyphen(core: string, tail: string)
    requires '-' !in core
    ensures ParseWithoutBuild(core) == ParseCore(core, [])
    ensures ParseWithoutBuild(core + "-" + tail) ==
      match ParseIdents(Split(tail, '.')) case Some(pre) => ParseCore(core, pre) case None => None
  {
    hide Split, ParseCore, ParseIdents, IndexOf;
    assert core[..|core|] == core;
    IndexOfUnique(core, '-', |core|);
    var s := core + "-" + tail;
    assert s[..|core|] == core && s[|core|] == '-' && s[|core| + 1..] == tail;
    IndexOfUnique(s, '-', |core|);
  }

  lemma {:induction false} JoinChars(parts: seq<string>)
    requires |parts| >= 1 && forall p :: p in parts ==> forall i :: 0 <= i < |p| ==> IdentChar(p[i])
    ensures '+' !in Join(parts, '.')
  {
    assert forall p :: p in parts ==> '+' !in p;
    if |parts| > 1 {
      JoinChars(parts[1..]);
    }
  }

  /** Every version is read back from its text. */
  lemma ParsePrint(v: Version)
    requires Valid(v)
    ensures Parse(Print(v)) == Some(v)
  {
    hide Split, Join, ParseCore, ParseIdents, IndexOf, ParseWithoutBuild, Core, IdentString, ParseIdent, ValidIdent,
         IdentChar;
    var core := Core(v.major, v.minor, v.patch);
    CoreRoundTrip(v.major, v.minor, v.patch, v.pre);
    if v.pre == [] {
      ReadAtHyphen(core, "");
      NoBuild(core);
      assert Print(v) == core;
    } else {
      var parts := IdentStrings(v.pre);
      forall p | p in parts ensures '.' !in p && forall i :: 0 <= i < |p| ==> IdentChar(p[i]) {
        var i :| 0 <= i < |parts| && parts[i] == p;
        IdentRoundTrip(v.pre[i]);
        LacksSeparators(p);
      }
      SplitJoin(parts, '.');
      IdentsRoundTrip(v.pre);
      JoinChars(parts);
      ReadAtHyphen(core, Join(parts, '.'));
      NoBuild(core + "-" + Join(parts, '.'));
      assert Print(v) == core + "-" + Join(parts, '.');
    }
  }

  lemma NoBuild(s: string)
    requires '+' !in s
    ensures Parse(s) == ParseWithoutBuild(s)
  {
    hide ParseWithoutBuild, IndexOf;
    assert s[..|s|] == s;
    IndexOfUnique(s, '+', |s|);
  }

  // ---- What is read is valid.

  lemma {:induction false} ReadIdentsAreValid(parts: seq<string>)
    requires ParseIdents(parts).Some?
    ensures forall i :: 0 <= i < |ParseIdents(parts).value| ==> ValidIdent(ParseIdents(parts).value[i])
  {
    if parts != [] { ReadIdentsAreValid(parts[1..]); }
  }

  lemma ReadIsValid(s: string)
    requires Parse(s).Some?
    ensures Valid(Parse(s).value)
  {
    hide Split, IndexOf, ParseIdents, ValidIdent;
    var t := if IndexOf(s, '+') == |s| then s else s[..IndexOf(s, '+')];
    var k := IndexOf(t, '-');
    if k < |t| { ReadIdentsAreValid(Split(t[k + 1..], '.')); }
  }

  // ---- What is read is what would be printed, with build metadata or without.

  lemma TextOfNumber(s: string)
    requires NumberText(s)
    ensures Decimal.Text(Decimal.Number(s)) == s
  {
    Decimal.PrintRead(Decimal.Read(s));
    Decimal.ShowRead(s);
  }

  lemma CoreBack(s: string, pre: seq<Ident>)
    requires ParseCore(s, pre).Some?
    ensures var v := ParseCore(s, pre).value; s == Core(v.major, v.minor, v.patch) && v.pre == pre
  {
    hide Split, Decimal.Text, NumberText;
    var parts := Split(s, '.');
    JoinSplit(s, '.');
    assert |parts| == 3 && parts[1..][1..] == [parts[2]];
    assert Join(parts[1..], '.') == parts[1] + ['.'] + Join(parts[1..][1..], '.');
    assert s == parts[0] + ['.'] + (parts[1] + ['.'] + parts[2]);
    TextOfNumber(parts[0]);
    TextOfNumber(parts[1]);
    TextOfNumber(parts[2]);
    assert parts[0] + "." + parts[1] + "." + parts[2] == parts[0] + ['.'] + (parts[1] + ['.'] + parts[2]);
  }

  lemma IdentBack(s: string)
    requires ParseIdent(s).Some?
    ensures IdentString(ParseIdent(s).value) == s
  {
    hide Decimal.Text;
    if Decimal.AllDigits(s) { TextOfNumber(s); }
  }

  lemma {:induction false} IdentsBack(parts: seq<string>)
    requires ParseIdents(parts).Some?
    ensures IdentStrings(ParseIdents(parts).value) == parts
  {
    hide ParseIdent, IdentString;
    if parts != [] {
      IdentBack(parts[0]);
      IdentsBack(parts[1..]);
      var xs := ParseIdents(parts[1..]).value;
      assert IdentStrings([ParseIdent(parts[0]).value] + xs) == [parts[0]] + IdentStrings(xs);
    }
  }

  lemma ReadBack(s: string)
    requires ParseWithoutBuild(s).Some?
    ensures Print(ParseWithoutBuild(s).value) == s
  {
    hide Split, Join, ParseCore, ParseIdents, IndexOf, Core, IdentStrings;
    var k := IndexOf(s, '-');
    if k == |s| {
      CoreBack(s, []);
      var v := ParseCore(s, []).value;
      assert Core(v.major, v.minor, v.patch) + "" == Core(v.major, v.minor, v.patch);
    } else {
      var parts := Split(s[k + 1..], '.');
      var pre := ParseIdents(parts).value;
      CoreBack(s[..k], pre);
      IdentsBack(parts);
      JoinSplit(s[k + 1..], '.');
      assert s == s[..k] + ("-" + s[k + 1..]);
    }
  }

  /** Section 10: nothing, or a plus sign and dot-separated identifiers. */
  predicate BuildText(b: string) { b == "" || (b[0] == '+' && forall p :: p in Split(b[1..], '.') ==> IdentText(p)) }

  lemma NoPlus(v: Version)
    requires Valid(v)
    ensures '+' !in Print(v)
  {
    hide Join, ParseCore, Core, IdentString, ParseIdent, ValidIdent, IdentChar;
    CoreRoundTrip(v.major, v.minor, v.patch, v.pre);
    if v.pre != [] {
      var parts := IdentStrings(v.pre);
      forall p | p in parts ensures forall i :: 0 <= i < |p| ==> IdentChar(p[i]) {
        var i :| 0 <= i < |parts| && parts[i] == p;
        IdentRoundTrip(v.pre[i]);
      }
      JoinChars(parts);
    }
  }

  /** A text is read as a version exactly when it is the text of that version, perhaps with build metadata. */
  lemma ParseIff(s: string, v: Version)
    ensures Parse(s) == Some(v) <==> Valid(v) && exists b :: BuildText(b) && s == Print(v) + b
  {
    hide Split, ParseWithoutBuild, IndexOf, Print, Valid, IdentText;
    if Parse(s) == Some(v) {
      ReadIsValid(s);
      var k := IndexOf(s, '+');
      var b := s[k..];
      assert s == s[..k] + b && (k == |s| ==> s[..k] == s);
      ReadBack(s[..k]);
      assert k < |s| ==> b[1..] == s[k + 1..];
      assert BuildText(b);
    }
    if Valid(v) {
      NoPlus(v);
      ParsePrint(v);
      NoBuild(Print(v));
      if b :| BuildText(b) && s == Print(v) + b {
        WithBuild(s, v, b);
      }
    }
  }

  lemma WithBuild(s: string, v: Version, b: string)
    requires '+' !in Print(v) && ParseWithoutBuild(Print(v)) == Some(v) && BuildText(b) && s == Print(v) + b
    ensures Parse(s) == Some(v)
  {
    hide Split, ParseWithoutBuild, IndexOf, Print, IdentText;
    var k := |Print(v)|;
    assert s[..k] == Print(v);
    if b == "" {
      assert s == Print(v);
    } else {
      assert s[k] == '+' && s[k + 1..] == b[1..];
    }
    IndexOfUnique(s, '+', k);
  }

  // ---- The library's reader, which is laxer at the edges.

  /** `semver.parse`, also the parse inside `compare` and `gt`: it trims and allows one leading `v`. */
  function Strict(s: string): Option<Version> {
    var t := Trim(s);
    Parse(if t != [] && t[0] == 'v' then t[1..] else t)
  }

  lemma PrintedEnds(v: Version)
    requires Valid(v)
    ensures Print(v) != [] && Decimal.IsDigit(Print(v)[0])
    ensures IdentChar(Print(v)[|Print(v)| - 1])
  {
    hide Join, Decimal.Text;
    var core := Core(v.major, v.minor, v.patch);
    var last := Decimal.Text(v.patch);
    assert core[0] == Decimal.Text(v.major)[0];
    assert core[|core| - 1] == last[|last| - 1];
    if v.pre != [] {
      var parts := IdentStrings(v.pre);
      forall p | p in parts ensures p != [] && forall i :: 0 <= i < |p| ==> IdentChar(p[i]) {
        var i :| 0 <= i < |parts| && parts[i] == p;
        IdentRoundTrip(v.pre[i]);
      }
      JoinEnds(parts);
      var tail := "-" + Join(parts, '.');
      assert Print(v) == core + tail;
      assert Print(v)[|Print(v)| - 1] == tail[|tail| - 1];
    } else {
      assert Print(v) == core;
    }
  }

  lemma {:induction false} JoinEnds(parts: seq<string>)
    requires |parts| >= 1 && forall p :: p in parts ==> p != [] && forall i :: 0 <= i < |p| ==> IdentChar(p[i])
    ensures Join(parts, '.') != [] && IdentChar(Join(parts, '.')[|Join(parts, '.')| - 1])
  {
    if |parts| == 1 {
      assert parts[0] in parts;
    } else {
      JoinEnds(parts[1..]);
    }
  }

  /** The library's reader agrees on printed versions. */
  lemma StrictPrint(v: Version)
    requires Valid(v)
    ensures Strict(Print(v)) == Some(v)
  {
    hide Parse, Print, Trim;
    PrintedEnds(v);
    assert !IsSpace(Print(v)[|Print(v)| - 1]);
    TrimNothing(Print(v));
    ParsePrint(v);
  }

  // ---- Precedence (section 11).

  function CompareNat(a: nat, b: nat): (r: int) { if a < b then -1 else if a > b then 1 else 0 }

  /** Section 11.4.2: lexically in ASCII sort order. */
  function CompareText(a: string, b: string): (r: int)
    ensures -1 <= r <= 1
  {
    if a == [] && b == [] then 0
    else if a == [] then -1
    else if b == [] then 1
    else if a[0] < b[0] then -1
    else if a[0] > b[0] then 1
    else CompareText(a[1..], b[1..])
  }

  /** Sections 11.4.1 to 11.4.3. */
  function CompareIdent(a: Ident, b: Ident): (r: int)
    ensures -1 <= r <= 1
  {
    match (a, b)
    case (Num(m), Num(n)) => CompareNat(m, n)
    case (Num(_), Alpha(_)) => -1
    case (Alpha(_), Num(_)) => 1
    case (Alpha(s), Alpha(t)) => CompareText(s, t)
  }

  /** Sections 11.4 and 11.4.4: identifier by identifier; a longer list with equal beginnings is greater. */
  function CompareIdents(a: seq<Ident>, b: seq<Ident>): (r: int)
    ensures -1 <= r <= 1
  {
    if a == [] && b == [] then 0
    else if a == [] then -1
    else if b == [] then 1
    else if CompareIdent(a[0], b[0]) != 0 then CompareIdent(a[0], b[0])
    else CompareIdents(a[1..], b[1..])
  }

  /** Section 11.3: a prerelease has lower precedence than its normal version. */
  function ComparePre(a: seq<Ident>, b: seq<Ident>): (r: int) {
    if a == [] && b == [] then 0
    else if a == [] then 1
    else if b == [] then -1
    else CompareIdents(a, b)
  }

  function Compare(a: Version, b: Version): (r: int) {
    if a.major != b.major then CompareNat(a.major, b.major)
    else if a.minor != b.minor then CompareNat(a.minor, b.minor)
    else if a.patch != b.patch then CompareNat(a.patch, b.patch)
    else ComparePre(a.pre, b.pre)
  }

  // ---- Precedence, read declaratively.

  /** Section 11.4.2: the first difference decides in ASCII order; a proper beginning comes first. */
  predicate TextBeforeAt(s: string, t: string, k: nat) {
    k <= |s| && k < |t| && s[..k] == t[..k] && (k == |s| || s[k] < t[k])
  }

  ghost predicate TextBefore(s: string, t: string) { exists k: nat :: TextBeforeAt(s, t, k) }

  /** Sections 11.4.1 to 11.4.3: numbers by value, and below every other identifier. */
  ghost predicate IdentBefore(a: Ident, b: Ident) {
    (a.Num? && b.Num? && a.n < b.n) || (a.Num? && b.Alpha?) || (a.Alpha? && b.Alpha? && TextBefore(a.s, b.s))
  }

  ghost predicate IdentsBeforeAt(a: seq<Ident>, b: seq<Ident>, k: nat) {
    k <= |a| && k < |b| && a[..k] == b[..k] && (k == |a| || IdentBefore(a[k], b[k]))
  }

  /** Section 11: core numbers from left to right, a prerelease below its release, and then its identifiers. */
  ghost predicate Precedes(a: Version, b: Version) {
    || a.major < b.major
    || (a.major == b.major && a.minor < b.minor)
    || (a.major == b.major && a.minor == b.minor && a.patch < b.patch)
    || (a.major == b.major && a.minor == b.minor && a.patch == b.patch && a.pre != [] &&
        (b.pre == [] || exists k: nat :: IdentsBeforeAt(a.pre, b.pre, k)))
  }

  lemma {:induction false} TextBeforeIff(s: string, t: string)
    ensures CompareText(s, t) < 0 <==> TextBefore(s, t)
  {
    if s == [] || t == [] || s[0] != t[0] {
      if CompareText(s, t) < 0 { assert TextBeforeAt(s, t, 0); }
      if k: nat :| TextBeforeAt(s, t, k) {
        if k > 0 { SameStart(s, t, k); }
      }
    } else {
      TextBeforeIff(s[1..], t[1..]);
      if k: nat :| TextBeforeAt(s[1..], t[1..], k) {
        assert s[..k + 1] == [s[0]] + s[1..][..k] && t[..k + 1] == [t[0]] + t[1..][..k];
        assert TextBeforeAt(s, t, k + 1);
      }
      if k: nat :| TextBeforeAt(s, t, k) {
        assert s[1..][..k - 1] == s[..k][1..] && t[1..][..k - 1] == t[..k][1..];
        assert TextBeforeAt(s[1..], t[1..], k - 1);
      }
    }
  }

  lemma SameStart<T>(s: seq<T>, t: seq<T>, k: nat)
    requires 0 < k <= |s| && k <= |t| && s[..k] == t[..k]
    ensures s[0] == t[0]
  {
    assert s[..k][0] == s[0] && t[..k][0] == t[0];
  }

  lemma IdentBeforeIff(a: Ident, b: Ident)
    ensures CompareIdent(a, b) < 0 <==> IdentBefore(a, b)
    ensures CompareIdent(a, b) == 0 <==> a == b
  {
    hide TextBefore, CompareText;
    if a.Alpha? && b.Alpha? {
      TextBeforeIff(a.s, b.s);
      TextOrder(a.s, b.s, b.s);
    }
  }

  lemma {:induction false} IdentsBeforeIff(a: seq<Ident>, b: seq<Ident>)
    ensures CompareIdents(a, b) < 0 <==> exists k: nat :: IdentsBeforeAt(a, b, k)
  {
    hide CompareIdent, IdentBefore;
    if a != [] && b != [] { IdentBeforeIff(a[0], b[0]); }
    if a == [] || b == [] || a[0] != b[0] {
      if CompareIdents(a, b) < 0 { assert IdentsBeforeAt(a, b, 0); }
      if k: nat :| IdentsBeforeAt(a, b, k) {
        if k > 0 { SameStart(a, b, k); }
      }
    } else {
      IdentsBeforeIff(a[1..], b[1..]);
      if k: nat :| IdentsBeforeAt(a[1..], b[1..], k) {
        assert a[..k + 1] == [a[0]] + a[1..][..k] && b[..k + 1] == [b[0]] + b[1..][..k];
        assert IdentsBeforeAt(a, b, k + 1);
      }
      if k: nat :| IdentsBeforeAt(a, b, k) {
        assert a[1..][..k - 1] == a[..k][1..] && b[1..][..k - 1] == b[..k][1..];
        assert IdentsBeforeAt(a[1..], b[1..], k - 1);
      }
    }
  }

  /** The comparison is the precedence of section 11. */
  lemma PrecedenceIff(a: Version, b: Version)
    ensures Compare(a, b) < 0 <==> Precedes(a, b)
  {
    hide CompareIdents, IdentsBeforeAt;
    IdentsBeforeIff(a.pre, b.pre);
  }

  // ---- Precedence is a total order.

  lemma {:induction false} TextOrder(a: string, b: string, c: string)
    ensures CompareText(a, b) == -CompareText(b, a)
    ensures CompareText(a, b) == 0 <==> a == b
    ensures CompareText(a, b) <= 0 && CompareText(b, c) <= 0 ==> CompareText(a, c) <= 0
    decreases |a| + |b| + |c|
  {
    if a != [] && b != [] {
      assert a == [a[0]] + a[1..] && b == [b[0]] + b[1..];
      TextOrder(a[1..], b[1..], if c == [] then [] else c[1..]);
    }
  }

  lemma IdentOrder(a: Ident, b: Ident, c: Ident)
    ensures CompareIdent(a, b) == -CompareIdent(b, a)
    ensures CompareIdent(a, b) == 0 <==> a == b
    ensures CompareIdent(a, b) <= 0 && CompareIdent(b, c) <= 0 ==> CompareIdent(a, c) <= 0
  {
    hide CompareText;
    if a.Alpha? && b.Alpha? {
      TextOrder(a.s, b.s, if c.Alpha? then c.s else "");
    }
  }

  lemma {:induction false} IdentsOrder(a: seq<Ident>, b: seq<Ident>, c: seq<Ident>)
    ensures CompareIdents(a, b) == -CompareIdents(b, a)
    ensures CompareIdents(a, b) == 0 <==> a == b
    ensures CompareIdents(a, b) <= 0 && CompareIdents(b, c) <= 0 ==> CompareIdents(a, c) <= 0
    decreases |a| + |b| + |c|
  {
    hide CompareIdent;
    if a != [] && b != [] {
      assert a == [a[0]] + a[1..] && b == [b[0]] + b[1..];
      IdentOrder(a[0], b[0], if c == [] then a[0] else c[0]);
      if c != [] { IdentOrder(b[0], c[0], a[0]); IdentOrder(a[0], c[0], b[0]); }
      IdentsOrder(a[1..], b[1..], if c == [] then [] else c[1..]);
    }
  }

  /** Any two versions are comparable, only equal ones are equal in precedence, and precedence is transitive. */
  lemma TotalOrder(a: Version, b: Version, c: Version)
    ensures Compare(a, b) == -Compare(b, a)
    ensures Compare(a, b) == 0 <==> a == b
    ensures Compare(a, b) <= 0 && Compare(b, c) <= 0 ==> Compare(a, c) <= 0
    ensures Compare(a, b) < 0 && Compare(b, c) <= 0 ==> Compare(a, c) < 0
    ensures Compare(a, b) <= 0 && Compare(b, c) < 0 ==> Compare(a, c) < 0
  {
    hide CompareIdents;
    IdentsOrder(a.pre, b.pre, c.pre);
    IdentsOrder(b.pre, c.pre, a.pre);
    IdentsOrder(a.pre, c.pre, b.pre);
    IdentsOrder(c.pre, a.pre, b.pre);
    IdentsOrder(b.pre, a.pre, c.pre);
  }

  // ---- Text order facts the version formats rely on.

  lemma {:induction false} CommonPrefix(p: string, a: string, b: string)
    ensures CompareText(p + a, p + b) == CompareText(a, b)
  {
    if p == [] {
      assert p + a == a && p + b == b;
    } else {
      assert (p + a)[1..] == p[1..] + a && (p + b)[1..] == p[1..] + b;
      CommonPrefix(p[1..], a, b);
    }
  }

  lemma {:induction false} LastCharacter(a: string, b: string, x: char, y: char)
    requires |a| == |b|
    ensures CompareText(a + [x], b + [y]) ==
      if CompareText(a, b) != 0 then CompareText(a, b) else if x < y then -1 else if x > y then 1 else 0
  {
    if a == [] {
      assert a + [x] == [x] && b + [y] == [y];
      assert [x][1..] == [] && [y][1..] == [];
    } else {
      assert (a + [x])[1..] == a[1..] + [x] && (b + [y])[1..] == b[1..] + [y];
      LastCharacter(a[1..], b[1..], x, y);
    }
  }

  /** Zero-padded numerals of one width sort as numbers. */
  lemma {:induction false} PaddedOrder(n: nat, m: nat, width: nat)
    requires n < Decimal.Pow10(width) && m < Decimal.Pow10(width)
    ensures CompareText(Decimal.PaddedText(n, width), Decimal.PaddedText(m, width)) == CompareNat(n, m)
    decreases width
  {
    hide CompareText;
    if width > 0 {
      PaddedOrder(n / 10, m / 10, width - 1);
      PaddedLast(n, width);
      PaddedLast(m, width);
      LastCharacter(Decimal.PaddedText(n / 10, width - 1), Decimal.PaddedText(m / 10, width - 1),
                    '0' + (n % 10) as char, '0' + (m % 10) as char);
    } else {
      TextOrder(Decimal.PaddedText(n, 0), Decimal.PaddedText(m, 0), "");
    }
  }

  lemma PaddedLast(n: nat, width: nat)
    requires width > 0
    ensures Decimal.PaddedText(n, width) == Decimal.PaddedText(n / 10, width - 1) + ['0' + (n % 10) as char]
  {
  }
}
