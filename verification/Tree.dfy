/** Directory trees, their preorder listing, and the unique decodability of the tree preimage. */
module Tree {
  import opened Bytes
  import opened Commitment
  import Hex
  import Sha256Spec

  type Name = seq<byte>

  /** An unchanging tree.  A directory is a finite map: it has no order of its own. */
  datatype Node =
    | File(stat: Stat, content: seq<byte>)
    | Dir(stat: Stat, entries: map<Name, Node>)
    | Special(stat: Stat)

  /** One call of `update_tree_entry`. */
  datatype Entry = FileEntry(path: text, stat: Stat, digest: text) | DirEntry(path: text, stat: Stat)

  // ---- The order of names: strcmp compares unsigned octets.

  predicate Below(a: Name, b: Name) {
    if b == [] then false
    else if a == [] then true
    else a[0] < b[0] || (a[0] == b[0] && Below(a[1..], b[1..]))
  }

  /** The two names agree up to `k`, where the first one ends or has the smaller octet. */
  predicate BelowAt(a: Name, b: Name, k: nat) { k <= |a| && k < |b| && a[..k] == b[..k] && (k == |a| || a[k] < b[k]) }

  /** The first difference decides. */
  lemma {:induction false} BelowIff(a: Name, b: Name)
    ensures Below(a, b) <==> exists k: nat :: BelowAt(a, b, k)
  {
    if a == [] || b == [] || a[0] != b[0] {
      if Below(a, b) { assert BelowAt(a, b, 0); }
      if k: nat :| BelowAt(a, b, k) {
        if k > 0 { SameStart(a, b, k); }
      }
    } else {
      BelowIff(a[1..], b[1..]);
      if k: nat :| BelowAt(a[1..], b[1..], k) {
        assert a[..k + 1] == [a[0]] + a[1..][..k] && b[..k + 1] == [b[0]] + b[1..][..k];
        assert BelowAt(a, b, k + 1);
      }
      if k: nat :| BelowAt(a, b, k) {
        assert a[1..][..k - 1] == a[..k][1..] && b[1..][..k - 1] == b[..k][1..];
        assert BelowAt(a[1..], b[1..], k - 1);
      }
    }
  }

  lemma SameStart(a: Name, b: Name, k: nat)
    requires 0 < k <= |a| && k <= |b| && a[..k] == b[..k]
    ensures a[0] == b[0]
  {
    assert a[..k][0] == a[0] && b[..k][0] == b[0];
  }

  lemma {:induction false} BelowTransitive(a: Name, b: Name, c: Name)
    requires Below(a, b) && Below(b, c)
    ensures Below(a, c)
  {
    if a != [] && a[0] == b[0] == c[0] {
      BelowTransitive(a[1..], b[1..], c[1..]);
    }
  }

  lemma {:induction false} BelowTotal(a: Name, b: Name)
    ensures a == b || Below(a, b) || Below(b, a)
    ensures !(Below(a, b) && Below(b, a)) && !Below(a, a)
  {
    if a != [] && b != [] && a[0] == b[0] {
      BelowTotal(a[1..], b[1..]);
      assert a == [a[0]] + a[1..] && b == [b[0]] + b[1..];
    }
    if a != [] {
      BelowTotal(a[1..], a[1..]);
    }
  }

  ghost predicate Sorted(names: seq<Name>) {
    forall i, j :: 0 <= i < j < |names| ==> Below(names[i], names[j])
  }

  ghost function Members(names: seq<Name>): set<Name> { set n | n in names }

  /** A sorted list is determined by its members. */
  lemma {:induction false} SortedUnique(a: seq<Name>, b: seq<Name>)
    requires Sorted(a) && Sorted(b) && Members(a) == Members(b)
    ensures a == b
  {
    if a != [] || b != [] {
      assert a != [] ==> a[0] in Members(a);
      assert b != [] ==> b[0] in Members(b);
      assert b[0] in Members(a);
      var i :| 0 <= i < |a| && a[i] == b[0];
      var j :| 0 <= j < |b| && b[j] == a[0];
      BelowTotal(a[0], b[0]);
      assert a[0] == b[0];
      BelowTotal(a[0], a[0]);
      assert Members(a[1..]) == Members(a) - {a[0]};
      assert Members(b[1..]) == Members(b) - {b[0]};
      SortedUnique(a[1..], b[1..]);
      assert a == [a[0]] + a[1..] && b == [b[0]] + b[1..];
    }
  }

  lemma LeastName(names: set<Name>) returns (least: Name)
    requires names != {}
    ensures least in names && forall n :: n in names && n != least ==> Below(least, n)
    decreases |names|
  {
    var x :| x in names;
    if names == {x} {
      least := x;
    } else {
      var rest := names - {x};
      assert rest != {} by { assert names == rest + {x}; }
      var low := LeastName(rest);
      BelowTotal(x, low);
      if Below(x, low) {
        forall n | n in rest && n != low ensures Below(x, n) { BelowTransitive(x, low, n); }
        least := x;
      } else {
        least := low;
      }
    }
  }

  lemma SortedExists(names: set<Name>) returns (r: seq<Name>)
    ensures Sorted(r) && Members(r) == names
    decreases |names|
  {
    if names == {} {
      r := [];
    } else {
      var least := LeastName(names);
      var rest := SortedExists(names - {least});
      r := [least] + rest;
      forall j | 0 < j < |r| ensures Below(r[0], r[j]) { assert r[j] in Members(rest); }
      assert Members(r) == {least} + Members(rest);
    }
  }

  /** The names of a directory in the order `qsort` with `compare_names` leaves them. */
  ghost function SortedNames(names: set<Name>): (r: seq<Name>)
    ensures Sorted(r) && Members(r) == names
  {
    assert exists r :: Sorted(r) && Members(r) == names by { var r := SortedExists(names); }
    var r :| Sorted(r) && Members(r) == names;
    r
  }

  // ---- The listing.

  /** `join_tree_path` */
  function Join(prefix: seq<byte>, name: Name): (r: seq<byte>) {
    if prefix == [] then name else prefix + [SLASH] + name
  }

  predicate ProperName(name: Name) { name != [] && SLASH !in name }

  /** Names the kernel can return, and paths that fit a 64-bit length. */
  ghost predicate Proper(dir: Node, prefix: seq<byte>)
    requires dir.Dir?
    decreases dir
  {
    forall n :: n in dir.entries ==>
      && ProperName(n) && |Join(prefix, n)| < TWO_64
      && (dir.entries[n].Dir? ==> Proper(dir.entries[n], Join(prefix, n)))
  }

  /** The entries of the tree below `dir`: preorder, children by name. */
  ghost function Listing(dir: Node, prefix: seq<byte>): (r: seq<Entry>)
    requires dir.Dir? && Proper(dir, prefix)
    decreases dir, 1, 0
  {
    ListNames(dir, SortedNames(dir.entries.Keys), prefix)
  }

  ghost function ListNames(dir: Node, names: seq<Name>, prefix: seq<byte>): (r: seq<Entry>)
    requires dir.Dir? && Proper(dir, prefix) && Members(names) <= dir.entries.Keys
    decreases dir, 0, |names|
  {
    if names == [] then []
    else
      assert names[0] in Members(names) && Members(names[1..]) <= Members(names);
      ListChild(dir, names[0], prefix) + ListNames(dir, names[1..], prefix)
  }

  ghost function ListChild(dir: Node, name: Name, prefix: seq<byte>): (r: seq<Entry>)
    requires dir.Dir? && Proper(dir, prefix) && name in dir.entries
    decreases dir, 0, 0
  {
    var path := Join(prefix, name);
    match dir.entries[name]
    case File(stat, content) => [FileEntry(path, stat, DigestText(content))]
    case Dir(stat, _) => [DirEntry(path, stat)] + Listing(dir.entries[name], path)
    case Special(_) => []
  }

  // ---- The preimage of the tree commitment.

  function EntryItems(e: Entry): (r: seq<Item>) {
    match e
    case FileEntry(path, stat, digest) => [Text(path), Text(Ascii("file"))] + StatItems(stat) + [Text(digest)]
    case DirEntry(path, stat) => [Text(path), Text(Ascii("directory"))] + StatItems(stat)
  }

  function EntryBytes(es: seq<Entry>): (r: seq<byte>) {
    if es == [] then [] else Encode(EntryItems(es[0])) + EntryBytes(es[1..])
  }

  /** One entry, octet for octet: path, kind, metadata, and for a file its digest. */
  lemma EntryLayout(e: Entry)
    ensures Encode(EntryItems(e)) ==
      match e
      case FileEntry(path, stat, digest) => Field(path) + Field(Ascii("file")) + Encode(StatItems(stat)) + Field(digest)
      case DirEntry(path, stat) => Field(path) + Field(Ascii("directory")) + Encode(StatItems(stat))
  {
    hide StatItems, Field, Encode;
    var kind := Ascii(if e.FileEntry? then "file" else "directory");
    var head := [Text(e.path), Text(kind)];
    EncodeAppend(head, StatItems(e.stat));
    assert [Text(e.path)] + [Text(kind)] == head;
    EncodeFirst(Text(e.path), [Text(kind)]);
    EncodeOne(Text(kind));
    TextLayout(e.path); TextLayout(kind);
    if e.FileEntry? {
      EncodeAppend(head + StatItems(e.stat), [Text(e.digest)]);
      EncodeOne(Text(e.digest));
      TextLayout(e.digest);
    }
  }

  lemma EntryItemsInjective(e: Entry, f: Entry)
    requires EntryItems(e) == EntryItems(f)
    ensures e == f
  {
    hide StatItems;
    var x, y := EntryItems(e), EntryItems(f);
    assert |x| == if e.FileEntry? then 14 else 13;
    assert |y| == if f.FileEntry? then 14 else 13;
    assert x[0] == y[0];
    assert StatItems(e.stat) == x[2..13] && StatItems(f.stat) == y[2..13];
    StatItemsInjective(e.stat, f.stat);
    if e.FileEntry? {
      assert x[13] == y[13];
    }
  }

  /** The kind text tells the two shapes of an entry apart. */
  lemma SameKind(e: Entry, f: Entry, r: seq<byte>, s: seq<byte>)
    requires Encode(EntryItems(e)) + r == Encode(EntryItems(f)) + s
    ensures e.FileEntry? <==> f.FileEntry?
  {
    hide StatItems, Encode;
    var x, y := EntryItems(e), EntryItems(f);
    EncodeAppend(x[..2], x[2..]);
    EncodeAppend(y[..2], y[2..]);
    assert x[..2] + x[2..] == x && y[..2] + y[2..] == y;
    assert Encode(x) + r == Encode(x[..2]) + (Encode(x[2..]) + r);
    assert Encode(y) + s == Encode(y[..2]) + (Encode(y[2..]) + s);
    ItemsDecode(x[..2], y[..2], Encode(x[2..]) + r, Encode(y[2..]) + s);
    assert x[..2][1] == y[..2][1];
    assert |Ascii("file")| == 4 && |Ascii("directory")| == 9;
  }

  lemma EntryDecodes(e: Entry, f: Entry, r: seq<byte>, s: seq<byte>)
    requires Encode(EntryItems(e)) + r == Encode(EntryItems(f)) + s
    ensures e == f && r == s
  {
    hide StatItems, Encode;
    SameKind(e, f, r, s);
    ItemsDecode(EntryItems(e), EntryItems(f), r, s);
    EntryItemsInjective(e, f);
  }

  lemma {:induction false} EntriesDecode(es: seq<Entry>, fs: seq<Entry>, r: seq<byte>, s: seq<byte>)
    requires |es| == |fs| && EntryBytes(es) + r == EntryBytes(fs) + s
    ensures es == fs && r == s
  {
    hide EntryItems, Encode;
    if es == [] {
      assert EntryBytes(es) + r == r && EntryBytes(fs) + s == s;
    } else {
      assert EntryBytes(es) + r == Encode(EntryItems(es[0])) + (EntryBytes(es[1..]) + r);
      assert EntryBytes(fs) + s == Encode(EntryItems(fs[0])) + (EntryBytes(fs[1..]) + s);
      EntryDecodes(es[0], fs[0], EntryBytes(es[1..]) + r, EntryBytes(fs[1..]) + s);
      EntriesDecode(es[1..], fs[1..], r, s);
    }
  }

  /** What `tree_commitment` hashes: tag, root metadata, entries, and the two counters. */
  function TreePreimage(root: Stat, es: seq<Entry>, entries: u64, bytes: u64): (r: seq<byte>) {
    Encode([Text(TreeTag())] + StatItems(root)) + EntryBytes(es) + Encode([Word(entries), Word(bytes)])
  }

  lemma TailLength(entries: u64, bytes: u64)
    ensures Encode([Word(entries), Word(bytes)]) == U64(entries) + U64(bytes)
  {
    var xs := [Word(entries), Word(bytes)];
    assert Encode(xs) == EncodeItem(xs[0]) + Encode(xs[1..]);
    assert xs[1..] == [Word(bytes)];
    assert Encode(xs[1..]) == EncodeItem(xs[1]) + Encode(xs[1..][1..]);
    assert Encode(xs[1..][1..]) == [];
    assert EncodeItem(xs[1]) + [] == EncodeItem(xs[1]);
  }

  /** The entry counter sits at a fixed distance from the end, so it is read before the entries. */
  lemma CountersDecode(a: seq<byte>, b: seq<byte>, n: u64, m: u64, k: u64, l: u64)
    requires a + (U64(n) + U64(m)) == b + (U64(k) + U64(l))
    ensures a == b && n == k && m == l
  {
    hide U64;
    var whole := a + (U64(n) + U64(m));
    assert |a| == |b|;
    assert whole[..|a|] == a && whole[..|a|] == b;
    assert whole[|a|..|a| + 8] == U64(n) && whole[|a|..|a| + 8] == U64(k);
    assert whole[|a| + 8..] == U64(m) && whole[|a| + 8..] == U64(l);
    U64Injective(n, k);
    U64Injective(m, l);
  }

  /** A tree preimage determines the root metadata, every entry in order, and both counters. */
  lemma TreePreimageDecodes(r1: Stat, es: seq<Entry>, b1: u64, r2: Stat, fs: seq<Entry>, b2: u64)
    requires |es| < TWO_64 && |fs| < TWO_64
    requires TreePreimage(r1, es, |es|, b1) == TreePreimage(r2, fs, |fs|, b2)
    ensures r1 == r2 && es == fs && b1 == b2
  {
    hide Encode, EntryBytes, StatItems, TreeTag, U64;
    var h1, h2 := [Text(TreeTag())] + StatItems(r1), [Text(TreeTag())] + StatItems(r2);
    TailLength(|es|, b1);
    TailLength(|fs|, b2);
    CountersDecode(Encode(h1) + EntryBytes(es), Encode(h2) + EntryBytes(fs), |es|, b1, |fs|, b2);
    ItemsDecode(h1, h2, EntryBytes(es), EntryBytes(fs));
    assert StatItems(r1) == h1[1..] && StatItems(r2) == h2[1..];
    StatItemsInjective(r1, r2);
    assert EntryBytes(es) + [] == EntryBytes(fs) + [];
    EntriesDecode(es, fs, [], []);
  }

  /** The three domains never meet. */
  lemma DomainsSeparate(r1: Stat, p1: text, m: Stat, d: text, r2: Stat, p2: text, q: Stat, r3: Stat, es: seq<Entry>,
                        n: u64, b: u64)
    ensures Encode(FileItems(r1, p1, m, d)) != Encode(AbsentItems(r2, p2, q))
    ensures Encode(FileItems(r1, p1, m, d)) != TreePreimage(r3, es, n, b)
    ensures Encode(AbsentItems(r2, p2, q)) != TreePreimage(r3, es, n, b)
  {
    TagsDiffer();
    hide Encode, EntryBytes, StatItems, TreeTag, FileTag, AbsentTag;
    var f, a := FileItems(r1, p1, m, d), AbsentItems(r2, p2, q);
    assert f == [Text(FileTag())] + f[1..] && a == [Text(AbsentTag())] + a[1..];
    var rest := EntryBytes(es) + Encode([Word(n), Word(b)]);
    assert TreePreimage(r3, es, n, b) == Encode([Text(TreeTag())] + StatItems(r3)) + rest;
    assert Encode(f) == Encode(f) + [] && Encode(a) == Encode(a) + [];
    TagsSeparate(FileTag(), AbsentTag(), f[1..], a[1..], [], []);
    TagsSeparate(FileTag(), TreeTag(), f[1..], StatItems(r3), [], rest);
    TagsSeparate(AbsentTag(), TreeTag(), a[1..], StatItems(r3), [], rest);
  }

  // ---- From the listing back to the tree.

  /** `path` lies strictly below the directory whose path is `prefix`. */
  predicate Beneath(path: seq<byte>, prefix: seq<byte>) {
    prefix == [] || (|prefix| < |path| && path[..|prefix|] == prefix && path[|prefix|] == SLASH)
  }

  ghost predicate Outside(es: seq<Entry>, prefix: seq<byte>) {
    es != [] ==> !Beneath(es[0].path, prefix)
  }

  ghost predicate NoSpecial(dir: Node)
    requires dir.Dir?
    decreases dir
  {
    forall n :: n in dir.entries ==> !dir.entries[n].Special? && (dir.entries[n].Dir? ==> NoSpecial(dir.entries[n]))
  }

  /** The same tree, with file contents compared by their digests. */
  ghost predicate Agree(d: Node, e: Node)
    requires d.Dir? && e.Dir?
    decreases d
  {
    d.entries.Keys == e.entries.Keys &&
    forall n :: n in d.entries ==> AgreeAt(d, e, n)
  }

  ghost predicate AgreeAt(d: Node, e: Node, n: Name)
    requires d.Dir? && e.Dir? && n in d.entries && n in e.entries
    decreases d, 0
  {
    match (d.entries[n], e.entries[n])
    case (File(s, c), File(t, k)) => s == t && DigestText(c) == DigestText(k)
    case (Dir(s, _), Dir(t, _)) => s == t && Agree(d.entries[n], e.entries[n])
    case (Special(s), Special(t)) => true
    case _ => false
  }

  lemma AgreeFromNames(d: Node, e: Node)
    requires d.Dir? && e.Dir? && SortedNames(d.entries.Keys) == SortedNames(e.entries.Keys)
    requires forall n :: n in SortedNames(d.entries.Keys) ==> n in d.entries && n in e.entries && AgreeAt(d, e, n)
    ensures Agree(d, e)
  {
    hide AgreeAt;
    forall n | n in d.entries ensures n in SortedNames(d.entries.Keys) {
      assert n in Members(SortedNames(d.entries.Keys));
    }
  }

  lemma AgreeAtDirectory(d: Node, e: Node, n: Name)
    requires d.Dir? && e.Dir? && n in d.entries && n in e.entries
    requires d.entries[n].Dir? && e.entries[n].Dir? && d.entries[n].stat == e.entries[n].stat
    requires Agree(d.entries[n], e.entries[n])
    ensures AgreeAt(d, e, n)
  {
    hide Agree;
  }

  lemma JoinInjective(prefix: seq<byte>, n: Name, m: Name)
    requires Join(prefix, n) == Join(prefix, m)
    ensures n == m
  {
    var k := |Join(prefix, n)| - |n|;
    assert Join(prefix, n)[k..] == n && Join(prefix, m)[k..] == m;
  }

  lemma SiblingIsOutside(prefix: seq<byte>, n: Name, m: Name)
    requires ProperName(n) && ProperName(m)
    ensures Beneath(Join(prefix, n), prefix)
    ensures !Beneath(Join(prefix, m), Join(prefix, n))
  {
  }

  lemma BeneathParent(path: seq<byte>, prefix: seq<byte>, n: Name)
    requires n != [] && Beneath(path, Join(prefix, n))
    ensures Beneath(path, prefix)
  {
    var p := Join(prefix, n);
    if prefix != [] {
      assert path[..|prefix|] == path[..|p|][..|prefix|] == prefix;
      assert path[|prefix|] == path[..|p|][|prefix|] == p[|prefix|];
    }
  }

  lemma ChildHead(dir: Node, n: Name, prefix: seq<byte>)
    requires dir.Dir? && Proper(dir, prefix) && n in dir.entries && !dir.entries[n].Special?
    ensures ListChild(dir, n, prefix) != []
    ensures ListChild(dir, n, prefix)[0].path == Join(prefix, n)
    ensures ListChild(dir, n, prefix)[0].stat == dir.entries[n].stat
    ensures ListChild(dir, n, prefix)[0].FileEntry? <==> dir.entries[n].File?
  {
  }

  /** What follows a child in the listing does not lie below that child. */
  lemma RestIsOutside(dir: Node, names: seq<Name>, prefix: seq<byte>, r: seq<Entry>, n: Name)
    requires dir.Dir? && Proper(dir, prefix) && NoSpecial(dir) && Members(names) <= dir.entries.Keys
    requires Outside(r, prefix) && ProperName(n)
    ensures Outside(ListNames(dir, names, prefix) + r, Join(prefix, n))
  {
    if names == [] {
      assert ListNames(dir, names, prefix) + r == r;
      if r != [] && Beneath(r[0].path, Join(prefix, n)) {
        BeneathParent(r[0].path, prefix, n);
      }
    } else {
      assert names[0] in Members(names);
      ChildHead(dir, names[0], prefix);
      SiblingIsOutside(prefix, n, names[0]);
    }
  }

  lemma ChildFacts(dir: Node, n: Name, prefix: seq<byte>)
    requires dir.Dir? && Proper(dir, prefix) && NoSpecial(dir) && n in dir.entries
    ensures ProperName(n) && !dir.entries[n].Special? && |Join(prefix, n)| < TWO_64
    ensures dir.entries[n].Dir? ==>
      && Proper(dir.entries[n], Join(prefix, n)) && NoSpecial(dir.entries[n])
      && ListChild(dir, n, prefix) == [DirEntry(Join(prefix, n), dir.entries[n].stat)] + Listing(dir.entries[n], Join(prefix, n))
  {
    hide Join, Listing;
  }

  lemma NamesHead(dir: Node, names: seq<Name>, prefix: seq<byte>, r: seq<Entry>)
    requires dir.Dir? && Proper(dir, prefix) && NoSpecial(dir) && Members(names) <= dir.entries.Keys && names != []
    ensures names[0] in dir.entries && Members(names[1..]) <= dir.entries.Keys
    ensures ListNames(dir, names, prefix) + r == ListChild(dir, names[0], prefix) + (ListNames(dir, names[1..], prefix) + r)
    ensures ListNames(dir, names, prefix) + r != []
    ensures Beneath((ListNames(dir, names, prefix) + r)[0].path, prefix)
  {
    hide Proper, NoSpecial, ListChild, Join, Beneath, ListNames, Listing;
    FirstListed(dir, names, prefix);
    ChildFacts(dir, names[0], prefix);
    ChildHead(dir, names[0], prefix);
    SiblingIsOutside(prefix, names[0], names[0]);
    var a, b := ListChild(dir, names[0], prefix), ListNames(dir, names[1..], prefix);
    assert (a + b) + r == a + (b + r);
    assert ((a + b) + r)[0] == a[0];
  }

  lemma FirstListed(dir: Node, names: seq<Name>, prefix: seq<byte>)
    requires dir.Dir? && Proper(dir, prefix) && Members(names) <= dir.entries.Keys && names != []
    ensures names[0] in dir.entries && Members(names[1..]) <= dir.entries.Keys
    ensures ListNames(dir, names, prefix) == ListChild(dir, names[0], prefix) + ListNames(dir, names[1..], prefix)
  {
    hide Proper, ListChild;
    assert names[0] in Members(names) && Members(names[1..]) <= Members(names);
  }

  lemma EmptyTogether(d: Node, ns: seq<Name>, e: Node, ms: seq<Name>, prefix: seq<byte>, r: seq<Entry>, s: seq<Entry>)
    requires d.Dir? && Proper(d, prefix) && Members(ns) <= d.entries.Keys
    requires e.Dir? && Proper(e, prefix) && NoSpecial(e) && Members(ms) <= e.entries.Keys
    requires Outside(r, prefix) && ListNames(d, ns, prefix) + r == ListNames(e, ms, prefix) + s
    ensures ns == [] ==> ms == []
  {
    hide Proper, NoSpecial, ListChild;
    if ms != [] {
      NamesHead(e, ms, prefix, s);
    }
  }

  /** Children listed under one prefix are read back name by name, subtree by subtree. */
  lemma {:induction false} NamesDecode(d: Node, ns: seq<Name>, e: Node, ms: seq<Name>, prefix: seq<byte>,
                                       r: seq<Entry>, s: seq<Entry>)
    requires d.Dir? && Proper(d, prefix) && NoSpecial(d) && Members(ns) <= d.entries.Keys
    requires e.Dir? && Proper(e, prefix) && NoSpecial(e) && Members(ms) <= e.entries.Keys
    requires Outside(r, prefix) && Outside(s, prefix)
    requires ListNames(d, ns, prefix) + r == ListNames(e, ms, prefix) + s
    ensures ns == ms && r == s
    ensures forall n :: n in ns ==> n in d.entries && n in e.entries && AgreeAt(d, e, n)
    decreases d, |ns|
  {
    hide Proper, NoSpecial, ListChild, AgreeAt;
    EmptyTogether(d, ns, e, ms, prefix, r, s);
    EmptyTogether(e, ms, d, ns, prefix, s, r);
    if ns == [] {
      assert ListNames(d, ns, prefix) + r == r && ListNames(e, ms, prefix) + s == s;
    } else {
      NamesHead(d, ns, prefix, r);
      NamesHead(e, ms, prefix, s);
      var n := ns[0];
      var x, y := ListNames(d, ns[1..], prefix) + r, ListNames(e, ms[1..], prefix) + s;
      FirstChildDecodes(d, n, e, ms[0], prefix, x, y);
      if d.entries[n].Dir? {
        RestIsOutside(d, ns[1..], prefix, r, n);
        RestIsOutside(e, ms[1..], prefix, s, n);
        SubtreeDecodes(d, n, e, prefix, x, y);
      } else {
        FileDecodes(d, n, e, prefix, x, y);
      }
      NamesDecode(d, ns[1..], e, ms[1..], prefix, r, s);
      assert ns == [n] + ns[1..] && ms == [n] + ms[1..];
    }
  }

  lemma FirstChildDecodes(d: Node, n: Name, e: Node, m: Name, prefix: seq<byte>, r: seq<Entry>, s: seq<Entry>)
    requires d.Dir? && Proper(d, prefix) && NoSpecial(d) && n in d.entries
    requires e.Dir? && Proper(e, prefix) && NoSpecial(e) && m in e.entries
    requires ListChild(d, n, prefix) + r == ListChild(e, m, prefix) + s
    ensures n == m && ProperName(n)
    ensures !d.entries[n].Special? && !e.entries[n].Special? && (d.entries[n].Dir? <==> e.entries[n].Dir?)
    ensures d.entries[n].stat == e.entries[n].stat
  {
    ChildHead(d, n, prefix);
    ChildHead(e, m, prefix);
    assert (ListChild(d, n, prefix) + r)[0] == (ListChild(e, m, prefix) + s)[0];
    JoinInjective(prefix, n, m);
  }

  lemma FileDecodes(d: Node, n: Name, e: Node, prefix: seq<byte>, r: seq<Entry>, s: seq<Entry>)
    requires d.Dir? && Proper(d, prefix) && n in d.entries && d.entries[n].File?
    requires e.Dir? && Proper(e, prefix) && n in e.entries && e.entries[n].File?
    requires ListChild(d, n, prefix) + r == ListChild(e, n, prefix) + s
    ensures AgreeAt(d, e, n) && r == s
  {
    hide DigestText;
    var whole := ListChild(d, n, prefix) + r;
    assert |ListChild(d, n, prefix)| == 1 && |ListChild(e, n, prefix)| == 1;
    assert whole[0] == ListChild(d, n, prefix)[0] == ListChild(e, n, prefix)[0];
    assert whole[1..] == r && whole[1..] == s;
  }

  lemma DropHead<T>(g: T, a: seq<T>, x: seq<T>, h: T, b: seq<T>, y: seq<T>)
    requires ([g] + a) + x == ([h] + b) + y
    ensures a + x == b + y
  {
    assert a + x == (([g] + a) + x)[1..] && b + y == (([h] + b) + y)[1..];
  }

  lemma SubtreeDecodes(d: Node, n: Name, e: Node, prefix: seq<byte>, x: seq<Entry>, y: seq<Entry>)
    requires d.Dir? && Proper(d, prefix) && NoSpecial(d) && n in d.entries && d.entries[n].Dir?
    requires e.Dir? && Proper(e, prefix) && NoSpecial(e) && n in e.entries && e.entries[n].Dir?
    requires d.entries[n].stat == e.entries[n].stat
    requires Outside(x, Join(prefix, n)) && Outside(y, Join(prefix, n))
    requires ListChild(d, n, prefix) + x == ListChild(e, n, prefix) + y
    ensures AgreeAt(d, e, n) && x == y
    decreases d, 0
  {
    hide Proper, NoSpecial, ListChild, ListNames, Join, Outside, Agree, AgreeAt;
    var path := Join(prefix, n);
    var dd, ee := d.entries[n], e.entries[n];
    ChildFacts(d, n, prefix);
    ChildFacts(e, n, prefix);
    DropHead(DirEntry(path, dd.stat), Listing(dd, path), x, DirEntry(path, ee.stat), Listing(ee, path), y);
    NamesDecode(dd, SortedNames(dd.entries.Keys), ee, SortedNames(ee.entries.Keys), path, x, y);
    AgreeFromNames(dd, ee);
    AgreeAtDirectory(d, e, n);
  }

  lemma {:induction false} AgreeListsNames(d: Node, e: Node, names: seq<Name>, prefix: seq<byte>)
    requires d.Dir? && Proper(d, prefix) && e.Dir? && Proper(e, prefix) && Agree(d, e)
    requires Members(names) <= d.entries.Keys
    ensures ListNames(d, names, prefix) == ListNames(e, names, prefix)
    decreases d, |names|
  {
    hide DigestText;
    if names != [] {
      var n := names[0];
      assert n in Members(names) && Members(names[1..]) <= Members(names);
      assert AgreeAt(d, e, n);
      if d.entries[n].Dir? {
        var keys := d.entries[n].entries.Keys;
        AgreeListsNames(d.entries[n], e.entries[n], SortedNames(keys), Join(prefix, n));
      }
      assert ListChild(d, n, prefix) == ListChild(e, n, prefix);
      AgreeListsNames(d, e, names[1..], prefix);
    }
  }

  /**
   * The tree hash is fed a uniquely decodable byte string: two preimages are equal exactly when the
   * root metadata and byte totals are equal and the trees agree in shape, names, metadata and
   * content digests.
   */
  lemma TreeDetermined(r1: Stat, d: Node, b1: u64, r2: Stat, e: Node, b2: u64)
    requires d.Dir? && Proper(d, []) && NoSpecial(d) && |Listing(d, [])| < TWO_64
    requires e.Dir? && Proper(e, []) && NoSpecial(e) && |Listing(e, [])| < TWO_64
    ensures TreePreimage(r1, Listing(d, []), |Listing(d, [])|, b1) == TreePreimage(r2, Listing(e, []), |Listing(e, [])|, b2)
            <==> r1 == r2 && b1 == b2 && Agree(d, e)
  {
    hide Proper, NoSpecial, TreePreimage, Agree;
    var x, y := Listing(d, []), Listing(e, []);
    if TreePreimage(r1, x, |x|, b1) == TreePreimage(r2, y, |y|, b2) {
      TreePreimageDecodes(r1, x, b1, r2, y, b2);
      assert x + [] == y + [];
      NamesDecode(d, SortedNames(d.entries.Keys), e, SortedNames(e.entries.Keys), [], [], []);
      AgreeFromNames(d, e);
    }
    if Agree(d, e) {
      assert d.entries.Keys == e.entries.Keys by { AgreeKeys(d, e); }
      AgreeListsNames(d, e, SortedNames(d.entries.Keys), []);
    }
  }

  lemma AgreeKeys(d: Node, e: Node)
    requires d.Dir? && e.Dir? && Agree(d, e)
    ensures d.entries.Keys == e.entries.Keys
  {
  }
}
