/** The byte strings the native helper hashes: length-prefixed, domain-tagged encodings of a state. */
module Commitment {
  import opened Bytes
  import Hex
  import Sha256Spec

  type i64 = n: int | -0x8000_0000_0000_0000 <= n < 0x8000_0000_0000_0000
  type text = t: seq<byte> | |t| < TWO_64

  /** `struct stat`, with the fields the helper compares and hashes. */
  datatype Stat = Stat(dev: u64, ino: u64, mode: u64, nlink: u64, uid: u64, gid: u64, size: i64,
                       mtimeSec: i64, mtimeNsec: i64, ctimeSec: i64, ctimeNsec: i64)

  /** The conversion `(uint64_t)value` of a signed field. */
  function Unsigned(n: i64): (r: u64) {
    if n < 0 then n + TWO_64 else n
  }

  /** One call of `hash_u64_field` or of `hash_string_field`. */
  datatype Item = Word(w: u64) | Text(t: text)

  function EncodeItem(x: Item): (r: seq<byte>) {
    match x
    case Word(w) => U64(w)
    case Text(t) => U64(|t|) + t
  }

  function Encode(xs: seq<Item>): (r: seq<byte>) {
    if xs == [] then [] else EncodeItem(xs[0]) + Encode(xs[1..])
  }

  predicate SameShape(xs: seq<Item>, ys: seq<Item>) {
    |xs| == |ys| && forall i :: 0 <= i < |xs| ==> (xs[i].Word? <==> ys[i].Word?)
  }

  lemma ItemDecodes(x: Item, y: Item, r: seq<byte>, s: seq<byte>)
    requires x.Word? <==> y.Word?
    requires EncodeItem(x) + r == EncodeItem(y) + s
    ensures x == y && r == s
  {
    var whole := EncodeItem(x) + r;
    match x {
      case Word(v) =>
        assert whole[..8] == U64(v) && whole[..8] == U64(y.w);
        U64Injective(v, y.w);
      case Text(t) =>
        assert whole[..8] == U64(|t|) && whole[..8] == U64(|y.t|);
        U64Injective(|t|, |y.t|);
        assert whole[8..8 + |t|] == t && whole[8..8 + |t|] == y.t;
    }
    assert whole[|EncodeItem(x)|..] == r && whole[|EncodeItem(x)|..] == s;
  }

  lemma FirstItem(xs: seq<Item>, r: seq<byte>)
    requires xs != []
    ensures Encode(xs) + r == EncodeItem(xs[0]) + (Encode(xs[1..]) + r)
  {
    hide EncodeItem;
  }

  /** Items of a known shape are read back from the front of any byte string that starts with them. */
  lemma {:induction false} ItemsDecode(xs: seq<Item>, ys: seq<Item>, r: seq<byte>, s: seq<byte>)
    requires SameShape(xs, ys)
    requires Encode(xs) + r == Encode(ys) + s
    ensures xs == ys && r == s
  {
    hide EncodeItem;
    if xs == [] {
      assert Encode(xs) + r == r && Encode(ys) + s == s;
    } else {
      FirstItem(xs, r);
      FirstItem(ys, s);
      ItemDecodes(xs[0], ys[0], Encode(xs[1..]) + r, Encode(ys[1..]) + s);
      ItemsDecode(xs[1..], ys[1..], r, s);
    }
  }

  lemma {:induction false} EncodeAppend(xs: seq<Item>, ys: seq<Item>)
    ensures Encode(xs + ys) == Encode(xs) + Encode(ys)
  {
    if xs == [] {
      assert xs + ys == ys;
    } else {
      assert (xs + ys)[1..] == xs[1..] + ys;
      EncodeAppend(xs[1..], ys);
    }
  }

  /** Byte strings that open with different tags differ, whatever follows the tags. */
  lemma TagsSeparate(a: text, b: text, xs: seq<Item>, ys: seq<Item>, r: seq<byte>, s: seq<byte>)
    requires a != b
    ensures Encode([Text(a)] + xs) + r != Encode([Text(b)] + ys) + s
  {
    var v, w := [Text(a)] + xs, [Text(b)] + ys;
    if Encode(v) + r == Encode(w) + s {
      FirstItem(v, r);
      FirstItem(w, s);
      ItemDecodes(v[0], w[0], Encode(v[1..]) + r, Encode(w[1..]) + s);
    }
  }

  /** `hash_stat_fields` */
  function StatItems(m: Stat): (r: seq<Item>)
    ensures |r| == 11 && forall i :: 0 <= i < 11 ==> r[i].Word?
  {
    [Word(m.dev), Word(m.ino), Word(m.mode), Word(m.nlink), Word(m.uid), Word(m.gid), Word(Unsigned(m.size)),
     Word(Unsigned(m.mtimeSec)), Word(Unsigned(m.mtimeNsec)), Word(Unsigned(m.ctimeSec)), Word(Unsigned(m.ctimeNsec))]
  }

  /** The eight octets from `offset` on are the big-endian `w`. */
  predicate WordFrom(e: seq<byte>, offset: nat, w: u64) { offset + 8 <= |e| && e[offset..offset + 8] == U64(w) }

  /** The metadata is eleven big-endian words in the order in which the helper hashes its fields. */
  lemma StatLayout(m: Stat)
    ensures var e := Encode(StatItems(m));
      && |e| == 88
      && WordFrom(e, 0, m.dev) && WordFrom(e, 8, m.ino) && WordFrom(e, 16, m.mode) && WordFrom(e, 24, m.nlink)
      && WordFrom(e, 32, m.uid) && WordFrom(e, 40, m.gid) && WordFrom(e, 48, Unsigned(m.size))
      && WordFrom(e, 56, Unsigned(m.mtimeSec)) && WordFrom(e, 64, Unsigned(m.mtimeNsec))
      && WordFrom(e, 72, Unsigned(m.ctimeSec)) && WordFrom(e, 80, Unsigned(m.ctimeNsec))
  {
    hide WordFrom, Encode;
    var xs := StatItems(m);
    WordLayout(xs, 0); WordLayout(xs, 1); WordLayout(xs, 2); WordLayout(xs, 3); WordLayout(xs, 4); WordLayout(xs, 5);
    WordLayout(xs, 6); WordLayout(xs, 7); WordLayout(xs, 8); WordLayout(xs, 9); WordLayout(xs, 10);
  }

  /** Words only: the word at index `i` takes the octets from `8 * i`. */
  lemma {:induction false} WordLayout(xs: seq<Item>, i: nat)
    requires i < |xs| && forall k :: 0 <= k < |xs| ==> xs[k].Word?
    ensures |Encode(xs)| == 8 * |xs| && WordFrom(Encode(xs), 8 * i, xs[i].w)
  {
    hide U64;
    if |xs| > 1 {
      WordLayout(xs[1..], if i > 0 then i - 1 else 0);
      if i > 0 { assert Encode(xs)[8 * i..8 * i + 8] == Encode(xs[1..])[8 * (i - 1)..8 * (i - 1) + 8]; }
    } else {
      assert Encode(xs[1..]) == [];
    }
  }

  lemma StatItemsInjective(a: Stat, b: Stat)
    requires StatItems(a) == StatItems(b)
    ensures a == b
  {
    var x, y := StatItems(a), StatItems(b);
    assert x[0] == y[0] && x[1] == y[1] && x[2] == y[2] && x[3] == y[3] && x[4] == y[4] && x[5] == y[5];
    assert x[6] == y[6] && x[7] == y[7] && x[8] == y[8] && x[9] == y[9] && x[10] == y[10];
  }

  function FileTag(): text { Ascii("clodex.openat2-file-state.v1") }
  function AbsentTag(): text { Ascii("clodex.openat2-absent-state.v1") }
  function TreeTag(): text { Ascii("clodex.openat2-tree-state.v1") }

  lemma TagsDiffer()
    ensures FileTag() != AbsentTag() && FileTag() != TreeTag() && AbsentTag() != TreeTag()
  {
    assert FileTag()[15] == 'f' as int && TreeTag()[15] == 't' as int && AbsentTag()[15] == 'a' as int;
  }

  /** What `build_file_commitment` hashes. */
  function FileItems(root: Stat, path: text, m: Stat, digest: text): (r: seq<Item>) {
    [Text(FileTag()), Word(root.dev), Word(root.ino), Text(path), Text(Ascii("file"))] + StatItems(m) + [Text(digest)]
  }

  /** What `capture_absent_state` hashes. */
  function AbsentItems(root: Stat, path: text, parent: Stat): (r: seq<Item>) {
    [Text(AbsentTag()), Word(root.dev), Word(root.ino), Text(path), Text(Ascii("absent")), Word(parent.dev), Word(parent.ino)]
  }

  /** The octets of a string field: its length and the string. */
  function Field(t: text): seq<byte> { U64(|t|) + t }

  /** The order of the fields of a file state, octet for octet. */
  lemma FileLayout(root: Stat, path: text, m: Stat, digest: text)
    ensures Encode(FileItems(root, path, m, digest)) ==
      Field(FileTag()) + U64(root.dev) + U64(root.ino) + Field(path) + Field(Ascii("file")) + Encode(StatItems(m)) +
      Field(digest)
  {
    hide StatItems, U64, FileTag, Field;
    var head := [Text(FileTag()), Word(root.dev), Word(root.ino), Text(path), Text(Ascii("file"))];
    EncodeAppend(head + StatItems(m), [Text(digest)]);
    EncodeAppend(head, StatItems(m));
    HeadLayout(FileTag(), root, path, Ascii("file"));
    EncodeOne(Text(digest));
    TextLayout(digest);
  }

  lemma TextLayout(t: text)
    ensures EncodeItem(Text(t)) == Field(t)
  {
  }

  lemma EncodeOne(x: Item)
    ensures Encode([x]) == EncodeItem(x)
  {
    hide EncodeItem;
    assert [x][1..] == [];
    assert Encode([x][1..]) == [];
  }

  lemma EncodeFirst(x: Item, xs: seq<Item>)
    ensures Encode([x] + xs) == EncodeItem(x) + Encode(xs)
  {
    hide EncodeItem;
    assert ([x] + xs)[1..] == xs;
  }

  /** What a state opens with. */
  lemma HeadLayout(tag: text, root: Stat, path: text, kind: text)
    ensures Encode([Text(tag), Word(root.dev), Word(root.ino), Text(path), Text(kind)]) ==
      Field(tag) + U64(root.dev) + U64(root.ino) + Field(path) + Field(kind)
  {
    hide U64, Field, Encode;
    EncodeOne(Text(kind));
    EncodeFirst(Text(path), [Text(kind)]);
    EncodeFirst(Word(root.ino), [Text(path), Text(kind)]);
    EncodeFirst(Word(root.dev), [Word(root.ino), Text(path), Text(kind)]);
    EncodeFirst(Text(tag), [Word(root.dev), Word(root.ino), Text(path), Text(kind)]);
    TextLayout(tag); TextLayout(path); TextLayout(kind);
    assert [Text(path)] + [Text(kind)] == [Text(path), Text(kind)];
    assert [Word(root.ino)] + [Text(path), Text(kind)] == [Word(root.ino), Text(path), Text(kind)];
    assert [Word(root.dev)] + [Word(root.ino), Text(path), Text(kind)] ==
           [Word(root.dev), Word(root.ino), Text(path), Text(kind)];
    assert [Text(tag)] + [Word(root.dev), Word(root.ino), Text(path), Text(kind)] ==
           [Text(tag), Word(root.dev), Word(root.ino), Text(path), Text(kind)];
  }

  /** The order of the fields of an absent state, octet for octet. */
  lemma AbsentLayout(root: Stat, path: text, parent: Stat)
    ensures Encode(AbsentItems(root, path, parent)) ==
      Field(AbsentTag()) + U64(root.dev) + U64(root.ino) + Field(path) + Field(Ascii("absent")) + U64(parent.dev) +
      U64(parent.ino)
  {
    hide U64, AbsentTag, Field, Encode;
    var head := [Text(AbsentTag()), Word(root.dev), Word(root.ino), Text(path), Text(Ascii("absent"))];
    assert AbsentItems(root, path, parent) == head + [Word(parent.dev), Word(parent.ino)];
    EncodeAppend(head, [Word(parent.dev), Word(parent.ino)]);
    HeadLayout(AbsentTag(), root, path, Ascii("absent"));
    assert [Word(parent.dev)] + [Word(parent.ino)] == [Word(parent.dev), Word(parent.ino)];
    EncodeFirst(Word(parent.dev), [Word(parent.ino)]);
    EncodeOne(Word(parent.ino));
  }

  /** `finish_hex`: the printed digest of what was hashed. */
  function DigestText(content: seq<byte>): (r: text)
    ensures |r| == 64
  {
    Hex.Encode(Sha256Spec.Sha256(content))
  }

  function FileCommitment(root: Stat, path: text, m: Stat, digest: text): (r: text) {
    DigestText(Encode(FileItems(root, path, m, digest)))
  }

  function AbsentCommitment(root: Stat, path: text, parent: Stat): (r: text) {
    DigestText(Encode(AbsentItems(root, path, parent)))
  }

  lemma FileItemsInjective(r1: Stat, p1: text, m1: Stat, d1: text, r2: Stat, p2: text, m2: Stat, d2: text)
    requires FileItems(r1, p1, m1, d1) == FileItems(r2, p2, m2, d2)
    ensures r1.dev == r2.dev && r1.ino == r2.ino && p1 == p2 && m1 == m2 && d1 == d2
  {
    hide StatItems;
    var x, y := FileItems(r1, p1, m1, d1), FileItems(r2, p2, m2, d2);
    assert x[1] == y[1] && x[2] == y[2] && x[3] == y[3] && x[16] == y[16];
    assert StatItems(m1) == x[5..16] && StatItems(m2) == y[5..16];
    StatItemsInjective(m1, m2);
  }

  /** A file preimage determines the root identity, the path, all metadata and the content digest. */
  lemma FilePreimageDecodes(r1: Stat, p1: text, m1: Stat, d1: text, r2: Stat, p2: text, m2: Stat, d2: text)
    requires Encode(FileItems(r1, p1, m1, d1)) == Encode(FileItems(r2, p2, m2, d2))
    ensures r1.dev == r2.dev && r1.ino == r2.ino && p1 == p2 && m1 == m2 && d1 == d2
  {
    hide StatItems, Encode, FileTag;
    var x, y := FileItems(r1, p1, m1, d1), FileItems(r2, p2, m2, d2);
    assert Encode(x) + [] == Encode(y) + [];
    ItemsDecode(x, y, [], []);
    FileItemsInjective(r1, p1, m1, d1, r2, p2, m2, d2);
  }

  /** An absent preimage determines the root identity, the path and the parent identity. */
  lemma AbsentPreimageDecodes(r1: Stat, p1: text, q1: Stat, r2: Stat, p2: text, q2: Stat)
    requires Encode(AbsentItems(r1, p1, q1)) == Encode(AbsentItems(r2, p2, q2))
    ensures r1.dev == r2.dev && r1.ino == r2.ino && p1 == p2 && q1.dev == q2.dev && q1.ino == q2.ino
  {
    var x, y := AbsentItems(r1, p1, q1), AbsentItems(r2, p2, q2);
    assert Encode(x) + [] == Encode(y) + [];
    ItemsDecode(x, y, [], []);
    assert x[1] == y[1] && x[2] == y[2] && x[3] == y[3] && x[5] == y[5] && x[6] == y[6];
  }
}
