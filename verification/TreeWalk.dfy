/** The recursive directory walk of the native helper, over an unchanging tree. */
module TreeWalk {
  import opened Bytes
  import opened Commitment
  import opened HelperLimits
  import opened Sha256Stream
  import opened Tree
  import Hex
  import Sha256Spec

  /** `fail_with` ends the process: every caller passes the failure on. */
  datatype Outcome<+T> = Ok(value: T) | Fail(code: string, detail: string)

  /** `struct tree_limits` */
  class Limits {
    var entries: u64
    var bytes: u64
    const rootDevice: u64

    constructor (device: u64)
      ensures entries == 0 && bytes == 0 && rootDevice == device
    {
      entries, bytes, rootDevice := 0, 0, device;
    }
  }

  // ---- Feeding the hash.

  /** `hash_u64_field` */
  method HashU64(hash: Context, value: u64)
    requires hash.Valid()
    modifies hash, hash.state, hash.block
    ensures hash.Valid() && hash.fed == old(hash.fed) + EncodeItem(Word(value))
  {
    hide Context.Valid;
    var encoded := StoreBe64(value);
    hash.Update(encoded);
  }

  /** `hash_string_field` */
  method HashText(hash: Context, value: text)
    requires hash.Valid()
    modifies hash, hash.state, hash.block
    ensures hash.Valid() && hash.fed == old(hash.fed) + EncodeItem(Text(value))
  {
    hide Context.Valid;
    HashU64(hash, |value|);
    hash.Update(value);
    assert hash.fed == old(hash.fed) + (U64(|value|) + value);
  }

  lemma EncodeOneMore(xs: seq<Item>, i: nat)
    requires i < |xs|
    ensures Encode(xs[..i + 1]) == Encode(xs[..i]) + EncodeItem(xs[i])
  {
    hide EncodeItem;
    assert xs[..i + 1] == xs[..i] + [xs[i]];
    EncodeAppend(xs[..i], [xs[i]]);
    assert Encode([xs[i]]) == EncodeItem(xs[i]) + Encode([xs[i]][1..]);
    assert [xs[i]][1..] == [];
  }

  /** A run of `hash_u64_field` and `hash_string_field` calls. */
  method HashItems(hash: Context, xs: seq<Item>)
    requires hash.Valid()
    modifies hash, hash.state, hash.block
    ensures hash.Valid() && hash.fed == old(hash.fed) + Encode(xs)
  {
    hide Context.Valid, Encode, EncodeItem;
    assert Encode(xs[..0]) == [] by { EncodeNothing(xs[..0]); }
    for i := 0 to |xs|
      invariant hash.Valid() && hash.fed == old(hash.fed) + Encode(xs[..i])
    {
      EncodeOneMore(xs, i);
      match xs[i] {
        case Word(w) => HashU64(hash, w);
        case Text(t) => HashText(hash, t);
      }
    }
    assert xs[..|xs|] == xs;
  }

  lemma EncodeNothing(xs: seq<Item>)
    requires xs == []
    ensures Encode(xs) == []
  {
  }

  /** `hash_fd_contents`: reads of any size up to the buffer, until end of file. */
  method HashContents(content: seq<byte>, maximum: u64) returns (r: Outcome<text>)
    requires maximum >= BUFFER
    ensures r.Ok? <==> |content| <= maximum
    ensures r.Ok? ==> r.value == DigestText(content)
  {
    hide Context.Valid, Sha256Spec.Sha256;
    var hash := new Context();
    var total := 0;
    while total < |content|
      invariant 0 <= total <= |content| && total <= maximum
      invariant hash.Valid() && hash.fed == content[..total]
      invariant fresh(hash) && fresh(hash.state) && fresh(hash.block)
    {
      var left := |content| - total;
      var count :| 1 <= count <= (if left < BUFFER then left else BUFFER);
      if total > (maximum - count) % TWO_64 {
        return Fail("LIMIT", "bytes");
      }
      hash.Update(content[total..total + count]);
      assert content[..total + count] == content[..total] + content[total..total + count];
      total := total + count;
    }
    assert content[..total] == content;
    var digest := hash.Final();
    var output := Hex.PrintHex(digest);
    r := Ok(output[..64]);
  }

  // ---- Reading and sorting one directory.

  function DOT(): Name { Ascii(".") }
  function DOTDOT(): Name { Ascii("..") }

  /** The name check of the `readdir` loop. */
  predicate NameOk(name: Name) {
    0 < |name| <= NAME_MAX &&
    forall i :: 0 <= i < |name| ==> 0x20 <= name[i] && name[i] != 0x7f && name[i] != '\\' as int
  }

  ghost predicate Distinct(names: seq<Name>) {
    forall i, j :: 0 <= i < j < |names| ==> names[i] != names[j]
  }

  lemma {:induction false} DistinctCount(names: seq<Name>)
    requires Distinct(names)
    ensures |Members(names)| == |names|
  {
    if names != [] {
      var last := |names| - 1;
      DistinctCount(names[..last]);
      assert Members(names) == Members(names[..last]) + {names[last]};
      assert names[last] !in Members(names[..last]);
    }
  }

  lemma Appended(names: seq<Name>, name: Name)
    requires Distinct(names) && name !in Members(names)
    ensures Distinct(names + [name]) && Members(names + [name]) == Members(names) + {name}
  {
    var more := names + [name];
    assert forall i :: 0 <= i < |names| ==> names[i] in Members(names);
    forall n ensures n in Members(more) <==> n in Members(names) || n == name {
      assert more[|names|] == name;
      assert n in more <==> n in names || n == name;
    }
  }

  /** The directory stream: every name once, with "." and "..", in an order nothing is known about. */
  method OpenStream(keys: set<Name>) returns (stream: seq<Name>)
    ensures Members(stream) == keys + {DOT(), DOTDOT()}
    ensures Distinct(stream)
  {
    hide DOT, DOTDOT, Distinct, Members;
    stream := [];
    NoNames(stream);
    var left := keys + {DOT(), DOTDOT()};
    while left != {}
      invariant left !! Members(stream) && left + Members(stream) == keys + {DOT(), DOTDOT()}
      invariant Distinct(stream)
      decreases |left|
    {
      var name :| name in left;
      left := left - {name};
      Appended(stream, name);
      stream := stream + [name];
    }
  }

  /** The byte loop over one name. */
  method CheckName(name: Name) returns (ok: bool)
    ensures ok <==> NameOk(name)
  {
    if |name| == 0 || |name| > NAME_MAX {
      return false;
    }
    for index := 0 to |name|
      invariant forall i :: 0 <= i < index ==> 0x20 <= name[i] && name[i] != 0x7f && name[i] != '\\' as int
    {
      if name[index] < 0x20 || name[index] == 0x7f || name[index] == '\\' as int {
        return false;
      }
    }
    ok := true;
  }

  lemma MembersAppend(names: seq<Name>, more: seq<Name>)
    ensures Members(names + more) == Members(names) + Members(more)
  {
  }

  /** The `readdir` loop: it stops at the first bad name or when the entry limit would be passed. */
  method CollectNames(keys: set<Name>, entries: u64) returns (r: Outcome<seq<Name>>)
    requires entries <= MAX_TREE_ENTRIES && DOT() !in keys && DOTDOT() !in keys
    ensures r.Ok? <==> (forall n :: n in keys ==> NameOk(n)) && entries + |keys| <= MAX_TREE_ENTRIES
    ensures r.Ok? ==> Members(r.value) == keys && Distinct(r.value)
  {
    hide NameOk, DOT, DOTDOT, Members, Distinct;
    var stream := OpenStream(keys);
    var names: seq<Name> := [];
    NoNames(stream);
    for at := 0 to |stream|
      invariant Collected(stream[..at], names) && Distinct(names)
      invariant forall n :: n in Members(names) ==> NameOk(n)
      invariant entries + |names| <= MAX_TREE_ENTRIES
    {
      var name := stream[at];
      OneMoreName(stream, at, names, keys);
      if name != DOT() && name != DOTDOT() {
        if entries >= MAX_TREE_ENTRIES || |names| >= MAX_TREE_ENTRIES - entries {
          return Fail("LIMIT", "tree-entries");
        }
        var ok := CheckName(name);
        if !ok {
          return Fail("STATE", "tree-name");
        }
        names := names + [name];
      }
    }
    assert stream[..|stream|] == stream;
    assert Members(names) == keys;
    DistinctCount(names);
    r := Ok(names);
  }

  /** The names kept so far are those read so far, without the two special ones. */
  ghost predicate Collected(read: seq<Name>, names: seq<Name>) { Members(names) == Members(read) - {DOT(), DOTDOT()} }

  lemma NoNames(stream: seq<Name>)
    ensures Collected(stream[..0], []) && Distinct([]) && Members([]) == {}
  {
    hide DOT, DOTDOT;
    assert stream[..0] == [];
  }

  /** What reading one more name of the stream does to the names kept. */
  lemma OneMoreName(stream: seq<Name>, at: nat, names: seq<Name>, keys: set<Name>)
    requires Distinct(stream) && Members(stream) == keys + {DOT(), DOTDOT()} && at < |stream|
    requires Collected(stream[..at], names) && Distinct(names)
    ensures var name := stream[at];
      if name == DOT() || name == DOTDOT() then Collected(stream[..at + 1], names)
      else
        && name in keys && |names| < |keys| && Distinct(names + [name])
        && Collected(stream[..at + 1], names + [name]) && Members(names + [name]) == Members(names) + {name}
  {
    hide DOT, DOTDOT;
    var name := stream[at];
    assert stream[..at + 1] == stream[..at] + [name];
    MembersAppend(stream[..at], [name]);
    MembersAppend(names, [name]);
    assert Members([name]) == {name};
    if name != DOT() && name != DOTDOT() {
      assert name in Members(stream) && name !in Members(stream[..at]);
      assert Members(names) <= keys by { assert Members(stream[..at]) <= Members(stream); }
      OneMoreMember(names, name, keys);
    }
  }

  lemma OneMoreMember(names: seq<Name>, name: Name, keys: set<Name>)
    requires Distinct(names) && Members(names) <= keys && name in keys && name !in Members(names)
    ensures |names| < |keys| && Distinct(names + [name])
  {
    DistinctCount(names);
    SubsetCount(Members(names) + {name}, keys);
    assert forall i :: 0 <= i < |names| ==> names[i] in Members(names);
  }

  lemma {:induction false} SubsetCount<T>(a: set<T>, b: set<T>)
    requires a <= b
    ensures |a| <= |b|
    decreases |a|
  {
    if a != {} {
      var x :| x in a;
      SubsetCount(a - {x}, b - {x});
    }
  }

  /** `qsort` with `compare_names`, as insertion: the same names in `strcmp` order. */
  method SortByName(names: seq<Name>) returns (r: seq<Name>)
    requires Distinct(names)
    ensures Sorted(r) && Members(r) == Members(names)
  {
    r := [];
    for i := 0 to |names|
      invariant Sorted(r) && Members(r) == Members(names[..i])
    {
      assert names[..i + 1] == names[..i] + [names[i]];
      MembersAppend(names[..i], [names[i]]);
      assert Members([names[i]]) == {names[i]};
      assert names[i] !in Members(names[..i]);
      r := InsertByName(r, names[i]);
    }
    assert names[..|names|] == names;
  }

  lemma InsertSorted(names: seq<Name>, k: nat, name: Name, r: seq<Name>)
    requires Sorted(names) && k <= |names| && r == names[..k] + [name] + names[k..]
    requires forall i :: 0 <= i < k ==> Below(names[i], name)
    requires forall i :: k <= i < |names| ==> Below(name, names[i])
    ensures Sorted(r)
  {
    hide Below;
    forall i, j | 0 <= i < j < |r| ensures Below(r[i], r[j]) {
      var x := if i <= k then i else i - 1;
      var y := if j <= k then j else j - 1;
      assert i != k ==> r[i] == names[x];
      assert j != k ==> r[j] == names[y];
    }
  }

  lemma InsertMembers(names: seq<Name>, k: nat, name: Name)
    requires k <= |names|
    ensures Members(names[..k] + [name] + names[k..]) == Members(names) + {name}
  {
    var r := names[..k] + [name] + names[k..];
    forall n ensures n in Members(r) <==> n in Members(names) || n == name {
      assert r[k] == name;
      assert names == names[..k] + names[k..];
      assert n in r <==> n in names[..k] || n == name || n in names[k..];
    }
  }

  method InsertByName(names: seq<Name>, name: Name) returns (r: seq<Name>)
    requires Sorted(names) && name !in Members(names)
    ensures Sorted(r) && Members(r) == Members(names) + {name}
  {
    hide Below;
    var k := 0;
    while k < |names| && Below(names[k], name)
      invariant 0 <= k <= |names|
      invariant forall i :: 0 <= i < k ==> Below(names[i], name)
    {
      k := k + 1;
    }
    r := names[..k] + [name] + names[k..];
    forall i | k <= i < |names| ensures Below(name, names[i]) {
      assert names[k] in Members(names);
      BelowTotal(name, names[k]);
      if k < i { BelowTransitive(name, names[k], names[i]); }
    }
    InsertSorted(names, k, name, r);
    InsertMembers(names, k, name);
  }

  // ---- The walk.

  /** What holds of any directory tree the kernel shows: sizes are true and names are proper. */
  ghost predicate Settled(dir: Node)
    requires dir.Dir?
    decreases dir
  {
    forall n :: n in dir.entries ==>
      && n != DOT() && n != DOTDOT()
      && (dir.entries[n].File? ==> dir.entries[n].stat.size == |dir.entries[n].content|)
      && (dir.entries[n].Dir? ==> Settled(dir.entries[n]))
  }

  /** Nodes below `dir` that the first `names` account for. */
  ghost function CountNames(dir: Node, names: seq<Name>): (c: nat)
    requires dir.Dir? && Members(names) <= dir.entries.Keys
    decreases dir, |names|
  {
    if names == [] then 0
    else
      var last := |names| - 1;
      assert Members(names[..last]) <= Members(names) && names[last] in Members(names);
      CountNames(dir, names[..last]) + CountNode(dir.entries[names[last]])
  }

  ghost function CountNode(node: Node): (c: nat)
    ensures c >= 1
    decreases node
  {
    1 + if node.Dir? then CountNames(node, SortedNames(node.entries.Keys)) else 0
  }

  ghost function SizeNames(dir: Node, names: seq<Name>): (c: nat)
    requires dir.Dir? && Members(names) <= dir.entries.Keys
    decreases dir, |names|
  {
    if names == [] then 0
    else
      var last := |names| - 1;
      assert Members(names[..last]) <= Members(names) && names[last] in Members(names);
      SizeNames(dir, names[..last]) + SizeNode(dir.entries[names[last]])
  }

  ghost function SizeNode(node: Node): (c: nat)
    decreases node
  {
    match node
    case File(_, content) => |content|
    case Dir(_, entries) => SizeNames(node, SortedNames(entries.Keys))
    case Special(_) => 0
  }

  /** Everything the walk demands of a child besides the two running totals. */
  ghost predicate ChildOk(dir: Node, n: Name, prefix: seq<byte>, depth: nat, device: u64)
    requires dir.Dir? && n in dir.entries
    decreases dir, 0
  {
    var node := dir.entries[n];
    && |Join(prefix, n)| <= MAX_SELECTOR_BYTES
    && node.stat.dev == device
    && match node
       case File(stat, _) => stat.nlink == 1
       case Dir(_, _) => TreeOk(node, Join(prefix, n), depth + 1, device)
       case Special(_) => false
  }

  ghost predicate TreeOk(dir: Node, prefix: seq<byte>, depth: nat, device: u64)
    requires dir.Dir?
    decreases dir
  {
    && depth <= MAX_TREE_DEPTH
    && dir.stat.dev == device
    && (forall n :: n in dir.entries ==> NameOk(n))
    && (forall n :: n in dir.entries ==> ChildOk(dir, n, prefix, depth, device))
  }

  lemma {:induction false} EntryBytesAppend(xs: seq<Entry>, ys: seq<Entry>)
    ensures EntryBytes(xs + ys) == EntryBytes(xs) + EntryBytes(ys)
  {
    hide EntryItems, Encode;
    if xs == [] {
      assert xs + ys == ys;
    } else {
      assert (xs + ys)[1..] == xs[1..] + ys;
      EntryBytesAppend(xs[1..], ys);
    }
  }

  /** The listing of one name more is the listing so far followed by that child. */
  lemma {:induction false} ListOneMore(dir: Node, names: seq<Name>, i: nat, prefix: seq<byte>)
    requires dir.Dir? && Proper(dir, prefix) && Members(names) <= dir.entries.Keys && i < |names|
    ensures Members(names[..i]) <= dir.entries.Keys && Members(names[..i + 1]) <= dir.entries.Keys && names[i] in dir.entries
    ensures ListNames(dir, names[..i + 1], prefix) == ListNames(dir, names[..i], prefix) + ListChild(dir, names[i], prefix)
  {
    hide Proper, ListChild;
    assert Members(names[..i]) <= Members(names) && Members(names[..i + 1]) <= Members(names) && names[i] in Members(names);
    assert Members(names[1..]) <= Members(names);
    if i == 0 {
      assert names[..1][1..] == [] && names[..0] == [];
    } else {
      ListOneMore(dir, names[1..], i - 1, prefix);
      assert names[..i + 1][1..] == names[1..][..i] && names[..i][1..] == names[1..][..i - 1];
    }
  }

  /** Prefixes of the name list account for no more than the whole, and each name counts at least once. */
  lemma {:induction false} TotalsGrow(dir: Node, names: seq<Name>, i: nat)
    requires dir.Dir? && Members(names) <= dir.entries.Keys && i <= |names|
    ensures Members(names[..i]) <= dir.entries.Keys
    ensures CountNames(dir, names[..i]) + (|names| - i) <= CountNames(dir, names) && |names| - i <= CountNames(dir, names)
    ensures SizeNames(dir, names[..i]) <= SizeNames(dir, names)
    decreases |names|
  {
    assert Members(names[..i]) <= Members(names);
    if i == |names| {
      assert names[..i] == names;
    } else {
      var last := |names| - 1;
      assert Members(names[..last]) <= Members(names) && names[last] in Members(names);
      TotalsGrow(dir, names[..last], i);
      assert names[..last][..i] == names[..i];
    }
  }

  lemma OneMoreTotal(dir: Node, names: seq<Name>, i: nat)
    requires dir.Dir? && Members(names) <= dir.entries.Keys && i < |names|
    ensures names[i] in dir.entries && Members(names[..i]) <= dir.entries.Keys && Members(names[..i + 1]) <= dir.entries.Keys
    ensures CountNames(dir, names[..i + 1]) == CountNames(dir, names[..i]) + CountNode(dir.entries[names[i]])
    ensures SizeNames(dir, names[..i + 1]) == SizeNames(dir, names[..i]) + SizeNode(dir.entries[names[i]])
  {
    hide CountNode, SizeNode;
    assert Members(names[..i]) <= Members(names) && Members(names[..i + 1]) <= Members(names) && names[i] in Members(names);
    assert names[..i + 1][..i] == names[..i];
  }

  /** `update_tree_entry` */
  method UpdateTreeEntry(hash: Context, e: Entry)
    requires hash.Valid()
    modifies hash, hash.state, hash.block
    ensures hash.Valid() && hash.fed == old(hash.fed) + EntryBytes([e])
  {
    hide Context.Valid, Encode, EntryItems;
    HashItems(hash, EntryItems(e));
    assert [e][1..] == [];
    assert EntryBytes([e]) == Encode(EntryItems(e));
  }

  lemma ChildSettled(dir: Node, n: Name, prefix: seq<byte>)
    requires dir.Dir? && Proper(dir, prefix) && Settled(dir) && n in dir.entries
    ensures |Join(prefix, n)| < TWO_64
    ensures dir.entries[n].File? ==> dir.entries[n].stat.size == |dir.entries[n].content|
    ensures dir.entries[n].Dir? ==> Settled(dir.entries[n]) && Proper(dir.entries[n], Join(prefix, n))
  {
  }

  lemma FileChild(dir: Node, n: Name, prefix: seq<byte>)
    requires dir.Dir? && Proper(dir, prefix) && n in dir.entries && dir.entries[n].File? && |Join(prefix, n)| < TWO_64
    ensures ListChild(dir, n, prefix) == [FileEntry(Join(prefix, n), dir.entries[n].stat, DigestText(dir.entries[n].content))]
  {
    hide Proper, DigestText, Join;
  }

  lemma DirChild(dir: Node, n: Name, prefix: seq<byte>)
    requires dir.Dir? && Proper(dir, prefix) && n in dir.entries && dir.entries[n].Dir? && |Join(prefix, n)| < TWO_64
    requires Proper(dir.entries[n], Join(prefix, n))
    ensures ListChild(dir, n, prefix) == [DirEntry(Join(prefix, n), dir.entries[n].stat)] + Listing(dir.entries[n], Join(prefix, n))
  {
    hide Proper, Listing, Join;
  }

  /** The check at line 985 in 64-bit arithmetic: for an oversized file it wraps and lets the file through. */
  lemma WrappedCheck(bytes: u64, size: i64)
    requires bytes <= MAX_TREE_BYTES && size >= 0
    ensures bytes > (MAX_TREE_BYTES - size) % TWO_64 <==> size <= MAX_TREE_BYTES && bytes + size > MAX_TREE_BYTES
    ensures (bytes + size) % TWO_64 == bytes + size
  {
  }

  /** The regular-file branch of the child loop; the subtraction of unsigned sizes may wrap. */
  method WalkFile(hash: Context, dir: Node, name: Name, prefix: seq<byte>, limits: Limits) returns (r: Outcome<()>)
    requires hash.Valid() && dir.Dir? && Proper(dir, prefix) && Settled(dir)
    requires name in dir.entries && dir.entries[name].File?
    requires limits.bytes <= MAX_TREE_BYTES
    modifies hash, hash.state, hash.block, limits`bytes
    ensures hash.Valid()
    ensures r.Ok? <==> dir.entries[name].stat.nlink == 1 && old(limits.bytes) + |dir.entries[name].content| <= MAX_TREE_BYTES
    ensures r.Ok? ==> limits.bytes == old(limits.bytes) + |dir.entries[name].content|
    ensures r.Ok? ==> hash.fed == old(hash.fed) + EntryBytes(ListChild(dir, name, prefix))
  {
    hide Context.Valid, EntryBytes, Proper, Settled, ListChild, DigestText, Join;
    ChildSettled(dir, name, prefix);
    FileChild(dir, name, prefix);
    var node := dir.entries[name];
    WrappedCheck(limits.bytes, node.stat.size);
    if node.stat.nlink != 1 || node.stat.size < 0 {
      return Fail("STATE", "tree-file-alias");
    }
    var fileSize := Unsigned(node.stat.size);
    if limits.bytes > (MAX_TREE_BYTES - fileSize) % TWO_64 {
      return Fail("LIMIT", "tree-bytes");
    }
    limits.bytes := (limits.bytes + fileSize) % TWO_64;
    var digest := HashContents(node.content, MAX_TREE_BYTES);
    if digest.Fail? {
      return Fail(digest.code, digest.detail);
    }
    UpdateTreeEntry(hash, FileEntry(Join(prefix, name), node.stat, digest.value));
    r := Ok(());
  }

  /** One turn of the child loop of `walk_tree`. */
  method WalkChild(hash: Context, dir: Node, name: Name, prefix: seq<byte>, depth: nat, limits: Limits)
    returns (r: Outcome<()>)
    requires hash.Valid() && dir.Dir? && Proper(dir, prefix) && Settled(dir) && name in dir.entries
    requires limits.entries <= MAX_TREE_ENTRIES && limits.bytes <= MAX_TREE_BYTES
    modifies hash, hash.state, hash.block, limits
    ensures hash.Valid()
    ensures r.Ok? <==>
      && ChildOk(dir, name, prefix, depth, limits.rootDevice)
      && old(limits.entries) + CountNode(dir.entries[name]) <= MAX_TREE_ENTRIES
      && old(limits.bytes) + SizeNode(dir.entries[name]) <= MAX_TREE_BYTES
    ensures r.Ok? ==> limits.entries == old(limits.entries) + CountNode(dir.entries[name])
    ensures r.Ok? ==> limits.bytes == old(limits.bytes) + SizeNode(dir.entries[name])
    ensures r.Ok? ==> hash.fed == old(hash.fed) + EntryBytes(ListChild(dir, name, prefix))
    decreases dir, 0
  {
    hide Context.Valid, EntryBytes, Proper, Settled, TreeOk, Listing, ListChild, CountNames, SizeNames, Join;
    ChildSettled(dir, name, prefix);
    limits.entries := limits.entries + 1;
    if limits.entries > MAX_TREE_ENTRIES {
      return Fail("LIMIT", "tree-entries");
    }
    var path := Join(prefix, name);
    if |path| > MAX_SELECTOR_BYTES {
      return Fail("LIMIT", "tree-path");
    }
    var node := dir.entries[name];
    if node.stat.dev != limits.rootDevice {
      return Fail("STATE", "mount-crossing");
    }
    match node {
      case File(_, _) =>
        r := WalkFile(hash, dir, name, prefix, limits);
      case Dir(_, _) =>
        DirChild(dir, name, prefix);
        UpdateTreeEntry(hash, DirEntry(path, node.stat));
        r := WalkTree(hash, node, path, depth + 1, limits);
        EntryBytesAppend([DirEntry(path, node.stat)], Listing(node, path));
      case Special(_) =>
        r := Fail("STATE", "tree-special-file");
    }
  }

  /**
   * `walk_tree`: it succeeds exactly when the tree is admissible and both totals stay within limits,
   * whatever order the names were read in; and then it has fed the preorder listing, counted every
   * node and added up every file size.
   */
  method WalkTree(hash: Context, dir: Node, prefix: seq<byte>, depth: nat, limits: Limits) returns (r: Outcome<()>)
    requires hash.Valid() && dir.Dir? && Proper(dir, prefix) && Settled(dir)
    requires limits.entries <= MAX_TREE_ENTRIES && limits.bytes <= MAX_TREE_BYTES
    modifies hash, hash.state, hash.block, limits
    ensures hash.Valid()
    ensures r.Ok? <==>
      && TreeOk(dir, prefix, depth, limits.rootDevice)
      && old(limits.entries) + CountNames(dir, SortedNames(dir.entries.Keys)) <= MAX_TREE_ENTRIES
      && old(limits.bytes) + SizeNames(dir, SortedNames(dir.entries.Keys)) <= MAX_TREE_BYTES
    ensures r.Ok? ==> limits.entries == old(limits.entries) + CountNames(dir, SortedNames(dir.entries.Keys))
    ensures r.Ok? ==> limits.bytes == old(limits.bytes) + SizeNames(dir, SortedNames(dir.entries.Keys))
    ensures r.Ok? ==> hash.fed == old(hash.fed) + EntryBytes(Listing(dir, prefix))
    decreases dir
  {
    hide Context.Valid, EntryBytes, Proper, Settled, ChildOk, NameOk, ListNames, CountNames, SizeNames, Sorted,
         Members, DOT, DOTDOT;
    if depth > MAX_TREE_DEPTH {
      return Fail("LIMIT", "tree-depth");
    }
    if dir.stat.dev != limits.rootDevice {
      return Fail("STATE", "tree-directory");
    }
    NoDots(dir);
    ghost var sorted := SortedNames(dir.entries.Keys);
    SortedCount(dir.entries.Keys);
    TotalsGrow(dir, sorted, 0);
    var read := CollectNames(dir.entries.Keys, limits.entries);
    if read.Fail? {
      return Fail(read.code, read.detail);
    }
    var names := SortByName(read.value);
    SortedUnique(names, sorted);
    r := WalkNames(hash, dir, names, prefix, depth, limits);
  }

  lemma NoDots(dir: Node)
    requires dir.Dir? && Settled(dir)
    ensures DOT() !in dir.entries.Keys && DOTDOT() !in dir.entries.Keys
  {
  }

  lemma SortedCount(keys: set<Name>)
    ensures |SortedNames(keys)| == |keys|
  {
    var s := SortedNames(keys);
    forall i, j | 0 <= i < j < |s| ensures s[i] != s[j] { BelowTotal(s[i], s[i]); }
    DistinctCount(s);
  }

  /** The child loop of `walk_tree`. */
  method WalkNames(hash: Context, dir: Node, names: seq<Name>, prefix: seq<byte>, depth: nat, limits: Limits)
    returns (r: Outcome<()>)
    requires hash.Valid() && dir.Dir? && Proper(dir, prefix) && Settled(dir) && Members(names) == dir.entries.Keys
    requires limits.entries <= MAX_TREE_ENTRIES && limits.bytes <= MAX_TREE_BYTES
    modifies hash, hash.state, hash.block, limits
    ensures hash.Valid()
    ensures r.Ok? <==>
      && (forall n :: n in dir.entries ==> ChildOk(dir, n, prefix, depth, limits.rootDevice))
      && old(limits.entries) + CountNames(dir, names) <= MAX_TREE_ENTRIES
      && old(limits.bytes) + SizeNames(dir, names) <= MAX_TREE_BYTES
    ensures r.Ok? ==> limits.entries == old(limits.entries) + CountNames(dir, names)
    ensures r.Ok? ==> limits.bytes == old(limits.bytes) + SizeNames(dir, names)
    ensures r.Ok? ==> hash.fed == old(hash.fed) + EntryBytes(ListNames(dir, names, prefix))
    decreases dir, 1
  {
    hide Context.Valid, EntryBytes, Proper, Settled, ChildOk, ListChild, CountNode, SizeNode;
    assert names[..0] == [];
    assert EntryBytes(ListNames(dir, names[..0], prefix)) == [] by { NoEntries(); }
    for i := 0 to |names|
      invariant hash.Valid()
      invariant Members(names[..i]) <= dir.entries.Keys
      invariant limits.entries == old(limits.entries) + CountNames(dir, names[..i]) && limits.entries <= MAX_TREE_ENTRIES
      invariant limits.bytes == old(limits.bytes) + SizeNames(dir, names[..i]) && limits.bytes <= MAX_TREE_BYTES
      invariant hash.fed == old(hash.fed) + EntryBytes(ListNames(dir, names[..i], prefix))
      invariant forall k :: 0 <= k < i ==> names[k] in dir.entries && ChildOk(dir, names[k], prefix, depth, limits.rootDevice)
    {
      OneMoreTotal(dir, names, i);
      TotalsGrow(dir, names, i + 1);
      ListOneMore(dir, names, i, prefix);
      EntryBytesAppend(ListNames(dir, names[..i], prefix), ListChild(dir, names[i], prefix));
      r := WalkChild(hash, dir, names[i], prefix, depth, limits);
      if r.Fail? {
        return;
      }
    }
    assert names[..|names|] == names;
    forall n | n in dir.entries ensures ChildOk(dir, n, prefix, depth, limits.rootDevice) {
      assert n in Members(names);
    }
    r := Ok(());
  }

  lemma NoEntries()
    ensures EntryBytes([]) == []
  {
  }

  // ---- The tree commitment.

  ghost function NodeCount(dir: Node): nat
    requires dir.Dir?
  {
    CountNames(dir, SortedNames(dir.entries.Keys))
  }

  ghost function TotalSize(dir: Node): nat
    requires dir.Dir?
  {
    SizeNames(dir, SortedNames(dir.entries.Keys))
  }

  ghost predicate Fits(dir: Node)
    requires dir.Dir?
  {
    TreeOk(dir, [], 0, dir.stat.dev) && NodeCount(dir) <= MAX_TREE_ENTRIES && TotalSize(dir) <= MAX_TREE_BYTES
  }

  ghost function Preimage(dir: Node): (r: seq<byte>)
    requires dir.Dir? && Proper(dir, []) && Fits(dir)
  {
    TreePreimage(dir.stat, Listing(dir, []), NodeCount(dir), TotalSize(dir))
  }

  /** `tree_commitment` */
  method TreeCommitment(root: Node) returns (r: Outcome<text>)
    requires root.Dir? && Proper(root, []) && Settled(root)
    ensures r.Ok? <==> Fits(root)
    ensures r.Ok? ==> r.value == DigestText(Preimage(root))
  {
    hide Context.Valid, Encode, EntryBytes, Proper, Settled, TreeOk, Listing, CountNames, SizeNames, StatItems,
         TreeTag, Sha256Spec.Sha256;
    var hash := new Context();
    HashItems(hash, [Text(TreeTag())] + StatItems(root.stat));
    var limits := new Limits(root.stat.dev);
    var walked := WalkTree(hash, root, [], 0, limits);
    if walked.Fail? {
      return Fail(walked.code, walked.detail);
    }
    HashItems(hash, [Word(limits.entries), Word(limits.bytes)]);
    assert hash.fed == Preimage(root);
    var digest := hash.Final();
    var output := Hex.PrintHex(digest);
    r := Ok(output[..64]);
  }

  /** The entry counter is the length of the listing. */
  lemma {:induction false} CountIsLength(dir: Node, names: seq<Name>, prefix: seq<byte>)
    requires dir.Dir? && Proper(dir, prefix) && NoSpecial(dir) && Members(names) <= dir.entries.Keys
    ensures CountNames(dir, names) == |ListNames(dir, names, prefix)|
    decreases dir, |names|
  {
    hide Proper, NoSpecial, ListChild, CountNode;
    if names != [] {
      var last := |names| - 1;
      assert names[..last + 1] == names;
      ListOneMore(dir, names, last, prefix);
      OneMoreTotal(dir, names, last);
      CountIsLength(dir, names[..last], prefix);
      ChildCount(dir, names[last], prefix);
    }
  }

  lemma ChildCount(dir: Node, n: Name, prefix: seq<byte>)
    requires dir.Dir? && Proper(dir, prefix) && NoSpecial(dir) && n in dir.entries
    ensures CountNode(dir.entries[n]) == |ListChild(dir, n, prefix)|
    decreases dir, 0
  {
    hide Proper, NoSpecial, ListNames, CountNames, Join;
    ChildFacts(dir, n, prefix);
    if dir.entries[n].Dir? {
      CountIsLength(dir.entries[n], SortedNames(dir.entries[n].entries.Keys), Join(prefix, n));
    }
  }

  lemma {:induction false} OkMeansPlain(dir: Node, prefix: seq<byte>, depth: nat, device: u64)
    requires dir.Dir? && TreeOk(dir, prefix, depth, device)
    ensures NoSpecial(dir)
    decreases dir
  {
    hide NameOk, Join;
    forall n | n in dir.entries
      ensures !dir.entries[n].Special? && (dir.entries[n].Dir? ==> NoSpecial(dir.entries[n]))
    {
      assert ChildOk(dir, n, prefix, depth, device);
      if dir.entries[n].Dir? {
        OkMeansPlain(dir.entries[n], Join(prefix, n), depth + 1, device);
      }
    }
  }

  /** Trees that agree hold the same number of octets: a settled size is part of the metadata compared. */
  lemma {:induction false} AgreeSizes(d: Node, e: Node, names: seq<Name>)
    requires d.Dir? && e.Dir? && Settled(d) && Settled(e) && Agree(d, e) && Members(names) <= d.entries.Keys
    ensures SizeNames(d, names) == SizeNames(e, names)
    decreases d, |names|
  {
    hide DigestText, DOT, DOTDOT;
    if names != [] {
      var last := |names| - 1;
      var n := names[last];
      assert Members(names[..last]) <= Members(names) && n in Members(names);
      AgreeSizes(d, e, names[..last]);
      assert AgreeAt(d, e, n);
      if d.entries[n].Dir? {
        AgreeSizes(d.entries[n], e.entries[n], SortedNames(d.entries[n].entries.Keys));
      }
    }
  }

  /**
   * For any two trees the helper commits to, the printed commitments are equal exactly when root
   * metadata, shape, names, metadata and content digests are equal, if the hash does not collide on
   * the two preimages.
   */
  lemma CommitmentIdentifiesTree(d: Node, e: Node)
    requires d.Dir? && Proper(d, []) && Settled(d) && Fits(d) && e.Dir? && Proper(e, []) && Settled(e) && Fits(e)
    requires Sha256Spec.Sha256(Preimage(d)) == Sha256Spec.Sha256(Preimage(e)) ==> Preimage(d) == Preimage(e)
    ensures DigestText(Preimage(d)) == DigestText(Preimage(e)) <==> d.stat == e.stat && Agree(d, e)
  {
    hide Sha256Spec.Sha256, TreePreimage, Proper, NoSpecial, Listing, TreeOk, Agree, CountNames, SizeNames,
         Hex.Encode, Settled;
    PreimageByListing(d);
    PreimageByListing(e);
    if DigestText(Preimage(d)) == DigestText(Preimage(e)) {
      Hex.EncodeInjective(Sha256Spec.Sha256(Preimage(d)), Sha256Spec.Sha256(Preimage(e)));
    }
    if Agree(d, e) {
      AgreeKeys(d, e);
      AgreeSizes(d, e, SortedNames(d.entries.Keys));
    }
    TreeDetermined(d.stat, d, TotalSize(d), e.stat, e, TotalSize(e));
  }

  lemma PreimageByListing(d: Node)
    requires d.Dir? && Proper(d, []) && Fits(d)
    ensures NoSpecial(d) && |Listing(d, [])| < TWO_64 && TotalSize(d) < TWO_64
    ensures Preimage(d) == TreePreimage(d.stat, Listing(d, []), |Listing(d, [])|, TotalSize(d))
  {
    hide TreePreimage, Proper, NoSpecial, TreeOk, CountNames, SizeNames, ListNames;
    OkMeansPlain(d, [], 0, d.stat.dev);
    CountIsLength(d, SortedNames(d.entries.Keys), []);
  }
}
