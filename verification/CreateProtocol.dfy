/**
 * The exclusive-create protocol of the native helper, one system call per step, interleaved with any
 * number of steps of other writers.  The only thing asked of other writers is what the kernel does for
 * every change: it moves the change time of the changed inode forward.
 */
module CreateProtocol {
  import opened Bytes
  import opened Commitment
  import opened HelperLimits
  import opened Tree
  import opened HelperFailure
  import Hex
  import Selector
  import Splitting
  import Unicode

  const CREATE_PERMISSIONS: nat := 0x180 // 0600
  const PERMISSION_BITS: nat := 0x1000   // 07777 + 1

  // ---- The file system.

  /** An inode is named by its device and inode numbers. */
  datatype Id = Id(dev: u64, ino: u64)
  datatype Body = Regular(content: seq<byte>) | Directory(links: map<Name, Id>) | Other
  datatype Inode = Inode(stat: Stat, body: Body)
  type FS = map<Id, Inode>

  predicate IsRegular(m: Stat) { m.mode / 0x1000 % 16 == 8 }
  predicate IsDirectory(m: Stat) { m.mode / 0x1000 % 16 == 4 }

  /** `has_exact_permissions(m, CREATE_PERMISSIONS)` */
  predicate ExactPermissions(m: Stat) { m.mode % PERMISSION_BITS == CREATE_PERMISSIONS }

  /** The three checks made of every stat of the created file. */
  predicate CreatedKind(m: Stat) { IsRegular(m) && m.nlink == 1 && ExactPermissions(m) }

  predicate SoundInode(id: Id, x: Inode) {
    && x.stat.dev == id.dev && x.stat.ino == id.ino
    && (IsRegular(x.stat) <==> x.body.Regular?)
    && (IsDirectory(x.stat) <==> x.body.Directory?)
  }

  predicate Sound(fs: FS) { forall id :: id in fs ==> SoundInode(id, fs[id]) }

  predicate ClockBefore(a: Stat, b: Stat) {
    a.ctimeSec < b.ctimeSec || (a.ctimeSec == b.ctimeSec && a.ctimeNsec < b.ctimeNsec)
  }

  /** An inode is as it was, or its change time has moved forward. */
  predicate Aged(x: Inode, y: Inode) { x == y || ClockBefore(x.stat, y.stat) }

  /** Any number of changes by other writers, to any inodes, and any number of new inodes. */
  predicate Later(a: FS, b: FS) {
    forall id :: id in a ==> id in b && Aged(a[id], b[id])
  }

  // ---- The run of the helper.

  /** The arguments of `execute_create` and what is waiting on standard input. */
  datatype Call = Call(root: Id, rootStat: Stat, selector: seq<Name>, base: Name, path: text,
                       expected: text, contentSha: text, contentBytes: nat, stdin: seq<byte>)

  /**
   * What `main` has checked, and how `open_parent_reference` and the kernel take the path apart: every component but
   * the last leads to the parent directory, the last is the name of the file.
   */
  predicate Requested(c: Call) {
    && c.rootStat.dev == c.root.dev && c.rootStat.ino == c.root.ino
    && Selector.HelperAccepts(c.path) && Splitting.Split<byte>(c.path, SLASH) == c.selector + [c.base]
    && Hex.IsLowercaseDigest(c.expected) && Hex.IsLowercaseDigest(c.contentSha) && c.contentBytes <= MAX_CONTENT_BYTES
  }

  /** One component of a path walk: the directory reached, and when it was looked up. */
  datatype Hop = Hop(dir: Id, time: nat)

  /** `effect_started` and the local variables of `execute_create`, and the instants at which some were read. */
  datatype Locals = Locals(
    hops: seq<Hop>, parent: Id, parentStat: Stat, pre: text, started: bool, dest: Id, consumed: nat, written: nat,
    created: Stat, postParent: Stat, visible: Id, child: Id, before: Stat, read: seq<byte>, post: text,
    final: Id, last: Id,
    tParent: nat, tAbsent: nat, tMade: nat, tCreated: nat, tPost: nat, tBefore: nat, tOpen: nat, tLast: nat, tEnd: nat)

  /** `trace` is the file system at every instant so far; the last one is now. `err` is what was printed on stderr. */
  datatype World = World(trace: seq<FS>, phase: nat, l: Locals, exit: int, err: seq<byte>)

  // Program points, in the order of the source.
  const CHECK := 0
  const WALK_PARENT := 1
  const STAT_PARENT := 2
  const LOOK_ABSENT := 3
  const STAT_PARENT_AGAIN := 4
  const CREATE := 5
  const COPY := 6
  const CHMOD := 7
  const STAT_CREATED := 8
  const STAT_ENTRY := 9
  const STAT_POST := 10
  const WALK_VISIBLE := 11
  const STAT_VISIBLE := 12
  const OPEN_CHILD := 13
  const STAT_BEFORE := 14
  const HASH := 15
  const STAT_AFTER := 16
  const STAT_HELD := 17
  const PARENT_STABLE := 18
  const VISIBLE_STABLE := 19
  const WALK_FINAL := 20
  const STAT_FINAL := 21
  const OPEN_LAST := 22
  const STAT_LAST := 23
  const PARENT_STABLE_2 := 24
  const VISIBLE_STABLE_2 := 25
  const FINAL_STABLE := 26
  const DONE := 27

  const RUNNING := -1

  function Now(w: World): FS
    requires w.trace != []
  {
    w.trace[|w.trace| - 1]
  }

  /** The step leaves the file system alone and moves to `phase` with locals `l`. */
  predicate Goes(w: World, w': World, phase: nat, l: Locals)
    requires w.trace != []
  {
    w' == World(w.trace + [Now(w)], phase, l, w.exit, w.err)
  }

  /** The index the instant of this step gets in the trace. */
  function Instant(w: World): nat { |w.trace| }

  ghost predicate EnvironmentStep(w: World, w': World)
    requires w.trace != []
  {
    exists fs :: Sound(fs) && Later(Now(w), fs) && w' == w.(trace := w.trace + [fs])
  }

  /** What `fail_with` can be given at each point; `errno` values are any numbers. */
  predicate CanFail(phase: nat, f: Failure) {
    if phase == CHECK then
      || Says(f, Argument, "protocol") || Says(f, Argument, "integer") || Says(f, Argument, "path")
      || Says(f, Argument, "digest") || SaysErrno(f, Root) || Says(f, Root, "identity")
    else if phase == WALK_PARENT then
      || Says(f, Argument, "basename") || Says(f, Argument, "parent") || SaysErrno(f, Unsupported) || SaysErrno(f, Resolution)
    else if phase == STAT_PARENT then SaysErrno(f, Io) || Says(f, Resolution, "parent")
    else if phase == LOOK_ABSENT then Says(f, State, "exists") || SaysErrno(f, Resolution)
    else if phase == STAT_PARENT_AGAIN then
      SaysErrno(f, Io) || Says(f, State, "parent-drift") || Says(f, State, "commitment")
    else if phase == CREATE then SaysErrno(f, Unsupported) || SaysErrno(f, Io)
    else if phase == COPY then
      || SaysErrno(f, Io) || Says(f, Io, "short-write")
      || Says(f, Content, "truncated") || Says(f, Content, "trailing") || Says(f, Content, "digest")
    else if phase == CHMOD || phase == DONE then SaysErrno(f, Io)
    else if phase == STAT_CREATED || phase == STAT_ENTRY then Says(f, Uncertain, "create-parent-drift")
    else if phase == STAT_POST then SaysErrno(f, Io) || Says(f, Uncertain, "create-parent-post-state")
    else if phase == OPEN_CHILD || phase == OPEN_LAST then Says(f, Uncertain, "create-final-child-resolution")
    else if phase == STAT_BEFORE then
      SaysErrno(f, Io) || Says(f, State, "not-single-link-file") || Says(f, Limit, "file-size")
    else if phase == HASH then SaysErrno(f, Io) || Says(f, Limit, "bytes")
    else if phase == STAT_AFTER then SaysErrno(f, Io) || Says(f, State, "file-drift")
    else if phase == STAT_HELD then Says(f, Uncertain, "create-final-child-drift")
    else if phase in {STAT_LAST, PARENT_STABLE_2, VISIBLE_STABLE_2, FINAL_STABLE} then Says(f, Uncertain, "create-final-binding-drift")
    else Says(f, Uncertain, "create-final-parent-drift")
  }

  lemma FailureIsAscii(phase: nat, f: Failure)
    requires CanFail(phase, f)
    ensures Unicode.AllAscii(f.detail)
  {
  }

  /** Any system call may fail, the flush of the answer included, and every failed check ends here: `fail_with`. */
  ghost predicate FailStep(w: World, w': World)
    requires w.trace != []
  {
    exists f :: CanFail(w.phase, f) && w' == w.(trace := w.trace + [Now(w)], exit := ExitStatus(w.l.started), err := ErrorLine(w.l.started, f))
  }

  predicate HasLink(fs: FS, dir: Id, name: Name) {
    dir in fs && fs[dir].body.Directory? && name in fs[dir].body.links && fs[dir].body.links[name] in fs
  }

  function Link(fs: FS, dir: Id, name: Name): Id
    requires HasLink(fs, dir, name)
  {
    fs[dir].body.links[name]
  }

  /** `openat2` follows one component of the selector, in the directory reached so far. */
  predicate WalkHop(c: Call, w: World, w': World)
    requires w.trace != []
  {
    var k := |w.l.hops|;
    var here := if k == 0 then c.root else w.l.hops[k - 1].dir;
    && k < |c.selector|
    && HasLink(Now(w), here, c.selector[k])
    && var next := Link(Now(w), here, c.selector[k]);
    && Now(w)[next].body.Directory?
    && Goes(w, w', w.phase, w.l.(hops := w.l.hops + [Hop(next, Instant(w))]))
  }

  /** The walk has used up the selector: the open returns this directory. */
  function Reached(c: Call, l: Locals): Id {
    if l.hops == [] then c.root else l.hops[|l.hops| - 1].dir
  }

  predicate WalkEnds(c: Call, w: World) { |w.l.hops| == |c.selector| }

  /** What `fstat` on a held inode returns now. */
  predicate StatIs(w: World, id: Id, m: Stat)
    requires w.trace != []
  {
    id in Now(w) && Now(w)[id].stat == m
  }

  // The checks of main, open_parent_reference and capture_absent_state
  ghost predicate BeforeCreate(c: Call, w: World, w': World)
    requires w.trace != []
  {
    var l := w.l;
    if w.phase == CHECK then Requested(c) && Goes(w, w', WALK_PARENT, l)
    else if w.phase == WALK_PARENT then
      WalkHop(c, w, w') || (WalkEnds(c, w) && Goes(w, w', STAT_PARENT, l.(parent := Reached(c, l))))
    else if w.phase == STAT_PARENT then
      && l.parent in Now(w) && var m := Now(w)[l.parent].stat;
      && IsDirectory(m) && Goes(w, w', LOOK_ABSENT, l.(parentStat := m, tParent := Instant(w)))
    else if w.phase == LOOK_ABSENT then
      && l.parent in Now(w) && Now(w)[l.parent].body.Directory? && c.base !in Now(w)[l.parent].body.links
      && Goes(w, w', STAT_PARENT_AGAIN, l.(tAbsent := Instant(w)))
    else
      && w.phase == STAT_PARENT_AGAIN
      && StatIs(w, l.parent, l.parentStat)
      && AbsentCommitment(c.rootStat, c.path, l.parentStat) == c.expected
      && Goes(w, w', CREATE, l.(pre := c.expected, started := true))
  }

  /** The new file: empty, regular, one link, permissions not beyond 0600 (the umask may take some away). */
  predicate NewFile(id: Id, x: Inode) {
    SoundInode(id, x) && x.body == Regular([]) && x.stat.nlink == 1 && x.stat.size == 0
  }

  /** An own change: the clock does not go back, and may stand still within its granularity. */
  predicate OwnChange(x: Inode, y: Inode) { !ClockBefore(y.stat, x.stat) }

  // confined_openat2 with O_CREAT | O_EXCL
  predicate MakeFile(c: Call, w: World, w': World, id: Id, x: Inode, p: Inode)
    requires w.trace != []
  {
    && w.phase == CREATE
    && id !in Now(w) && NewFile(id, x)
    && w.l.parent in Now(w) && Now(w)[w.l.parent].body.Directory?
    && c.base !in Now(w)[w.l.parent].body.links
    && SoundInode(w.l.parent, p) && OwnChange(Now(w)[w.l.parent], p)
    && p.body == Directory(Now(w)[w.l.parent].body.links[c.base := id])
    && w' == World(w.trace + [Now(w)[id := x][w.l.parent := p]], COPY, w.l.(dest := id, tMade := Instant(w)), w.exit, w.err)
  }

  ghost predicate CreateStep(c: Call, w: World, w': World)
    requires w.trace != []
  {
    exists id: Id, x: Inode, p: Inode :: MakeFile(c, w, w', id, x, p)
  }

  function WriteAt(content: seq<byte>, offset: nat, bytes: seq<byte>): seq<byte> {
    var padded := if |content| < offset then content + seq(offset - |content|, _ => 0) else content;
    padded[..offset] + bytes + (if offset + |bytes| <= |padded| then padded[offset + |bytes|..] else [])
  }

  // write_exact_stdin: read from standard input, write to the file, and the checks at end of input
  predicate TakeInput(c: Call, w: World, w': World, n: nat)
    requires w.trace != []
  {
    && 0 < n <= BUFFER && w.l.written == w.l.consumed
    && w.l.consumed + n <= c.contentBytes && w.l.consumed + n <= |c.stdin|
    && Goes(w, w', COPY, w.l.(consumed := w.l.consumed + n))
  }

  predicate WriteSome(c: Call, w: World, w': World, n: nat, x: Inode)
    requires w.trace != []
  {
    && 0 < n && w.l.written + n <= w.l.consumed <= |c.stdin|
    && w.l.dest in Now(w) && Now(w)[w.l.dest].body.Regular?
    && SoundInode(w.l.dest, x) && OwnChange(Now(w)[w.l.dest], x)
    && x.body == Regular(WriteAt(Now(w)[w.l.dest].body.content, w.l.written, c.stdin[w.l.written..w.l.written + n]))
    && w' == World(w.trace + [Now(w)[w.l.dest := x]], COPY, w.l.(written := w.l.written + n), w.exit, w.err)
  }

  predicate InputDone(c: Call, w: World, w': World)
    requires w.trace != []
  {
    && w.l.written == w.l.consumed == c.contentBytes == |c.stdin|
    && DigestText(c.stdin) == c.contentSha
    && Goes(w, w', CHMOD, w.l)
  }

  // fchmod
  predicate SetMode(c: Call, w: World, w': World, x: Inode)
    requires w.trace != []
  {
    && w.l.dest in Now(w)
    && SoundInode(w.l.dest, x) && OwnChange(Now(w)[w.l.dest], x) && x.body == Now(w)[w.l.dest].body
    && w' == World(w.trace + [Now(w)[w.l.dest := x]], STAT_CREATED, w.l, w.exit, w.err)
  }

  ghost predicate WriteStep(c: Call, w: World, w': World)
    requires w.trace != []
  {
    if w.phase == COPY then
      || (exists n: nat :: TakeInput(c, w, w', n))
      || (exists n: nat, x: Inode :: WriteSome(c, w, w', n, x))
      || InputDone(c, w, w')
    else
      w.phase == CHMOD && exists x: Inode :: SetMode(c, w, w', x)
  }

  // The stats of the created file and of its parent, and reopen_verified_parent
  ghost predicate VerifyStep(c: Call, w: World, w': World)
    requires w.trace != []
  {
    var l := w.l;
    if w.phase == STAT_CREATED then
      && l.dest in Now(w) && var m := Now(w)[l.dest].stat;
      && CreatedKind(m) && Goes(w, w', STAT_ENTRY, l.(created := m, tCreated := Instant(w)))
    else if w.phase == STAT_ENTRY then
      && HasLink(Now(w), l.parent, c.base)
      && StatIs(w, Link(Now(w), l.parent, c.base), l.created) && Goes(w, w', STAT_POST, l)
    else if w.phase == STAT_POST then
      && l.parent in Now(w) && var m := Now(w)[l.parent].stat;
      && IsDirectory(m) && m.dev == l.parentStat.dev && m.ino == l.parentStat.ino
      && Goes(w, w', WALK_VISIBLE, l.(postParent := m, tPost := Instant(w), hops := []))
    else if w.phase == WALK_VISIBLE then
      WalkHop(c, w, w') || (WalkEnds(c, w) && Goes(w, w', STAT_VISIBLE, l.(visible := Reached(c, l))))
    else if w.phase == STAT_VISIBLE then
      StatIs(w, l.visible, l.postParent) && IsDirectory(l.postParent) && Goes(w, w', OPEN_CHILD, l)
    else
      && w.phase == OPEN_CHILD && HasLink(Now(w), l.visible, c.base)
      && Goes(w, w', STAT_BEFORE, l.(child := Link(Now(w), l.visible, c.base)))
  }

  // hash_fd_contents
  predicate ReadSome(w: World, w': World, n: nat)
    requires w.trace != []
  {
    && w.l.child in Now(w) && Now(w)[w.l.child].body.Regular?
    && var content := Now(w)[w.l.child].body.content;
    && 0 < n <= BUFFER && |w.l.read| + n <= |content| && |w.l.read| + n <= MAX_TREE_BYTES
    && Goes(w, w', HASH, w.l.(read := w.l.read + content[|w.l.read|..|w.l.read| + n]))
  }

  // capture_open_file_state, and the checks after it
  ghost predicate CaptureStep(c: Call, w: World, w': World)
    requires w.trace != []
  {
    var l := w.l;
    if w.phase == STAT_BEFORE then
      && l.child in Now(w) && var m := Now(w)[l.child].stat;
      && IsRegular(m) && m.nlink == 1 && 0 <= m.size <= MAX_TREE_BYTES
      && Goes(w, w', HASH, l.(before := m, read := [], tBefore := Instant(w)))
    else if w.phase == HASH then
      || (exists n: nat :: ReadSome(w, w', n))
      || (&& l.child in Now(w) && Now(w)[l.child].body.Regular?
          && |Now(w)[l.child].body.content| <= |l.read|
          && Goes(w, w', STAT_AFTER, l))
    else if w.phase == STAT_AFTER then
      && StatIs(w, l.child, l.before)
      && Goes(w, w', STAT_HELD, l.(post := FileCommitment(c.rootStat, c.path, l.before, DigestText(l.read))))
    else
      && w.phase == STAT_HELD
      && StatIs(w, l.dest, l.created) && CreatedKind(l.created) && ExactPermissions(l.before)
      && l.created == l.before && DigestText(l.read) == c.contentSha
      && Goes(w, w', PARENT_STABLE, l)
  }

  // The final binding
  ghost predicate BindStep(c: Call, w: World, w': World)
    requires w.trace != []
  {
    var l := w.l;
    if w.phase == PARENT_STABLE then StatIs(w, l.parent, l.postParent) && Goes(w, w', VISIBLE_STABLE, l)
    else if w.phase == VISIBLE_STABLE then StatIs(w, l.visible, l.postParent) && Goes(w, w', WALK_FINAL, l.(hops := []))
    else if w.phase == WALK_FINAL then
      WalkHop(c, w, w') || (WalkEnds(c, w) && Goes(w, w', STAT_FINAL, l.(final := Reached(c, l))))
    else if w.phase == STAT_FINAL then
      StatIs(w, l.final, l.postParent) && IsDirectory(l.postParent) && Goes(w, w', OPEN_LAST, l)
    else if w.phase == OPEN_LAST then
      && HasLink(Now(w), l.final, c.base)
      && Goes(w, w', STAT_LAST, l.(last := Link(Now(w), l.final, c.base), tOpen := Instant(w)))
    else if w.phase == STAT_LAST then
      && StatIs(w, l.last, l.created) && CreatedKind(l.created) && l.before == l.created
      && Goes(w, w', PARENT_STABLE_2, l.(tLast := Instant(w)))
    else if w.phase == PARENT_STABLE_2 then
      StatIs(w, l.parent, l.postParent) && Goes(w, w', VISIBLE_STABLE_2, l)
    else if w.phase == VISIBLE_STABLE_2 then StatIs(w, l.visible, l.postParent) && Goes(w, w', FINAL_STABLE, l)
    else w.phase == FINAL_STABLE && StatIs(w, l.final, l.postParent) && Goes(w, w', DONE, l.(tEnd := Instant(w)))
  }

  ghost predicate HelperStep(c: Call, w: World, w': World)
    requires w.trace != []
  {
    if w.phase < CREATE then BeforeCreate(c, w, w')
    else if w.phase == CREATE then CreateStep(c, w, w')
    else if w.phase <= CHMOD then WriteStep(c, w, w')
    else if w.phase <= OPEN_CHILD then VerifyStep(c, w, w')
    else if w.phase <= STAT_HELD then CaptureStep(c, w, w')
    else w.phase < DONE && BindStep(c, w, w')
  }

  ghost predicate Next(c: Call, w: World, w': World)
    requires w.trace != []
  {
    EnvironmentStep(w, w') || (w.exit == RUNNING && (HelperStep(c, w, w') || FailStep(w, w')))
  }

  ghost predicate Init(c: Call, w: World) {
    && |w.trace| == 1 && Sound(w.trace[0])
    && w.phase == CHECK && w.exit == RUNNING && w.err == []
    && w.l.hops == [] && !w.l.started && w.l.consumed == 0 && w.l.written == 0
  }

  ghost predicate IsRun(c: Call, ws: seq<World>) {
    && ws != [] && Init(c, ws[0])
    && (forall i :: 0 <= i < |ws| ==> ws[i].trace != [])
    && (forall i :: 0 <= i < |ws| - 1 ==> Next(c, ws[i], ws[i + 1]))
  }

  // ---- Time.

  lemma AgedTransitive(x: Inode, y: Inode, z: Inode)
    requires Aged(x, y) && Aged(y, z)
    ensures Aged(x, z)
  {
  }

  /** From instant `t` on, nothing changed without its change time moving forward. */
  ghost predicate Quiet(trace: seq<FS>, t: nat) {
    forall k :: t <= k < |trace| - 1 ==> Later(trace[k], trace[k + 1])
  }

  lemma {:induction false} LaterChain(trace: seq<FS>, t: nat, i: nat, j: nat, id: Id)
    requires Quiet(trace, t) && t <= i <= j < |trace| && id in trace[i]
    ensures id in trace[j] && Aged(trace[i][id], trace[j][id])
    decreases j - i
  {
    if i < j {
      assert Later(trace[i], trace[i + 1]);
      LaterChain(trace, t, i + 1, j, id);
      AgedTransitive(trace[i][id], trace[i + 1][id], trace[j][id]);
    }
  }

  /** Two equal stats of one inode mean that it was the same at every instant between them. */
  lemma SameStatSameInode(trace: seq<FS>, t: nat, i: nat, k: nat, j: nat, id: Id)
    requires Quiet(trace, t) && t <= i <= k <= j < |trace| && id in trace[i] && id in trace[j]
    requires trace[i][id].stat == trace[j][id].stat
    ensures id in trace[k] && trace[k][id] == trace[i][id]
  {
    LaterChain(trace, t, i, k, id);
    LaterChain(trace, t, k, j, id);
  }

  lemma QuietGrows(trace: seq<FS>, t: nat, fs: FS)
    requires Quiet(trace, t) && t < |trace| && Later(trace[|trace| - 1], fs)
    ensures Quiet(trace + [fs], t)
  {
    var more := trace + [fs];
    forall k | t <= k < |more| - 1 ensures Later(more[k], more[k + 1]) {
      if k < |trace| - 1 { assert Later(trace[k], trace[k + 1]); }
    }
  }

  // ---- What every reachable world satisfies.

  ghost predicate Absent(c: Call, w: World) {
    && (w.phase >= STAT_PARENT_AGAIN ==>
          && w.l.tAbsent < |w.trace| && w.l.parent in w.trace[w.l.tAbsent]
          && w.trace[w.l.tAbsent][w.l.parent].body.Directory?
          && c.base !in w.trace[w.l.tAbsent][w.l.parent].body.links)
    && (w.phase >= LOOK_ABSENT ==> w.l.parentStat.dev == w.l.parent.dev && w.l.parentStat.ino == w.l.parent.ino)
    && (LOOK_ABSENT <= w.phase <= STAT_PARENT_AGAIN ==>
          SeenAt(w, w.l.tParent, w.l.parent, w.l.parentStat) && Quiet(w.trace, w.l.tParent))
    && (w.phase == STAT_PARENT_AGAIN ==> w.l.tParent <= w.l.tAbsent)
    && (w.phase >= CREATE ==> w.trace[w.l.tAbsent][w.l.parent].stat == w.l.parentStat)
    && (w.phase >= CREATE ==> w.l.pre == c.expected == AbsentCommitment(c.rootStat, c.path, w.l.parentStat))
  }

  ghost predicate Made(c: Call, w: World) {
    && (w.phase >= COPY ==>
          && 0 < w.l.tMade < |w.trace| && w.l.dest !in w.trace[w.l.tMade - 1]
          && HasLink(w.trace[w.l.tMade], w.l.parent, c.base) && Link(w.trace[w.l.tMade], w.l.parent, c.base) == w.l.dest)
    && (w.phase >= CHMOD ==> DigestText(c.stdin) == c.contentSha && |c.stdin| == c.contentBytes)
  }

  ghost predicate SeenAt(w: World, t: nat, id: Id, m: Stat) {
    t < |w.trace| && id in w.trace[t] && w.trace[t][id].stat == m
  }

  ghost predicate CreatedSeen(w: World) {
    w.phase >= STAT_ENTRY ==>
      && w.l.tMade <= w.l.tCreated && SeenAt(w, w.l.tCreated, w.l.dest, w.l.created)
      && CreatedKind(w.l.created) && Quiet(w.trace, w.l.tCreated)
  }

  ghost predicate ParentSeen(w: World) {
    w.phase >= WALK_VISIBLE ==> w.l.tCreated <= w.l.tPost && SeenAt(w, w.l.tPost, w.l.parent, w.l.postParent)
  }

  ghost predicate ContentSeen(c: Call, w: World) {
    w.phase >= HASH ==>
      && w.l.tCreated <= w.l.tBefore && SeenAt(w, w.l.tBefore, w.l.child, w.l.before)
      && w.trace[w.l.tBefore][w.l.child].body.Regular?
      && var content := w.trace[w.l.tBefore][w.l.child].body.content;
      && (w.phase <= STAT_AFTER && w.trace != [] && w.l.child in Now(w) && Now(w)[w.l.child] == w.trace[w.l.tBefore][w.l.child] ==>
            if w.phase == HASH then w.l.read <= content else w.l.read == content)
      && (w.phase >= STAT_HELD ==>
            && w.l.read == content
            && w.l.post == FileCommitment(c.rootStat, c.path, w.l.before, DigestText(w.l.read)))
      && (w.phase >= PARENT_STABLE ==> w.l.created == w.l.before && DigestText(w.l.read) == c.contentSha)
  }

  /** Component `k` of the selector was looked up in the directory reached before it, at or after `t`. */
  ghost predicate HopOk(c: Call, trace: seq<FS>, t: nat, hops: seq<Hop>, k: nat)
    requires k < |hops| <= |c.selector|
  {
    && t <= hops[k].time < |trace|
    && (k > 0 ==> hops[k - 1].time <= hops[k].time)
    && var here := if k == 0 then c.root else hops[k - 1].dir;
    HasLink(trace[hops[k].time], here, c.selector[k]) && Link(trace[hops[k].time], here, c.selector[k]) == hops[k].dir
  }

  ghost predicate Walked(c: Call, trace: seq<FS>, t: nat, hops: seq<Hop>) {
    |hops| <= |c.selector| && forall k :: 0 <= k < |hops| ==> HopOk(c, trace, t, hops, k)
  }

  ghost predicate Bound(c: Call, w: World) {
    && (w.phase >= WALK_FINAL ==> Walked(c, w.trace, w.l.tPost, w.l.hops))
    && (w.phase >= STAT_FINAL ==> |w.l.hops| == |c.selector| && w.l.final == Reached(c, w.l))
    && (w.phase >= OPEN_LAST ==> w.l.final == w.l.parent)
    && (w.phase >= STAT_LAST ==>
          && w.l.tPost <= w.l.tOpen < |w.trace| && (w.l.hops != [] ==> w.l.hops[|w.l.hops| - 1].time <= w.l.tOpen)
          && HasLink(w.trace[w.l.tOpen], w.l.final, c.base) && Link(w.trace[w.l.tOpen], w.l.final, c.base) == w.l.last)
    && (w.phase >= PARENT_STABLE_2 ==> w.l.tOpen <= w.l.tLast && SeenAt(w, w.l.tLast, w.l.last, w.l.created))
    && (w.phase >= DONE ==> w.l.tLast < w.l.tEnd && SeenAt(w, w.l.tEnd, w.l.parent, w.l.postParent))
  }

  ghost predicate Basics(c: Call, w: World) {
    && w.trace != [] && (forall i :: 0 <= i < |w.trace| ==> Sound(w.trace[i]))
    && (w.phase > CHECK ==> Requested(c)) && (w.l.started <==> w.phase >= CREATE)
  }

  /** A run that has not failed has printed nothing; one that has failed printed the line of a failure of that point. */
  ghost predicate Reported(w: World) {
    if w.exit == RUNNING then w.err == []
    else w.exit == ExitStatus(w.l.started) && exists f :: CanFail(w.phase, f) && w.err == ErrorLine(w.l.started, f)
  }

  ghost predicate Inv(c: Call, w: World) {
    Basics(c, w) && Reported(w) && Absent(c, w) && Made(c, w) && CreatedSeen(w) && ParentSeen(w) && ContentSeen(c, w) && Bound(c, w)
  }

  // ---- Every step keeps it.

  lemma WalkedGrows(c: Call, trace: seq<FS>, t: nat, hops: seq<Hop>, fs: FS)
    requires Walked(c, trace, t, hops)
    ensures Walked(c, trace + [fs], t, hops)
  {
    forall k | 0 <= k < |hops| ensures HopOk(c, trace + [fs], t, hops, k) {
      assert HopOk(c, trace, t, hops, k);
    }
  }

  /** Time passes: the file system ages, the helper stands still. */
  lemma TimePasses(c: Call, w: World, fs: FS)
    requires Inv(c, w) && Sound(fs) && Later(Now(w), fs)
    ensures Inv(c, w.(trace := w.trace + [fs]))
  {
    hide FileCommitment, AbsentCommitment, DigestText, Sound, CreatedKind, Walked, Quiet, Later, CanFail, ErrorLine,
         Requested;
    var w' := w.(trace := w.trace + [fs]);
    if LOOK_ABSENT <= w.phase <= STAT_PARENT_AGAIN { QuietGrows(w.trace, w.l.tParent, fs); }
    if w.phase >= STAT_ENTRY { QuietGrows(w.trace, w.l.tCreated, fs); }
    if w.phase >= WALK_FINAL { WalkedGrows(c, w.trace, w.l.tPost, w.l.hops, fs); }
    if w.phase >= HASH { ContentAges(c, w, fs); }
  }

  lemma ContentAges(c: Call, w: World, fs: FS)
    requires Basics(c, w) && CreatedSeen(w) && ContentSeen(c, w) && Later(Now(w), fs) && w.phase >= HASH
    ensures ContentSeen(c, w.(trace := w.trace + [fs]))
  {
    hide FileCommitment, DigestText, Sound, CreatedKind;
    LaterChain(w.trace, w.l.tCreated, w.l.tBefore, |w.trace| - 1, w.l.child);
    assert Aged(Now(w)[w.l.child], fs[w.l.child]);
  }

  lemma LaterReflexive(fs: FS)
    ensures Later(fs, fs)
  {
  }

  lemma BeforeCreateKeeps(c: Call, w: World, w': World)
    requires Inv(c, w) && w.exit == RUNNING && w.phase < CREATE && BeforeCreate(c, w, w')
    ensures Inv(c, w')
  {
    hide AbsentCommitment, FileCommitment, DigestText, CanFail, ErrorLine, Requested, Quiet, Later, Sound, Absent;
    var v := Look(c, w);
    AbsentKept(c, w, v, w');
  }

  /** The two stats of the parent directory agree, so it was the same when the name was found absent between them. */
  lemma AbsentKept(c: Call, w: World, v: World, w': World)
    requires Basics(c, w) && Absent(c, w) && w.phase < CREATE && BeforeCreate(c, w, w')
    requires v == w.(trace := w.trace + [Now(w)]) && Basics(c, v) && Absent(c, v)
    ensures Absent(c, w')
  {
    hide AbsentCommitment, Requested, Later, IsDirectory, HasLink;
    if w.phase == STAT_PARENT {
      assert Sound(Now(w)) && SoundInode(w.l.parent, Now(w)[w.l.parent]);
    } else if w.phase == STAT_PARENT_AGAIN {
      SameStatSameInode(v.trace, w.l.tParent, w.l.tParent, w.l.tAbsent, |w.trace|, w.l.parent);
    }
  }

  lemma CreateKeeps(c: Call, w: World, w': World)
    requires Inv(c, w) && w.exit == RUNNING && CreateStep(c, w, w')
    ensures Inv(c, w')
  {
    hide AbsentCommitment, FileCommitment, DigestText, CanFail, ErrorLine, Requested, SoundInode;
    var id, x, p :| MakeFile(c, w, w', id, x, p);
    var fs := Now(w)[id := x][w.l.parent := p];
    assert Sound(fs);
    assert w'.trace[w'.l.tMade] == fs && w'.trace[w'.l.tMade - 1] == Now(w);
    assert Basics(c, w');
    assert Absent(c, w');
    assert HasLink(fs, w.l.parent, c.base);
    assert Made(c, w');
  }

  lemma WriteKeeps(c: Call, w: World, w': World)
    requires Inv(c, w) && w.exit == RUNNING && COPY <= w.phase <= CHMOD && WriteStep(c, w, w')
    ensures Inv(c, w')
  {
    hide AbsentCommitment, FileCommitment, DigestText, CanFail, ErrorLine, Requested, WriteAt, SoundInode, HasLink;
    if w.phase == COPY && exists n: nat, x: Inode :: WriteSome(c, w, w', n, x) {
      var n: nat, x: Inode :| WriteSome(c, w, w', n, x);
      assert Sound(Now(w)[w.l.dest := x]);
    } else if w.phase == CHMOD {
      var x :| SetMode(c, w, w', x);
      assert Sound(Now(w)[w.l.dest := x]);
    }
  }

  /** A system call that only looks: time passes, then the result is stored. */
  lemma Look(c: Call, w: World) returns (v: World)
    requires Inv(c, w)
    ensures v == w.(trace := w.trace + [Now(w)]) && Inv(c, v) && Now(v) == Now(w)
  {
    LaterReflexive(Now(w));
    TimePasses(c, w, Now(w));
    v := w.(trace := w.trace + [Now(w)]);
  }

  lemma VerifyKeeps(c: Call, w: World, w': World)
    requires Inv(c, w) && w.exit == RUNNING && STAT_CREATED <= w.phase <= OPEN_CHILD && VerifyStep(c, w, w')
    ensures Inv(c, w')
  {
    hide AbsentCommitment, FileCommitment, DigestText, CanFail, ErrorLine, Requested, CreatedKind, IsDirectory,
         IsRegular, Sound;
    var v := Look(c, w);
    if w.phase != STAT_CREATED { hide Quiet, Later; }
  }

  lemma CaptureKeeps(c: Call, w: World, w': World)
    requires Inv(c, w) && w.exit == RUNNING && STAT_BEFORE <= w.phase <= STAT_HELD && CaptureStep(c, w, w')
    ensures Inv(c, w')
  {
    hide AbsentCommitment, FileCommitment, DigestText, CanFail, ErrorLine, Requested, CreatedKind, Quiet, Later,
         IsDirectory, Sound, ContentSeen;
    var v := Look(c, w);
    ContentKept(c, w, v, w');
  }

  lemma ContentKept(c: Call, w: World, v: World, w': World)
    requires Inv(c, w) && STAT_BEFORE <= w.phase <= STAT_HELD && CaptureStep(c, w, w')
    requires v == w.(trace := w.trace + [Now(w)]) && CreatedSeen(v) && ContentSeen(c, v)
    ensures ContentSeen(c, w')
  {
    hide AbsentCommitment, FileCommitment, DigestText, CanFail, ErrorLine, Requested, CreatedKind, Quiet, Later,
         IsDirectory, Bound, Absent, Made, ParentSeen;
    if w.phase == STAT_BEFORE {
      assert SoundInode(w.l.child, Now(w)[w.l.child]);
    } else if w.phase == STAT_AFTER {
      LaterChain(v.trace, v.l.tCreated, v.l.tBefore, |v.trace| - 1, v.l.child);
      assert Now(v)[v.l.child] == v.trace[v.l.tBefore][v.l.child];
    }
  }

  lemma WalkExtends(c: Call, w: World, w': World, t: nat)
    requires w.trace != [] && Walked(c, w.trace, t, w.l.hops) && t < |w.trace| && WalkHop(c, w, w')
    ensures Walked(c, w'.trace, t, w'.l.hops)
  {
    WalkedGrows(c, w.trace, t, w.l.hops, Now(w));
    var prior, hops, n := w.l.hops, w'.l.hops, |w.l.hops|;
    if n > 0 { LastHop(c, w.trace, t, prior); }
    forall k | 0 <= k < |hops| ensures HopOk(c, w'.trace, t, hops, k) {
      if k < n { assert HopOk(c, w'.trace, t, prior, k); }
    }
  }

  lemma BindKeeps(c: Call, w: World, w': World)
    requires Inv(c, w) && w.exit == RUNNING && PARENT_STABLE <= w.phase < DONE && BindStep(c, w, w')
    ensures Inv(c, w')
  {
    hide AbsentCommitment, FileCommitment, DigestText, CanFail, ErrorLine, Requested, CreatedKind, Quiet, Later,
         Sound, HasLink, Bound, BindStep;
    var v := Look(c, w);
    BindOnlyBinds(c, w, w');
    BoundKept(c, w, v, w');
  }

  lemma BindOnlyBinds(c: Call, w: World, w': World)
    requires w.trace != [] && PARENT_STABLE <= w.phase < DONE && BindStep(c, w, w')
    ensures w'.trace == w.trace + [Now(w)] && w'.exit == w.exit && w'.err == w.err && w.phase <= w'.phase <= DONE
    ensures w'.l == w.l.(hops := w'.l.hops, final := w'.l.final, last := w'.l.last, tOpen := w'.l.tOpen, tLast := w'.l.tLast, tEnd := w'.l.tEnd)
  {
    hide HasLink, CreatedKind, IsDirectory, Reached;
  }

  lemma BoundKept(c: Call, w: World, v: World, w': World)
    requires Inv(c, w) && PARENT_STABLE <= w.phase < DONE && BindStep(c, w, w')
    requires v == w.(trace := w.trace + [Now(w)]) && Bound(c, v)
    ensures Bound(c, w')
  {
    hide AbsentCommitment, FileCommitment, DigestText, CanFail, ErrorLine, Requested, CreatedKind, IsDirectory,
         IsRegular, Quiet, Later, Walked, Sound, Absent, Made, ContentSeen;
    if w.phase == VISIBLE_STABLE {
      WalkedNothing(c, w'.trace, w.l.tPost);
    } else if w.phase == WALK_FINAL && WalkHop(c, w, w') {
      WalkExtends(c, w, w', w.l.tPost);
    } else if w.phase == STAT_FINAL {
      SameIdentity(w.trace[w.l.tPost], w.l.parent, Now(w), w.l.final);
    } else if w.phase == OPEN_LAST && w.l.hops != [] {
      LastHop(c, w.trace, w.l.tPost, w.l.hops);
    }
  }

  lemma LastHop(c: Call, trace: seq<FS>, t: nat, hops: seq<Hop>)
    requires Walked(c, trace, t, hops) && hops != []
    ensures t <= hops[|hops| - 1].time < |trace|
  {
    assert HopOk(c, trace, t, hops, |hops| - 1);
  }

  lemma WalkedNothing(c: Call, trace: seq<FS>, t: nat)
    ensures Walked(c, trace, t, [])
  {
  }

  /** Device and inode numbers name an inode. */
  lemma SameIdentity(a: FS, x: Id, b: FS, y: Id)
    requires Sound(a) && Sound(b) && x in a && y in b && a[x].stat == b[y].stat
    ensures x == y
  {
    assert SoundInode(x, a[x]) && SoundInode(y, b[y]);
  }

  lemma NextKeeps(c: Call, w: World, w': World)
    requires w.trace != [] && Inv(c, w) && Next(c, w, w')
    ensures Inv(c, w')
  {
    hide Inv, Sound, Later, BeforeCreate, CreateStep, WriteStep, VerifyStep, CaptureStep, BindStep, Goes, CanFail,
         ErrorLine;
    if EnvironmentStep(w, w') {
      var fs :| Sound(fs) && Later(Now(w), fs) && w' == w.(trace := w.trace + [fs]);
      TimePasses(c, w, fs);
    } else if FailStep(w, w') {
      FailKeeps(c, w, w');
    } else if w.phase < CREATE {
      BeforeCreateKeeps(c, w, w');
    } else if w.phase == CREATE {
      CreateKeeps(c, w, w');
    } else if w.phase <= CHMOD {
      WriteKeeps(c, w, w');
    } else if w.phase <= OPEN_CHILD {
      VerifyKeeps(c, w, w');
    } else if w.phase <= STAT_HELD {
      CaptureKeeps(c, w, w');
    } else {
      BindKeeps(c, w, w');
    }
  }

  lemma FailKeeps(c: Call, w: World, w': World)
    requires Inv(c, w) && w.exit == RUNNING && FailStep(w, w')
    ensures Inv(c, w')
  {
    hide FileCommitment, AbsentCommitment, DigestText, Walked, Quiet, Sound, CreatedKind, CanFail, ErrorLine, Requested;
    var v := Look(c, w);
  }

  lemma {:induction false} RunKeeps(c: Call, ws: seq<World>, i: nat)
    requires IsRun(c, ws) && i < |ws|
    ensures Inv(c, ws[i])
  {
    hide Next, Inv;
    if i == 0 {
      InitKeeps(c, ws[0]);
    } else {
      RunKeeps(c, ws, i - 1);
      assert Next(c, ws[i - 1], ws[i - 1 + 1]);
      NextKeeps(c, ws[i - 1], ws[i]);
    }
  }

  lemma InitKeeps(c: Call, w: World)
    requires Init(c, w)
    ensures Inv(c, w)
  {
  }

  // ---- The main results.

  /** At instant `j` the name in directory `dir` leads to `id`: a 0600 file with one link and this content. */
  ghost predicate Installed(fs: FS, dir: Id, name: Name, id: Id, content: seq<byte>) {
    && HasLink(fs, dir, name) && Link(fs, dir, name) == id
    && fs[id].stat.mode % 0x1_0000 == 0x8180 && fs[id].stat.nlink == 1 && fs[id].body == Regular(content)
  }

  /** The checks made of the created file: a regular file (type 8) with permissions 0600 and one link. */
  lemma KindOfFile(m: Stat)
    ensures CreatedKind(m) <==> m.mode % 0x1_0000 == 0x8180 && m.nlink == 1
  {
    var high, low := m.mode / 0x1000, m.mode % 0x1000;
    LowBits(m.mode, high / 16, high % 16, low);
  }

  lemma LowBits(n: nat, top: nat, kind: nat, low: nat)
    requires n == 0x1_0000 * top + 0x1000 * kind + low && kind < 16 && low < 0x1000
    ensures n % 0x1_0000 == 0x1000 * kind + low
  {
  }

  /** The absent state: the directory that the file was then created in, as committed to, did not have the name. */
  ghost predicate WasAbsent(c: Call, w: World, dir: Id) {
    && w.l.tAbsent < |w.trace| && dir in w.trace[w.l.tAbsent] && w.trace[w.l.tAbsent][dir].stat == w.l.parentStat
    && w.trace[w.l.tAbsent][dir].body.Directory? && c.base !in w.trace[w.l.tAbsent][dir].body.links
  }

  /** The inode came into being in this run, no later than instant `j`. */
  ghost predicate WasMade(w: World, j: nat) {
    0 < w.l.tMade <= j < |w.trace| && w.l.dest !in w.trace[w.l.tMade - 1] && w.l.dest in w.trace[w.l.tMade]
  }

  /** The directory was reached by walking the whole selector from the root, the last component at instant `j`. */
  ghost predicate WasReached(c: Call, w: World, j: nat, dir: Id) {
    && dir == Reached(c, w.l) && Walked(c, w.trace, w.l.tPost, w.l.hops) && |w.l.hops| == |c.selector|
    && (w.l.hops != [] ==> j == w.l.hops[|w.l.hops| - 1].time)
  }

  /**
   * If the helper prints OK then there is an instant `j` of the run at which the directory reached by
   * walking the selector from the root held, under the base name, the very inode this run created, as a
   * regular file with mode 0600, one link and content of the authorized digest; and the printed
   * commitments are those of the absent state seen before and of exactly that state.
   */
  lemma CreateIsExact(c: Call, ws: seq<World>, i: nat) returns (j: nat, dir: Id, content: seq<byte>)
    requires IsRun(c, ws) && i < |ws| && ws[i].phase == DONE
    ensures WasReached(c, ws[i], j, dir) && WasMade(ws[i], j) && WasAbsent(c, ws[i], dir) && ws[i].l.tCreated <= j
    ensures Installed(ws[i].trace[j], dir, c.base, ws[i].l.dest, content)
    ensures DigestText(content) == c.contentSha == DigestText(c.stdin) && |c.stdin| == c.contentBytes
    ensures ws[i].l.post == FileCommitment(c.rootStat, c.path, ws[i].trace[j][ws[i].l.dest].stat, DigestText(content))
    ensures ws[i].l.pre == c.expected == AbsentCommitment(c.rootStat, c.path, ws[i].l.parentStat)
  {
    hide FileCommitment, AbsentCommitment, DigestText, CreatedKind, Walked, Quiet, Next, Requested, CanFail,
         ErrorLine, Sound, Reported;
    RunKeeps(c, ws, i);
    dir, content := ws[i].l.parent, ws[i].l.read;
    j := BindingInstant(c, ws[i]);
    ParentStood(c, ws[i], j);
    FileStood(c, ws[i], j);
    KindOfFile(ws[i].l.created);
  }

  /**
   * It was so at every instant from the post-effect stat of the parent directory to the last stat of the file, and up to
   * the last check of all, after that, the name still led to the file.
   */
  lemma InstalledThroughout(c: Call, ws: seq<World>, i: nat, k: nat) returns (content: seq<byte>)
    requires IsRun(c, ws) && i < |ws| && ws[i].phase == DONE && ws[i].l.tPost <= k <= ws[i].l.tEnd
    ensures k < |ws[i].trace| && ws[i].l.tPost <= ws[i].l.tLast < ws[i].l.tEnd && DigestText(content) == c.contentSha
    ensures LeadsTo(ws[i].trace[k], Reached(c, ws[i].l), c.base, ws[i].l.dest)
    ensures k <= ws[i].l.tLast ==>
      && Installed(ws[i].trace[k], Reached(c, ws[i].l), c.base, ws[i].l.dest, content)
      && ws[i].l.post == FileCommitment(c.rootStat, c.path, ws[i].trace[k][ws[i].l.dest].stat, DigestText(content))
  {
    hide FileCommitment, AbsentCommitment, DigestText, CreatedKind, Walked, Quiet, Next, Requested, CanFail,
         ErrorLine, Sound, Reported;
    RunKeeps(c, ws, i);
    var l := ws[i].l;
    content := l.read;
    ParentStood(c, ws[i], k);
    FileStood(c, ws[i], if k <= l.tLast then k else l.tLast);
    KindOfFile(l.created);
    LaterChain(ws[i].trace, l.tCreated, l.tCreated, k, l.dest);
  }

  /** The instant at which the last walk reached the parent directory. */
  lemma BindingInstant(c: Call, w: World) returns (j: nat)
    requires Bound(c, w) && ParentSeen(w) && CreatedSeen(w) && w.phase == DONE
    ensures w.l.tPost <= j <= w.l.tOpen <= w.l.tLast <= w.l.tEnd < |w.trace| && w.l.tMade <= w.l.tCreated <= w.l.tPost
    ensures w.l.hops != [] ==> j == w.l.hops[|w.l.hops| - 1].time
  {
    hide Walked, Quiet, CreatedKind, HasLink;
    if w.l.hops != [] { LastHop(c, w.trace, w.l.tPost, w.l.hops); }
    j := if w.l.hops == [] then w.l.tPost else w.l.hops[|w.l.hops| - 1].time;
  }

  /** The parent directory stood still from its post-effect stat to the end, and led to the file reached last. */
  lemma ParentStood(c: Call, w: World, j: nat)
    requires Bound(c, w) && ParentSeen(w) && CreatedSeen(w) && w.phase == DONE && w.l.tPost <= j <= w.l.tEnd
    ensures j < |w.trace| && w.l.parent in w.trace[j] && w.l.parent in w.trace[w.l.tOpen]
    ensures w.trace[j][w.l.parent] == w.trace[w.l.tOpen][w.l.parent]
  {
    hide Walked, Quiet, CreatedKind, HasLink;
    SameStatSameInode(w.trace, w.l.tCreated, w.l.tPost, w.l.tOpen, w.l.tEnd, w.l.parent);
    SameStatSameInode(w.trace, w.l.tCreated, w.l.tPost, j, w.l.tEnd, w.l.parent);
  }

  /** The file reached last, and the one whose content was read, is the created one, and it stood still as well. */
  lemma FileStood(c: Call, w: World, j: nat)
    requires Basics(c, w) && Bound(c, w) && ParentSeen(w) && CreatedSeen(w) && ContentSeen(c, w) && w.phase == DONE
    requires w.l.tPost <= j <= w.l.tLast
    ensures w.l.last == w.l.dest && w.l.child == w.l.dest && j < |w.trace| && w.l.dest in w.trace[j]
    ensures w.trace[j][w.l.dest].stat == w.l.created && w.trace[j][w.l.dest].body == Regular(w.l.read)
  {
    hide FileCommitment, DigestText, Walked, Quiet, CreatedKind, HasLink, Requested, Sound;
    var l, trace := w.l, w.trace;
    SameIdentity(trace[l.tLast], l.last, trace[l.tCreated], l.dest);
    SameIdentity(trace[l.tBefore], l.child, trace[l.tCreated], l.dest);
    SameStatSameInode(trace, l.tCreated, l.tCreated, j, l.tLast, l.dest);
    WholeLife(trace, l.tCreated, l.tBefore, l.tLast, l.dest);
  }

  lemma WholeLife(trace: seq<FS>, t: nat, a: nat, b: nat, id: Id)
    requires Quiet(trace, t) && t <= a < |trace| && t <= b < |trace| && id in trace[t] && id in trace[a] && id in trace[b]
    requires trace[t][id].stat == trace[a][id].stat == trace[b][id].stat
    ensures trace[a][id] == trace[t][id] && trace[b][id] == trace[t][id]
  {
    SameStatSameInode(trace, t, t, a, a, id);
    SameStatSameInode(trace, t, t, b, b, id);
  }

  /** No regular file of the run collides with the input: equal digests mean equal octets. */
  ghost predicate NoCollision(c: Call, trace: seq<FS>) {
    forall k, id :: 0 <= k < |trace| && id in trace[k] && trace[k][id].body.Regular? ==>
      DigestText(trace[k][id].body.content) == DigestText(c.stdin) ==> trace[k][id].body.content == c.stdin
  }

  /** What the content is: the octets on standard input, unless a file of this very run collides with them. */
  lemma ContentIsInput(c: Call, ws: seq<World>, i: nat) returns (j: nat, dir: Id)
    requires IsRun(c, ws) && i < |ws| && ws[i].phase == DONE && NoCollision(c, ws[i].trace)
    ensures j < |ws[i].trace| && dir == Reached(c, ws[i].l)
    ensures Installed(ws[i].trace[j], dir, c.base, ws[i].l.dest, c.stdin)
  {
    hide DigestText, IsRun, CreatedKind, Walked, FileCommitment, AbsentCommitment;
    var content;
    j, dir, content := CreateIsExact(c, ws, i);
    assert ws[i].trace[j][ws[i].l.dest].body == Regular(content);
  }

  /** Resolution of a path of directories from `dir` at one instant. */
  ghost predicate Resolves(fs: FS, dir: Id, selector: seq<Name>, target: Id)
    decreases |selector|
  {
    if selector == [] then dir == target
    else HasLink(fs, dir, selector[0]) && Resolves(fs, Link(fs, dir, selector[0]), selector[1..], target)
  }

  /** With at most one directory component, the whole path resolves to the created file at one instant. */
  lemma ShortPathResolvesAtOnce(c: Call, ws: seq<World>, i: nat) returns (j: nat)
    requires IsRun(c, ws) && i < |ws| && ws[i].phase == DONE && |c.selector| <= 1
    ensures j < |ws[i].trace| && Resolves(ws[i].trace[j], c.root, c.selector + [c.base], ws[i].l.dest)
  {
    hide DigestText, IsRun, CreatedKind, FileCommitment, AbsentCommitment;
    var dir, content;
    j, dir, content := CreateIsExact(c, ws, i);
    var fs := ws[i].trace[j];
    if c.selector == [] {
      ResolvesOne(fs, c.root, c.selector, c.base);
    } else {
      assert HopOk(c, ws[i].trace, ws[i].l.tPost, ws[i].l.hops, 0);
      var path := c.selector + [c.base];
      assert path[1..] == [] + [c.base];
      ResolvesOne(fs, dir, [], c.base);
    }
  }

  lemma ResolvesOne(fs: FS, dir: Id, none: seq<Name>, name: Name)
    requires none == [] && HasLink(fs, dir, name)
    ensures Resolves(fs, dir, none + [name], Link(fs, dir, name))
  {
    assert (none + [name])[1..] == [];
  }

  // ---- One clock, and names that count.

  /** Every inode that is new or has changed has a later change time than everything before: there is one clock. */
  ghost predicate Ticks(a: FS, b: FS) {
    forall id :: id in b ==> (id in a && b[id] == a[id]) || forall x :: x in a ==> ClockBefore(a[x].stat, b[id].stat)
  }

  ghost predicate LeadsTo(fs: FS, dir: Id, name: Name, id: Id) { HasLink(fs, dir, name) && Link(fs, dir, name) == id }

  ghost predicate SameNames(a: FS, b: FS, id: Id) {
    forall dir, name :: LeadsTo(a, dir, name, id) <==> LeadsTo(b, dir, name, id)
  }

  /** Linking, unlinking and renaming change the inode that is named: one that stayed as it was kept its names. */
  ghost predicate Names(a: FS, b: FS) {
    forall id :: id in a && id in b && a[id] == b[id] ==> SameNames(a, b, id)
  }

  ghost predicate Clocked(trace: seq<FS>) { forall k :: 0 <= k < |trace| - 1 ==> Ticks(trace[k], trace[k + 1]) }

  ghost predicate Named(trace: seq<FS>) { forall k :: 0 <= k < |trace| - 1 ==> Names(trace[k], trace[k + 1]) }

  /** An inode that stood still over some time had the same names all the while. */
  lemma {:induction false} NamesStand(trace: seq<FS>, i: nat, j: nat, id: Id)
    requires Named(trace) && i <= j < |trace|
    requires id in trace[i] && forall k :: i <= k <= j ==> id in trace[k] && trace[k][id] == trace[i][id]
    ensures SameNames(trace[i], trace[j], id)
    decreases j - i
  {
    hide LeadsTo;
    if i < j {
      assert Names(trace[i], trace[i + 1]) && trace[i + 1][id] == trace[i][id];
      NamesStand(trace, i + 1, j, id);
    }
  }

  /** Where naming counts as a change, two directory components resolve at one instant as well. */
  lemma NamedPathResolvesAtOnce(c: Call, ws: seq<World>, i: nat) returns (j: nat)
    requires IsRun(c, ws) && i < |ws| && ws[i].phase == DONE && |c.selector| == 2 && Named(ws[i].trace)
    ensures j < |ws[i].trace| && Resolves(ws[i].trace[j], c.root, c.selector + [c.base], ws[i].l.dest)
  {
    hide DigestText, IsRun, CreatedKind, FileCommitment, AbsentCommitment, Walked, Named, Resolves, HasLink;
    var t, dir, content := CreateIsExact(c, ws, i);
    var w := ws[i];
    var trace, hops := w.trace, w.l.hops;
    var first := TwoHops(c, trace, w.l.tPost, hops);
    j := hops[0].time;
    ParentStands(c, ws, i, j, t);
    NamesStand(trace, j, t, dir);
    assert LeadsTo(trace[t], first, c.selector[1], dir);
    assert LeadsTo(trace[j], first, c.selector[1], dir);
    ResolvesThree(c, trace[j], first, dir, w.l.dest);
  }

  lemma TwoHops(c: Call, trace: seq<FS>, t: nat, hops: seq<Hop>) returns (first: Id)
    requires Walked(c, trace, t, hops) && |hops| == |c.selector| == 2
    ensures first == hops[0].dir && t <= hops[0].time <= hops[1].time < |trace|
    ensures LeadsTo(trace[hops[0].time], c.root, c.selector[0], first)
    ensures LeadsTo(trace[hops[1].time], first, c.selector[1], hops[1].dir)
  {
    hide HasLink;
    first := hops[0].dir;
    assert HopOk(c, trace, t, hops, 0) && HopOk(c, trace, t, hops, 1);
  }

  /** From its post-effect stat to the last one the parent directory stood still, and held the created file. */
  lemma ParentStands(c: Call, ws: seq<World>, i: nat, from: nat, to: nat)
    requires IsRun(c, ws) && i < |ws| && ws[i].phase == DONE
    requires ws[i].l.tPost <= from <= to && ws[i].l.hops != [] && to == ws[i].l.hops[|ws[i].l.hops| - 1].time
    requires to < |ws[i].trace| && LeadsTo(ws[i].trace[to], Reached(c, ws[i].l), c.base, ws[i].l.dest)
    ensures var trace, dir := ws[i].trace, Reached(c, ws[i].l);
      && dir in trace[from] && (forall k :: from <= k <= to ==> dir in trace[k] && trace[k][dir] == trace[from][dir])
      && LeadsTo(trace[from], dir, c.base, ws[i].l.dest)
  {
    hide FileCommitment, AbsentCommitment, DigestText, CreatedKind, Quiet, Next, Requested, CanFail, ErrorLine,
         Walked, Sound;
    RunKeeps(c, ws, i);
    var l, trace := ws[i].l, ws[i].trace;
    LastHop(c, trace, l.tPost, l.hops);
    forall k | l.tPost <= k <= to ensures l.parent in trace[k] && trace[k][l.parent] == trace[l.tPost][l.parent] {
      SameStatSameInode(trace, l.tCreated, l.tPost, k, l.tEnd, l.parent);
    }
    SameIdentity(trace[l.tLast], l.last, trace[l.tCreated], l.dest);
    SameStatSameInode(trace, l.tCreated, l.tCreated, from, l.tLast, l.dest);
  }

  lemma ResolvesThree(c: Call, fs: FS, first: Id, dir: Id, target: Id)
    requires |c.selector| == 2 && LeadsTo(fs, c.root, c.selector[0], first)
    requires LeadsTo(fs, first, c.selector[1], dir) && LeadsTo(fs, dir, c.base, target)
    ensures Resolves(fs, c.root, c.selector + [c.base], target)
  {
    hide HasLink;
    var path := c.selector + [c.base];
    assert path[1..][0] == c.selector[1] && path[1..][1..] == [] + [c.base];
    ResolvesOne(fs, dir, [], c.base);
  }

  // ---- What a failure says.

  /** The helper itself changed the file system in this step. */
  ghost predicate OwnEffect(w: World, w': World)
    requires w.trace != [] && w'.trace != []
  {
    !EnvironmentStep(w, w') && Now(w') != Now(w)
  }

  /** The helper changed the file system in some step of the run up to `i`. */
  ghost predicate Affected(ws: seq<World>, i: nat)
    requires i < |ws| && forall k :: 0 <= k < |ws| ==> ws[k].trace != []
  {
    exists k :: 0 <= k < i && OwnEffect(ws[k], ws[k + 1])
  }

  /** Before the creation the helper only looks. */
  lemma BeforeCreateLooks(c: Call, w: World, w': World)
    requires w.trace != [] && w.phase < CREATE && BeforeCreate(c, w, w')
    ensures w'.trace != [] && Now(w') == Now(w) && w.phase <= w'.phase <= CREATE
  {
    hide HasLink, AbsentCommitment, Requested, IsDirectory;
  }

  /** The creation is a change of the helper's own. */
  lemma CreationShows(c: Call, w: World, w': World)
    requires w.trace != [] && w.phase == CREATE && CreateStep(c, w, w')
    ensures w'.trace != [] && Now(w') != Now(w) && w'.phase > CREATE
  {
    hide SoundInode;
    var id, x, p :| MakeFile(c, w, w', id, x, p);
    assert id in Now(w') && id !in Now(w);
  }

  /** After it no step leads back. */
  lemma NoWayBack(c: Call, w: World, w': World)
    requires w.trace != [] && w.phase > CREATE && HelperStep(c, w, w')
    ensures w'.phase > CREATE
  {
    hide HasLink, FileCommitment, DigestText, CreatedKind, SoundInode, WriteAt, IsRegular, IsDirectory, Reached,
         BindStep;
    if w.phase > STAT_HELD { BindOnlyBinds(c, w, w'); }
  }

  lemma StepBeforeCopy(c: Call, w: World, w': World)
    requires w.trace != [] && w'.trace != [] && Next(c, w, w')
    ensures w.phase > CREATE ==> w'.phase > CREATE
    ensures w'.phase <= CREATE ==> !OwnEffect(w, w')
    ensures w.phase <= CREATE < w'.phase ==> OwnEffect(w, w')
  {
    hide BeforeCreate, CreateStep, WriteStep, VerifyStep, CaptureStep, BindStep, Sound, Later, CanFail, ErrorLine;
    if EnvironmentStep(w, w') || FailStep(w, w') {
      assert w'.phase == w.phase;
    } else if w.phase < CREATE {
      BeforeCreateLooks(c, w, w');
    } else if w.phase == CREATE {
      CreationShows(c, w, w');
    } else {
      NoWayBack(c, w, w');
    }
  }

  /** The helper has changed the file system exactly when it is past the creation. */
  lemma {:induction false} AffectedIff(c: Call, ws: seq<World>, i: nat)
    requires IsRun(c, ws) && i < |ws|
    ensures Affected(ws, i) <==> ws[i].phase > CREATE
  {
    hide Next, OwnEffect;
    if i > 0 {
      AffectedIff(c, ws, i - 1);
      assert Next(c, ws[i - 1], ws[i - 1 + 1]);
      StepBeforeCopy(c, ws[i - 1], ws[i]);
      if Affected(ws, i - 1) {
        var k :| 0 <= k < i - 1 && OwnEffect(ws[k], ws[k + 1]);
        assert Affected(ws, i);
      }
      if Affected(ws, i) {
        var k :| 0 <= k < i && OwnEffect(ws[k], ws[k + 1]);
        if k < i - 1 { assert Affected(ws, i - 1); }
      }
      if ws[i - 1].phase <= CREATE < ws[i].phase { assert OwnEffect(ws[i - 1], ws[i - 1 + 1]); }
    }
  }

  /**
   * Every failure exits with 10 or 20, and with 20 exactly when its line is an uncertain one; after an exit with 10 no
   * step of the helper has changed the file system, and a run that prints OK has changed it.
   */
  lemma FailuresAreClassified(c: Call, ws: seq<World>, i: nat)
    requires IsRun(c, ws) && i < |ws|
    ensures ws[i].exit in {RUNNING, 10, 20} && (ws[i].exit == RUNNING <==> ws[i].err == [])
    ensures ws[i].exit == 20 <==> UncertainPrefix() <= ws[i].err
    ensures ws[i].exit == 20 <==> ws[i].exit != RUNNING && ws[i].phase >= CREATE
    ensures ws[i].exit == 10 ==> !Affected(ws, i)
    ensures ws[i].phase == DONE ==> Affected(ws, i)
    ensures Unicode.AllAscii(ws[i].err)
  {
    hide DigestText, CreatedKind, FileCommitment, AbsentCommitment, Walked, Quiet, CanFail, ErrorLine, Requested,
         Next, Affected, UncertainPrefix, Absent, Made, CreatedSeen, ParentSeen, ContentSeen, Bound;
    RunKeeps(c, ws, i);
    AffectedIff(c, ws, i);
    var w := ws[i];
    if w.exit == RUNNING {
      PrefixIsLong();
    } else {
      var f :| CanFail(w.phase, f) && w.err == ErrorLine(w.l.started, f);
      UncertainIff(w.l.started, f);
      FailureIsAscii(w.phase, f);
      LineIsAscii(w.l.started, f);
      EarlyIsCertain(w.phase, f);
      LineIsLong(w.l.started, f);
    }
  }

  lemma PrefixIsLong()
    ensures !(UncertainPrefix() <= []) && Unicode.AllAscii([])
  {
  }

  lemma LineIsLong(started: bool, f: Failure)
    ensures ErrorLine(started, f) != []
  {
  }

  /** Nothing before the effect calls itself uncertain. */
  lemma EarlyIsCertain(phase: nat, f: Failure)
    requires CanFail(phase, f)
    ensures f.code.Uncertain? ==> phase >= CREATE
  {
  }
}
