/** Runs of the create protocol that exist: it can succeed, and a long selector is not walked at one instant. */
module CreateWitness {
  import opened Bytes
  import opened Commitment
  import opened Tree
  import opened CreateProtocol
  import opened HelperLimits
  import CreateContent
  import Hex
  import Selector
  import Sha256Spec
  import Splitting

  /** A step of the file system as a kernel takes it. Only with two directory components is naming not a change. */
  ghost predicate KernelStep(c: Call, a: FS, b: FS) { Ticks(a, b) && (|c.selector| != 2 ==> Names(a, b)) }

  ghost predicate Kernel(c: Call, trace: seq<FS>) { forall k :: 0 <= k < |trace| - 1 ==> KernelStep(c, trace[k],
                         trace[k + 1]) }

  ghost predicate Ends(c: Call, ws: seq<World>, w: World) {
    IsRun(c, ws) && ws[|ws| - 1] == w && w.exit == RUNNING && Kernel(c, w.trace)
  }

  lemma KernelGrows(c: Call, trace: seq<FS>, fs: FS)
    requires Kernel(c, trace) && trace != [] && KernelStep(c, trace[|trace| - 1], fs)
    ensures Kernel(c, trace + [fs])
  {
    hide KernelStep;
    var more := trace + [fs];
    forall k | 0 <= k < |more| - 1 ensures KernelStep(c, more[k], more[k + 1]) {
      if k < |trace| - 1 { assert KernelStep(c, trace[k], trace[k + 1]); }
    }
  }

  lemma NothingHappens(c: Call, fs: FS)
    ensures KernelStep(c, fs, fs)
  {
  }

  lemma KernelIsClocked(c: Call, trace: seq<FS>)
    requires Kernel(c, trace)
    ensures Clocked(trace) && (|c.selector| != 2 ==> Named(trace))
  {
    hide Ticks, Names;
    forall k | 0 <= k < |trace| - 1 ensures KernelStep(c, trace[k], trace[k + 1]) {
    }
  }

  lemma Advance(c: Call, ws: seq<World>, w: World, w': World) returns (more: seq<World>)
    requires Ends(c, ws, w) && w.trace != [] && w'.exit == RUNNING && HelperStep(c, w, w')
    requires w'.trace != [] && w'.trace == w.trace + [Now(w')] && KernelStep(c, Now(w), Now(w'))
    ensures Ends(c, more, w')
  {
    hide HelperStep, Init, EnvironmentStep, KernelStep, Kernel, FailStep;
    KernelGrows(c, w.trace, Now(w'));
    more := ws + [w'];
    assert Next(c, w, w');
    forall i | 0 <= i < |more| - 1 ensures Next(c, more[i], more[i + 1]) {
      if i < |ws| - 1 { assert Next(c, ws[i], ws[i + 1]); }
    }
  }

  function RootStat(tick: i64): Stat { Stat(1, 1, 0x41c0, 2, 0, 0, 0, tick, 0, tick, 0) }

  function FileStat(size: nat, mtime: i64, ctime: i64): Stat
    requires size <= MAX_CONTENT_BYTES
  {
    Stat(1, 2, 0x8180, 1, 0, 0, size, mtime, 0, ctime, 0)
  }

  function Before(): FS { map[Id(1, 1) := Inode(RootStat(0), Directory(map[]))] }

  /** The file with this content; it was created at time 1, last written at `mtime` and changed at `ctime`. */
  function After(base: Name, content: seq<byte>, mtime: i64, ctime: i64): FS
    requires |content| <= MAX_CONTENT_BYTES
  {
    map[Id(1, 1) := Inode(RootStat(1), Directory(map[base := Id(1, 2)])),
        Id(1, 2) := Inode(FileStat(|content|, mtime, ctime), Regular(content))]
  }

  lemma FileAppears(c: Call, base: Name)
    ensures KernelStep(c, Before(), After(base, [], 1, 1))
  {
  }

  lemma FileChanges(c: Call, base: Name, content: seq<byte>, mtime: i64, ctime: i64, content': seq<byte>, mtime': i64,
                    ctime': i64)
    requires |content| <= MAX_CONTENT_BYTES && |content'| <= MAX_CONTENT_BYTES && 1 <= ctime < ctime'
    ensures KernelStep(c, After(base, content, mtime, ctime), After(base, content', mtime', ctime'))
  {
  }

  /** A path of one component. */
  predicate OneName(base: Name) { Selector.HelperAccepts(base) && SLASH !in base }

  predicate Plain(base: Name, content: seq<byte>) { OneName(base) && |content| <= MAX_CONTENT_BYTES }

  /** The creation of a file with this content directly below the root. */
  function PlainCreate(base: Name, content: seq<byte>): Call
    requires Plain(base, content)
  {
    Call(Id(1, 1), RootStat(0), [], base, base, AbsentCommitment(RootStat(0), base, RootStat(0)), DigestText(content),
         |content|, content)
  }

  lemma CommitmentsAreDigests(preimage: seq<byte>)
    ensures Hex.IsLowercaseDigest(DigestText(preimage))
  {
    hide Sha256Spec.Sha256;
    Hex.DigestIsLowercase(Sha256Spec.Sha256(preimage));
  }

  /** The commitment of an absent state and the digest of a content pass the checks of `main`. */
  lemma DigestsPass(root: Stat, path: text, parent: Stat, content: seq<byte>)
    ensures Hex.IsLowercaseDigest(AbsentCommitment(root, path, parent)) && Hex.IsLowercaseDigest(DigestText(content))
  {
    hide Sha256Spec.Sha256, DigestText, Encode, Hex.IsLowercaseDigest;
    CommitmentsAreDigests(Encode(AbsentItems(root, path, parent)));
    CommitmentsAreDigests(content);
  }

  lemma PlainCreateIsRequested(base: Name, content: seq<byte>)
    requires Plain(base, content)
    ensures Requested(PlainCreate(base, content))
  {
    hide AbsentCommitment, DigestText, Hex.IsLowercaseDigest, Splitting.Split;
    Splitting.SplitNone<byte>(base, SLASH);
    DigestsPass(RootStat(0), base, RootStat(0), content);
  }

  /** Uninitialized variables hold something; here they hold this. */
  function Blank(): Locals {
    Locals([], Id(0, 0), RootStat(0), [], false, Id(0, 0), 0, 0, RootStat(0), RootStat(0), Id(0, 0), Id(0, 0), RootStat(0), [], [],
           Id(0, 0), Id(0, 0), 0, 0, 0, 0, 0, 0, 0, 0, 0)
  }

  /** The world after a step that only looks. */
  function Seen(w: World, phase: nat, l: Locals): World
    requires w.trace != []
  {
    World(w.trace + [Now(w)], phase, l, w.exit, w.err)
  }

  lemma OneWorld(c: Call, w: World)
    requires Init(c, w)
    ensures Ends(c, [w], w)
  {
  }

  lemma EndsRunning(c: Call, ws: seq<World>, w: World)
    requires Ends(c, ws, w)
    ensures w.exit == RUNNING
  {
  }

  /** One more look, with the world it leads to. */
  lemma Look(c: Call, ws: seq<World>, w: World, phase: nat, l: Locals) returns (vs: seq<World>, v: World)
    requires w.trace != [] && Ends(c, ws, w) && HelperStep(c, w, Seen(w, phase, l))
    ensures v == Seen(w, phase, l) && Ends(c, vs, v) && Now(v) == Now(w)
  {
    hide HelperStep, KernelStep, Ends;
    v := Seen(w, phase, l);
    EndsRunning(c, ws, w);
    NothingHappens(c, Now(w));
    vs := Advance(c, ws, w, v);
  }

  /** A run of the plain creation that stands at `w`, in the file system `fs`. */
  ghost predicate Stands(base: Name, content: seq<byte>, ws: seq<World>, w: World, phase: nat, fs: FS) {
    && Plain(base, content) && Ends(PlainCreate(base, content), ws, w)
    && w.phase == phase && w.trace != [] && Now(w) == fs
  }

  lemma UpToCreate(base: Name, content: seq<byte>, l: Locals) returns (ws: seq<World>, w: World)
    requires Plain(base, content) && l.hops == [] && !l.started && l.consumed == 0 && l.written == 0
    ensures Stands(base, content, ws, w, CREATE, Before())
    ensures w.l.parent == Id(1, 1) && w.l.parentStat == RootStat(0) && w.l.hops == []
    ensures w.l.consumed == 0 && w.l.written == 0
  {
    hide AbsentCommitment, FileCommitment, DigestText, Ends, Requested;
    var c := PlainCreate(base, content);
    w := World([Before()], CHECK, l, RUNNING, []);
    ws := [w];
    OneWorld(c, w);
    PlainCreateIsRequested(base, content);
    ws, w := Look(c, ws, w, WALK_PARENT, w.l);
    ws, w := Look(c, ws, w, STAT_PARENT, w.l.(parent := Id(1, 1)));
    ws, w := Look(c, ws, w, LOOK_ABSENT, w.l.(parentStat := RootStat(0), tParent := Instant(w)));
    ws, w := Look(c, ws, w, STAT_PARENT_AGAIN, w.l.(tAbsent := Instant(w)));
    ws, w := Look(c, ws, w, CREATE, w.l.(pre := c.expected, started := true));
  }

  lemma UpToCopy(base: Name, content: seq<byte>, ws: seq<World>, w: World) returns (vs: seq<World>, v: World)
    requires Stands(base, content, ws, w, CREATE, Before())
    requires w.l.parent == Id(1, 1) && w.l.parentStat == RootStat(0) && w.l.consumed == 0 && w.l.written == 0
    ensures Stands(base, content, vs, v, COPY, After(base, [], 1, 1)) && v.l.consumed == 0 && v.l.written == 0
    ensures v.l.parent == Id(1, 1) && v.l.parentStat == RootStat(0) && v.l.dest == Id(1, 2)
  {
    hide AbsentCommitment, FileCommitment, DigestText, Ends, KernelStep;
    var c, fs := PlainCreate(base, content), After(base, [], 1, 1);
    FileAppears(c, base);
    EndsRunning(c, ws, w);
    var x, p := fs[Id(1, 2)], fs[Id(1, 1)];
    v := World(w.trace + [fs], COPY, w.l.(dest := Id(1, 2), tMade := Instant(w)), RUNNING, w.err);
    assert Before()[Id(1, 2) := x][Id(1, 1) := p] == fs;
    assert MakeFile(c, w, v, Id(1, 2), x, p);
    vs := Advance(c, ws, w, v);
  }

  /** The state of the copy after `k` octets, the last of them written at time `tick`. */
  ghost predicate Copying(base: Name, content: seq<byte>, ws: seq<World>, w: World, k: nat, tick: i64) {
    && k <= |content| && 1 <= tick <= 1 + k && Plain(base, content)
    && Stands(base, content, ws, w, COPY, After(base, content[..k], tick, tick))
    && w.l.written == k && w.l.consumed <= |content|
    && w.l.parent == Id(1, 1) && w.l.parentStat == RootStat(0) && w.l.dest == Id(1, 2)
  }

  /** One read of standard input and one write of all that was read. */
  lemma CopyPiece(base: Name, content: seq<byte>, ws: seq<World>, w: World, k: nat, tick: i64, n: nat)
    returns (vs: seq<World>, v: World)
    requires Copying(base, content, ws, w, k, tick) && w.l.consumed == k && 0 < n <= BUFFER && k + n <= |content|
    ensures Copying(base, content, vs, v, k + n, tick + 1) && v.l.consumed == k + n
  {
    hide AbsentCommitment, FileCommitment, DigestText, Ends, KernelStep, WriteAt;
    var c := PlainCreate(base, content);
    var l := w.l.(consumed := k + n);
    assert TakeInput(c, w, Seen(w, COPY, l), n);
    vs, v := Look(c, ws, w, COPY, l);
    CreateContent.WriteAppends(content, k, n);
    var fs, more := After(base, content[..k], tick, tick), After(base, content[..k + n], tick + 1, tick + 1);
    FileChanges(c, base, content[..k], tick, tick, content[..k + n], tick + 1, tick + 1);
    EndsRunning(c, vs, v);
    var x := more[Id(1, 2)];
    assert fs[Id(1, 2) := x] == more;
    var u := World(v.trace + [more], COPY, v.l.(written := k + n), RUNNING, v.err);
    assert WriteSome(c, v, u, n, x);
    vs := Advance(c, vs, v, u);
    v := u;
  }

  lemma {:induction false} CopyAll(base: Name, content: seq<byte>, ws: seq<World>, w: World, k: nat, tick: i64)
    returns (vs: seq<World>, v: World, tick': i64)
    requires Copying(base, content, ws, w, k, tick) && w.l.consumed == k
    ensures Copying(base, content, vs, v, |content|, tick') && v.l.consumed == |content|
    decreases |content| - k
  {
    hide Copying;
    CopyBounds(base, content, ws, w, k, tick);
    vs, v, tick' := ws, w, tick;
    if k < |content| {
      var n := if |content| - k < BUFFER then |content| - k else BUFFER;
      vs, v := CopyPiece(base, content, ws, w, k, tick, n);
      vs, v, tick' := CopyAll(base, content, vs, v, k + n, tick + 1);
    }
  }

  lemma CopyBounds(base: Name, content: seq<byte>, ws: seq<World>, w: World, k: nat, tick: i64)
    requires Copying(base, content, ws, w, k, tick)
    ensures k <= |content| <= MAX_CONTENT_BYTES && tick <= 1 + k
  {
    hide Stands;
  }

  lemma UpToStat(base: Name, content: seq<byte>, ws: seq<World>, w: World, tick: i64) returns (vs: seq<World>, v: World)
    requires Copying(base, content, ws, w, |content|, tick) && w.l.consumed == |content|
    ensures Stands(base, content, vs, v, STAT_CREATED, After(base, content, tick, tick + 1))
    ensures v.l.parent == Id(1, 1) && v.l.parentStat == RootStat(0) && v.l.dest == Id(1, 2)
  {
    hide AbsentCommitment, FileCommitment, DigestText, Ends, KernelStep;
    var c := PlainCreate(base, content);
    assert content[..|content|] == content;
    var fs, done := After(base, content, tick, tick), After(base, content, tick, tick + 1);
    assert InputDone(c, w, Seen(w, CHMOD, w.l));
    vs, v := Look(c, ws, w, CHMOD, w.l);
    FileChanges(c, base, content, tick, tick, content, tick, tick + 1);
    EndsRunning(c, vs, v);
    var y := done[Id(1, 2)];
    var u := World(v.trace + [done], STAT_CREATED, v.l, RUNNING, v.err);
    assert fs[Id(1, 2) := y] == done;
    assert SetMode(c, v, u, y);
    vs := Advance(c, vs, v, u);
    v := u;
  }

  /** What is known of the locals between the first look at the file and the last. */
  predicate Watching(w: World, m: Stat) {
    && w.l.parent == Id(1, 1) && w.l.dest == Id(1, 2) && w.l.created == m && w.l.postParent == RootStat(1)
    && w.l.visible == Id(1, 1) && w.l.child == Id(1, 2)
  }

  lemma UpToHeld(base: Name, content: seq<byte>, ws: seq<World>, w: World, mtime: i64, ctime: i64)
    returns (vs: seq<World>, v: World)
    requires Plain(base, content) && Stands(base, content, ws, w, STAT_CREATED, After(base, content, mtime, ctime))
    requires w.l.parent == Id(1, 1) && w.l.parentStat == RootStat(0) && w.l.dest == Id(1, 2)
    ensures Stands(base, content, vs, v, STAT_BEFORE, After(base, content, mtime, ctime))
    ensures Watching(v, FileStat(|content|, mtime, ctime))
  {
    hide AbsentCommitment, FileCommitment, DigestText, Ends;
    var c, m := PlainCreate(base, content), FileStat(|content|, mtime, ctime);
    vs, v := Look(c, ws, w, STAT_ENTRY, w.l.(created := m, tCreated := Instant(w)));
    vs, v := Look(c, vs, v, STAT_POST, v.l);
    vs, v := Look(c, vs, v, WALK_VISIBLE, v.l.(postParent := RootStat(1), tPost := Instant(v), hops := []));
    vs, v := Look(c, vs, v, STAT_VISIBLE, v.l.(visible := Id(1, 1)));
    vs, v := Look(c, vs, v, OPEN_CHILD, v.l);
    vs, v := Look(c, vs, v, STAT_BEFORE, v.l.(child := Id(1, 2)));
  }

  ghost predicate Hashing(base: Name, content: seq<byte>, ws: seq<World>, w: World, mtime: i64, ctime: i64, k: nat) {
    && k <= |content| && Plain(base, content)
    && Stands(base, content, ws, w, HASH, After(base, content, mtime, ctime))
    && Watching(w, FileStat(|content|, mtime, ctime)) && w.l.before == FileStat(|content|, mtime, ctime)
    && w.l.read == content[..k]
  }

  lemma {:induction false} HashAll(base: Name, content: seq<byte>, ws: seq<World>, w: World, mtime: i64, ctime: i64,
                                   k: nat)
    returns (vs: seq<World>, v: World)
    requires Hashing(base, content, ws, w, mtime, ctime, k)
    ensures Hashing(base, content, vs, v, mtime, ctime, |content|)
    decreases |content| - k
  {
    hide Hashing;
    HashBounds(base, content, ws, w, mtime, ctime, k);
    vs, v := ws, w;
    if k < |content| {
      var n := if |content| - k < BUFFER then |content| - k else BUFFER;
      vs, v := HashPiece(base, content, ws, w, mtime, ctime, k, n);
      vs, v := HashAll(base, content, vs, v, mtime, ctime, k + n);
    }
  }

  lemma HashBounds(base: Name, content: seq<byte>, ws: seq<World>, w: World, mtime: i64, ctime: i64, k: nat)
    requires Hashing(base, content, ws, w, mtime, ctime, k)
    ensures k <= |content|
  {
    hide Stands, Watching;
  }

  lemma HashPiece(base: Name, content: seq<byte>, ws: seq<World>, w: World, mtime: i64, ctime: i64, k: nat, n: nat)
    returns (vs: seq<World>, v: World)
    requires Hashing(base, content, ws, w, mtime, ctime, k) && 0 < n <= BUFFER && k + n <= |content|
    ensures Hashing(base, content, vs, v, mtime, ctime, k + n)
  {
    hide AbsentCommitment, FileCommitment, DigestText, Ends;
    var c := PlainCreate(base, content);
    assert content[..k] + content[k..k + n] == content[..k + n];
    var l := w.l.(read := content[..k + n]);
    assert ReadSome(w, Seen(w, HASH, l), n);
    vs, v := Look(c, ws, w, HASH, l);
  }

  lemma UpToBinding(base: Name, content: seq<byte>, ws: seq<World>, w: World, mtime: i64, ctime: i64)
    returns (vs: seq<World>, v: World)
    requires Plain(base, content) && Stands(base, content, ws, w, STAT_BEFORE, After(base, content, mtime, ctime))
    requires Watching(w, FileStat(|content|, mtime, ctime))
    ensures Stands(base, content, vs, v, PARENT_STABLE, After(base, content, mtime, ctime))
    ensures Watching(v, FileStat(|content|, mtime, ctime)) && v.l.before == FileStat(|content|, mtime, ctime)
  {
    hide AbsentCommitment, FileCommitment, DigestText, Ends;
    var c, m := PlainCreate(base, content), FileStat(|content|, mtime, ctime);
    vs, v := Look(c, ws, w, HASH, w.l.(before := m, read := [], tBefore := Instant(w)));
    vs, v := HashAll(base, content, vs, v, mtime, ctime, 0);
    assert v.l.read == content;
    vs, v := Look(c, vs, v, STAT_AFTER, v.l);
    vs, v := Look(c, vs, v, STAT_HELD, v.l.(post := FileCommitment(c.rootStat, c.path, v.l.before, DigestText(v.l.read))));
    vs, v := Look(c, vs, v, PARENT_STABLE, v.l);
  }

  lemma UpToDone(base: Name, content: seq<byte>, ws: seq<World>, w: World, mtime: i64, ctime: i64)
    returns (vs: seq<World>, v: World)
    requires Plain(base, content) && Stands(base, content, ws, w, PARENT_STABLE, After(base, content, mtime, ctime))
    requires Watching(w, FileStat(|content|, mtime, ctime)) && w.l.before == FileStat(|content|, mtime, ctime)
    ensures Stands(base, content, vs, v, DONE, After(base, content, mtime, ctime)) && v.l.dest == Id(1, 2)
  {
    hide AbsentCommitment, FileCommitment, DigestText, Ends;
    var c := PlainCreate(base, content);
    vs, v := Look(c, ws, w, VISIBLE_STABLE, w.l);
    vs, v := Look(c, vs, v, WALK_FINAL, v.l.(hops := []));
    vs, v := Look(c, vs, v, STAT_FINAL, v.l.(final := Id(1, 1)));
    vs, v := Look(c, vs, v, OPEN_LAST, v.l);
    vs, v := Look(c, vs, v, STAT_LAST, v.l.(last := Id(1, 2), tOpen := Instant(v)));
    vs, v := Look(c, vs, v, PARENT_STABLE_2, v.l.(tLast := Instant(v)));
    vs, v := Look(c, vs, v, VISIBLE_STABLE_2, v.l);
    vs, v := Look(c, vs, v, FINAL_STABLE, v.l);
    vs, v := Look(c, vs, v, DONE, v.l.(tEnd := Instant(v)));
  }

  /**
   * The guarantees of a finished run are not empty: for every name and every content within the limit there is a run
   * that prints OK, and leaves a file with that content under that name.
   */
  lemma CreateCanSucceed(base: Name, content: seq<byte>) returns (ws: seq<World>)
    requires Plain(base, content)
    ensures ws != [] && IsRun(PlainCreate(base, content), ws)
    ensures var w := ws[|ws| - 1];
      && w.phase == DONE && w.exit == RUNNING && Clocked(w.trace) && Named(w.trace) && w.trace != []
      && Installed(Now(w), Id(1, 1), base, w.l.dest, content)
  {
    hide PlainCreate, Before, After, Init, Next, Kernel, Clocked, Named, Copying, Installed, OneName;
    var w, tick;
    ws, w := UpToCreate(base, content, Blank());
    ws, w := UpToCopy(base, content, ws, w);
    CopyStarts(base, content, ws, w);
    ws, w, tick := CopyAll(base, content, ws, w, 0, 1);
    CopyBounds(base, content, ws, w, |content|, tick);
    ws, w := UpToStat(base, content, ws, w, tick);
    ws, w := UpToHeld(base, content, ws, w, tick, tick + 1);
    ws, w := UpToBinding(base, content, ws, w, tick, tick + 1);
    ws, w := UpToDone(base, content, ws, w, tick, tick + 1);
    KernelIsClocked(PlainCreate(base, content), w.trace);
    NoSelector(base, content);
    AfterInstalls(base, content, tick, tick + 1);
  }

  lemma CopyStarts(base: Name, content: seq<byte>, ws: seq<World>, w: World)
    requires Stands(base, content, ws, w, COPY, After(base, [], 1, 1)) && w.l.consumed == 0 && w.l.written == 0
    requires w.l.parent == Id(1, 1) && w.l.parentStat == RootStat(0) && w.l.dest == Id(1, 2)
    ensures Copying(base, content, ws, w, 0, 1)
  {
    hide Ends;
    assert content[..0] == [];
  }

  lemma AfterInstalls(base: Name, content: seq<byte>, mtime: i64, ctime: i64)
    requires |content| <= MAX_CONTENT_BYTES
    ensures Installed(After(base, content, mtime, ctime), Id(1, 1), base, Id(1, 2), content)
  {
  }

  lemma NoSelector(base: Name, content: seq<byte>)
    requires Plain(base, content)
    ensures PlainCreate(base, content).selector == []
  {
    hide AbsentCommitment, DigestText, OneName;
  }

  // ---- Two or more directory components: OK without any instant at which the path resolved.

  /** A selector of at least two components, and few enough that its directories can have distinct inode numbers. */
  predicate Long(c: Call) { 2 <= |c.selector| < TWO_64 - 2 }

  function Dir(k: nat): Id
    requires k < TWO_64 - 1
  {
    Id(1, k + 1)
  }

  function Parent(c: Call): Id
    requires Long(c)
  {
    Dir(|c.selector|)
  }

  function Leaf(c: Call): Id
    requires Long(c)
  {
    Id(1, |c.selector| + 2)
  }

  function DirStat(ino: u64, tick: i64): Stat { Stat(1, ino, 0x41c0, 2, 0, 0, 0, tick, 0, tick, 0) }

  /** The file is not there, created at time 3, or has its mode set at time 4. */
  function CreationTime(stage: nat): i64 { if stage == 0 then 0 else if stage == 1 then 3 else 4 }

  function LeafStat(c: Call, stage: nat): Stat
    requires Long(c)
  {
    Stat(1, |c.selector| + 2, 0x8180, 1, 0, 0, 0, 3, 0, CreationTime(stage), 0)
  }

  function ParentStat(c: Call, stage: nat): Stat
    requires Long(c)
  {
    DirStat(|c.selector| + 1, if stage == 0 then 0 else 3)
  }

  /**
   * The entries of the k-th directory on the way. Either the root holds the first component and the directory behind
   * it is empty, or that directory holds the second one and the root is empty; all later ones are always there.
   */
  function Links(c: Call, up: bool, stage: nat, k: nat): map<Name, Id>
    requires Long(c) && k <= |c.selector|
  {
    if k == 0 then (if up then map[c.selector[0] := Dir(1)] else map[])
    else if k == 1 then (if up then map[] else map[c.selector[1] := Dir(2)])
    else if k < |c.selector| then map[c.selector[k] := Dir(k + 1)]
    else if stage > 0 then map[c.base := Leaf(c)] else map[]
  }

  /** The directories that other writers rename, or rename others in and out of. */
  predicate Moving(c: Call, k: nat) { k < 2 || k == 2 < |c.selector| }

  function DirNode(c: Call, up: bool, tick: i64, stage: nat, k: nat): Inode
    requires Long(c) && k <= |c.selector|
  {
    var stat := if Moving(c, k) then DirStat(k + 1, tick) else if k < |c.selector| then DirStat(k + 1, 0) else ParentStat(c, stage);
    Inode(stat, Directory(Links(c, up, stage, k)))
  }

  function LeafNode(c: Call, stage: nat): Inode
    requires Long(c)
  {
    Inode(LeafStat(c, stage), Regular([]))
  }

  /** The directories on the way. */
  ghost function Ids(n: nat): (r: set<Id>)
    requires n < TWO_64 - 2
    ensures forall id :: id in r <==> id.dev == 1 && 1 <= id.ino <= n + 1
  {
    if n == 0 then {Dir(0)} else Ids(n - 1) + {Dir(n)}
  }

  ghost function Scene(c: Call, up: bool, tick: i64, stage: nat): FS
    requires Long(c)
  {
    var dirs := map id | id in Ids(|c.selector|) :: DirNode(c, up, tick, stage, id.ino - 1);
    if stage > 0 then dirs[Leaf(c) := LeafNode(c, stage)] else dirs
  }

  lemma SceneDir(c: Call, up: bool, tick: i64, stage: nat, k: nat)
    requires Long(c) && k <= |c.selector|
    ensures Dir(k) in Scene(c, up, tick, stage) && Scene(c, up, tick, stage)[Dir(k)] == DirNode(c, up, tick, stage, k)
    ensures Dir(k) != Leaf(c)
  {
    hide DirNode, LeafNode;
  }

  lemma SceneLeaf(c: Call, up: bool, tick: i64, stage: nat)
    requires Long(c)
    ensures Leaf(c) in Scene(c, up, tick, stage) <==> stage > 0
    ensures stage > 0 ==> Scene(c, up, tick, stage)[Leaf(c)] == LeafNode(c, stage)
  {
    hide DirNode, LeafNode;
  }

  lemma SceneKey(c: Call, up: bool, tick: i64, stage: nat, id: Id) returns (k: nat)
    requires Long(c) && id in Scene(c, up, tick, stage) && id != Leaf(c)
    ensures k <= |c.selector| && id == Dir(k)
  {
    hide DirNode, LeafNode;
    k := id.ino - 1;
  }

  ghost predicate IsScene(c: Call, fs: FS)
    requires Long(c)
  {
    exists up, tick: i64, stage: nat :: fs == Scene(c, up, tick, stage)
  }

  lemma SceneNeverResolves(c: Call, fs: FS, target: Id)
    requires Long(c) && IsScene(c, fs)
    ensures !Resolves(fs, Dir(0), c.selector + [c.base], target)
  {
    hide Scene;
    var path: seq<Name> := c.selector + [c.base];
    var up, tick: i64, stage: nat :| fs == Scene(c, up, tick, stage);
    assert path[0] == c.selector[0] && path[1..][0] == c.selector[1];
    SceneDir(c, up, tick, stage, 0);
    SceneDir(c, up, tick, stage, 1);
    assert !up ==> !HasLink(fs, Dir(0), path[0]);
    assert up ==> HasLink(fs, Dir(0), path[0]) && Link(fs, Dir(0), path[0]) == Dir(1) && !HasLink(fs, Dir(1), path[1..][0]);
  }

  lemma SceneSound(c: Call, up: bool, tick: i64, stage: nat)
    requires Long(c)
    ensures Sound(Scene(c, up, tick, stage))
  {
    hide Scene, Links;
    forall id | id in Scene(c, up, tick, stage) ensures SoundInode(id, Scene(c, up, tick, stage)[id]) {
      SceneLeaf(c, up, tick, stage);
      if id != Leaf(c) {
        var k := SceneKey(c, up, tick, stage, id);
        SceneDir(c, up, tick, stage, k);
      }
    }
  }

  /** What a scene holds under an identity. */
  lemma SceneHolds(c: Call, up: bool, tick: i64, stage: nat, id: Id) returns (k: nat)
    requires Long(c) && id in Scene(c, up, tick, stage)
    ensures k <= |c.selector| + 1
    ensures k <= |c.selector| ==> id == Dir(k) && Scene(c, up, tick, stage)[id] == DirNode(c, up, tick, stage, k)
    ensures k == |c.selector| + 1 ==> id == Leaf(c) && stage > 0 && Scene(c, up, tick, stage)[id] == LeafNode(c, stage)
  {
    hide Scene, DirNode, LeafNode;
    SceneLeaf(c, up, tick, stage);
    if id == Leaf(c) {
      k := |c.selector| + 1;
    } else {
      k := SceneKey(c, up, tick, stage, id);
      SceneDir(c, up, tick, stage, k);
    }
  }

  /** One scene after another: only the clock, the two moves and the creation make a difference. */
  predicate Follows(up: bool, tick: i64, stage: nat, up': bool, tick': i64, stage': nat) {
    || (up' == !up && stage' == stage && tick < tick' && CreationTime(stage) < tick')
    || (up' == up && tick' == tick < 3 && stage' == stage + 1 <= 2)
  }

  /** The change time of what stands under an identity never goes back, and does not exceed the clock. */
  lemma SceneTimes(c: Call, up: bool, tick: i64, stage: nat, id: Id)
    requires Long(c) && id in Scene(c, up, tick, stage) && tick >= 0
    ensures var m := Scene(c, up, tick, stage)[id].stat;
      m.ctimeNsec == 0 && (m.ctimeSec == tick || 0 <= m.ctimeSec <= CreationTime(stage))
  {
    hide Scene, Links;
    var k := SceneHolds(c, up, tick, stage, id);
  }

  lemma SceneTicks(c: Call, up: bool, tick: i64, stage: nat, up': bool, tick': i64, stage': nat)
    requires Long(c) && tick >= 0 && Follows(up, tick, stage, up', tick', stage')
    ensures Ticks(Scene(c, up, tick, stage), Scene(c, up', tick', stage'))
    ensures stage' == stage ==> Later(Scene(c, up, tick, stage), Scene(c, up', tick', stage'))
  {
    hide Scene;
    var a, b := Scene(c, up, tick, stage), Scene(c, up', tick', stage');
    forall id | id in b ensures (id in a && b[id] == a[id]) || forall x :: x in a ==> ClockBefore(a[x].stat, b[id].stat) {
      if !(id in a && b[id] == a[id]) {
        SceneChanges(c, up, tick, stage, up', tick', stage', id);
        forall x | x in a ensures ClockBefore(a[x].stat, b[id].stat) { SceneTimes(c, up, tick, stage, x); }
      }
    }
    if stage' == stage {
      forall id | id in a ensures id in b && Aged(a[id], b[id]) {
        SceneStays(c, up, tick, stage, up', tick', id);
        if b[id] != a[id] {
          SceneChanges(c, up, tick, stage, up', tick', stage', id);
          SceneTimes(c, up, tick, stage, id);
        }
      }
    }
  }

  lemma SceneStays(c: Call, up: bool, tick: i64, stage: nat, up': bool, tick': i64, id: Id)
    requires Long(c) && id in Scene(c, up, tick, stage)
    ensures id in Scene(c, up', tick', stage)
  {
    hide Scene, DirNode, LeafNode;
    var k := SceneHolds(c, up, tick, stage, id);
    SceneLeaf(c, up', tick', stage);
    if k <= |c.selector| { SceneDir(c, up', tick', stage, k); }
  }

  /** Whatever is new or different bears the new time. */
  lemma SceneChanges(c: Call, up: bool, tick: i64, stage: nat, up': bool, tick': i64, stage': nat, id: Id)
    requires Long(c) && Follows(up, tick, stage, up', tick', stage') && id in Scene(c, up', tick', stage')
    requires id !in Scene(c, up, tick, stage) || Scene(c, up, tick, stage)[id] != Scene(c, up', tick', stage')[id]
    ensures var m := Scene(c, up', tick', stage')[id].stat;
      m.ctimeNsec == 0 && m.ctimeSec == if stage' == stage then tick' else CreationTime(stage')
  {
    hide Scene;
    var k := SceneHolds(c, up', tick', stage', id);
    SceneLeaf(c, up, tick, stage);
    if k <= |c.selector| { SceneDir(c, up, tick, stage, k); }
  }

  /** With three or more directory components everything that a move names anew is changed by it. */
  lemma SceneNames(c: Call, up: bool, tick: i64, stage: nat, up': bool, tick': i64, stage': nat)
    requires Long(c) && |c.selector| >= 3 && Follows(up, tick, stage, up', tick', stage')
    ensures Names(Scene(c, up, tick, stage), Scene(c, up', tick', stage'))
  {
    hide Scene, LeadsTo;
    var a, b := Scene(c, up, tick, stage), Scene(c, up', tick', stage');
    forall id, dir, name | id in a && id in b && a[id] == b[id]
      ensures LeadsTo(a, dir, name, id) <==> LeadsTo(b, dir, name, id) {
      if LeadsTo(a, dir, name, id) { SceneLink(c, up, tick, stage, up', tick', stage', dir, name, id); }
      if LeadsTo(b, dir, name, id) { SceneLinkBack(c, up, tick, stage, up', tick', stage', dir, name, id); }
    }
    forall id | id in a && id in b && a[id] == b[id] ensures SameNames(a, b, id) {
      assert forall dir, name :: LeadsTo(a, dir, name, id) <==> LeadsTo(b, dir, name, id);
    }
  }

  /** Only the directory before it holds a directory, and only the parent the file. */
  lemma WhoLeads(c: Call, up: bool, tick: i64, stage: nat, dir: Id, name: Name, id: Id) returns (k: nat)
    requires Long(c) && LeadsTo(Scene(c, up, tick, stage), dir, name, id)
    ensures k <= |c.selector| && dir == Dir(k) && name in Links(c, up, stage, k) && Links(c, up, stage, k)[name] == id
    ensures id == if k < |c.selector| then Dir(k + 1) else Leaf(c)
  {
    hide Scene;
    k := SceneHolds(c, up, tick, stage, dir);
  }

  lemma SceneLink(c: Call, up: bool, tick: i64, stage: nat, up': bool, tick': i64, stage': nat, dir: Id, name: Name,
                  id: Id)
    requires Long(c) && |c.selector| >= 3 && Follows(up, tick, stage, up', tick', stage')
    requires id in Scene(c, up, tick, stage) && id in Scene(c, up', tick', stage')
    requires Scene(c, up, tick, stage)[id] == Scene(c, up', tick', stage')[id] && LeadsTo(Scene(c, up, tick, stage), dir, name, id)
    ensures LeadsTo(Scene(c, up', tick', stage'), dir, name, id)
  {
    hide Scene;
    var k := WhoLeads(c, up, tick, stage, dir, name, id);
    SceneDir(c, up', tick', stage', k);
    if k < |c.selector| {
      SceneDir(c, up, tick, stage, k + 1);
      SceneDir(c, up', tick', stage', k + 1);
    }
    assert Links(c, up', stage', k) == Links(c, up, stage, k);
  }

  lemma SceneLinkBack(c: Call, up: bool, tick: i64, stage: nat, up': bool, tick': i64, stage': nat, dir: Id,
                      name: Name, id: Id)
    requires Long(c) && |c.selector| >= 3 && Follows(up, tick, stage, up', tick', stage')
    requires id in Scene(c, up, tick, stage) && id in Scene(c, up', tick', stage')
    requires Scene(c, up, tick, stage)[id] == Scene(c, up', tick', stage')[id] && LeadsTo(Scene(c, up', tick', stage'), dir, name, id)
    ensures LeadsTo(Scene(c, up, tick, stage), dir, name, id)
  {
    hide Scene;
    var k := WhoLeads(c, up', tick', stage', dir, name, id);
    SceneDir(c, up, tick, stage, k);
    SceneLeaf(c, up, tick, stage);
    if k < |c.selector| {
      SceneDir(c, up, tick, stage, k + 1);
      SceneDir(c, up', tick', stage', k + 1);
    }
    assert Links(c, up', stage', k) == Links(c, up, stage, k);
  }

  lemma SceneKernel(c: Call, up: bool, tick: i64, stage: nat, up': bool, tick': i64, stage': nat)
    requires Long(c) && tick >= 0 && Follows(up, tick, stage, up', tick', stage')
    ensures KernelStep(c, Scene(c, up, tick, stage), Scene(c, up', tick', stage'))
  {
    hide Scene, Ticks, Names, Later;
    SceneTicks(c, up, tick, stage, up', tick', stage');
    if |c.selector| >= 3 { SceneNames(c, up, tick, stage, up', tick', stage'); }
  }

  ghost predicate Staged(c: Call, ws: seq<World>, w: World, up: bool, tick: i64, stage: nat) {
    && Long(c) && c.root == Dir(0)
    && Ends(c, ws, w) && w.trace != [] && w.exit == RUNNING && Now(w) == Scene(c, up, tick, stage)
    && forall j :: 0 <= j < |w.trace| ==> IsScene(c, w.trace[j])
  }

  lemma ScenesAre(c: Call, up: bool, tick: i64, stage: nat)
    requires Long(c)
    ensures IsScene(c, Scene(c, up, tick, stage))
  {
    hide Scene;
  }

  lemma StagedLook(c: Call, ws: seq<World>, w: World, up: bool, tick: i64, stage: nat, phase: nat, l: Locals)
    returns (vs: seq<World>, v: World)
    requires Staged(c, ws, w, up, tick, stage) && HelperStep(c, w, Seen(w, phase, l))
    ensures v == Seen(w, phase, l) && Staged(c, vs, v, up, tick, stage)
  {
    hide HelperStep, Ends, Scene, IsScene;
    vs, v := Look(c, ws, w, phase, l);
  }

  /** Another writer renames the first component away and the second in, or back, at a later time. */
  lemma Flip(c: Call, ws: seq<World>, w: World, up: bool, tick: i64, stage: nat, tick': i64) returns (vs: seq<World>,
             v: World)
    requires 0 <= tick < tick' && CreationTime(stage) < tick' && Staged(c, ws, w, up, tick, stage)
    ensures v.phase == w.phase && v.l == w.l && Staged(c, vs, v, !up, tick', stage)
  {
    hide Scene, Sound, Later, HelperStep, Init, IsScene, Kernel, KernelStep, FailStep, Ticks;
    var fs := Scene(c, !up, tick', stage);
    SceneSound(c, !up, tick', stage);
    SceneTicks(c, up, tick, stage, !up, tick', stage);
    SceneKernel(c, up, tick, stage, !up, tick', stage);
    KernelGrows(c, w.trace, fs);
    ScenesAre(c, !up, tick', stage);
    v := w.(trace := w.trace + [fs]);
    vs := ws + [v];
    assert EnvironmentStep(w, v);
    forall i | 0 <= i < |vs| - 1 ensures Next(c, vs[i], vs[i + 1]) {
      if i < |ws| - 1 { assert Next(c, ws[i], ws[i + 1]); }
    }
  }

  predicate Walking(phase: nat) { phase in {WALK_PARENT, WALK_VISIBLE, WALK_FINAL} }

  /** The directory reached after `k` components. */
  predicate At(l: Locals, k: nat) { |l.hops| == k && (k > 0 ==> k < TWO_64 - 1 && l.hops[k - 1].dir == Dir(k)) }

  lemma OneHop(c: Call, ws: seq<World>, w: World, up: bool, tick: i64, stage: nat, k: nat) returns (vs: seq<World>,
               v: World)
    requires Staged(c, ws, w, up, tick, stage) && Walking(w.phase) && At(w.l, k) && k < |c.selector|
    requires (k == 0 ==> up) && (k == 1 ==> !up)
    ensures Staged(c, vs, v, up, tick, stage) && v.phase == w.phase && At(v.l, k + 1) && v.l == w.l.(hops := v.l.hops)
  {
    hide AbsentCommitment, FileCommitment, DigestText, Ends, IsScene, Scene, Staged, Sound;
    StagedNow(c, ws, w, up, tick, stage);
    SceneDir(c, up, tick, stage, k);
    SceneDir(c, up, tick, stage, k + 1);
    var l := w.l.(hops := w.l.hops + [Hop(Dir(k + 1), Instant(w))]);
    assert WalkHop(c, w, Seen(w, w.phase, l));
    vs, v := StagedLook(c, ws, w, up, tick, stage, w.phase, l);
  }

  lemma StagedNow(c: Call, ws: seq<World>, w: World, up: bool, tick: i64, stage: nat)
    requires Staged(c, ws, w, up, tick, stage)
    ensures Long(c) && c.root == Dir(0) && w.trace != [] && Now(w) == Scene(c, up, tick, stage) && w.exit == RUNNING
  {
    hide Scene;
  }

  lemma {:induction false} RemainingHops(c: Call, ws: seq<World>, w: World, tick: i64, stage: nat, k: nat)
    returns (vs: seq<World>, v: World)
    requires Staged(c, ws, w, false, tick, stage) && Walking(w.phase) && At(w.l, k) && 2 <= k <= |c.selector|
    ensures Staged(c, vs, v, false, tick, stage) && v.phase == w.phase && At(v.l, |c.selector|) && v.l == w.l.(hops := v.l.hops)
    decreases |c.selector| - k
  {
    hide Staged, At, Scene;
    if k == |c.selector| {
      vs, v := ws, w;
    } else {
      vs, v := OneHop(c, ws, w, false, tick, stage, k);
      vs, v := RemainingHops(c, vs, v, tick, stage, k + 1);
    }
  }

  /** A walk of the selector during which its first two components are never there together. */
  lemma Detour(c: Call, ws: seq<World>, w: World, tick: i64, stage: nat, tick': i64) returns (vs: seq<World>, v: World)
    requires 0 <= tick < tick' < 90 && CreationTime(stage) < tick'
    requires Staged(c, ws, w, true, tick, stage) && Walking(w.phase) && w.l.hops == []
    ensures Staged(c, vs, v, true, tick' + 1, stage) && v.phase == w.phase && v.l == w.l.(hops := v.l.hops)
    ensures |v.l.hops| == |c.selector| && Reached(c, v.l) == Parent(c)
  {
    hide Staged, Scene, IsScene, Ends;
    StagedNow(c, ws, w, true, tick, stage);
    vs, v := OneHop(c, ws, w, true, tick, stage, 0);
    vs, v := Flip(c, vs, v, true, tick, stage, tick');
    vs, v := OneHop(c, vs, v, false, tick', stage, 1);
    vs, v := RemainingHops(c, vs, v, tick', stage, 2);
    vs, v := Flip(c, vs, v, false, tick', stage, tick' + 1);
  }

  // ---- The run.

  /** The creation of an empty file below a long selector. */
  ghost predicate NestedCall(c: Call) {
    && Long(c) && Requested(c) && c.root == Dir(0) && c.rootStat == DirStat(1, 0)
    && c.expected == AbsentCommitment(c.rootStat, c.path, ParentStat(c, 0))
    && c.contentSha == DigestText([]) && c.contentBytes == 0 && c.stdin == []
  }

  /** What looking at the parent and the file shows. */
  lemma SceneShows(c: Call, up: bool, tick: i64, stage: nat)
    requires Long(c)
    ensures var fs := Scene(c, up, tick, stage);
      && Parent(c) in fs
      && fs[Parent(c)] == Inode(ParentStat(c, stage), Directory(if stage > 0 then map[c.base := Leaf(c)] else map[]))
      && (stage > 0 ==> HasLink(fs, Parent(c), c.base) && Link(fs, Parent(c), c.base) == Leaf(c))
      && (Leaf(c) in fs <==> stage > 0) && (stage > 0 ==> fs[Leaf(c)] == LeafNode(c, stage))
    ensures IsDirectory(ParentStat(c, stage)) && CreatedKind(LeafStat(c, stage)) && IsRegular(LeafStat(c, stage))
    ensures LeafStat(c, stage).size == 0
  {
    hide Scene;
    SceneDir(c, up, tick, stage, |c.selector|);
    SceneLeaf(c, up, tick, stage);
  }

  lemma NestedUpToCreate(c: Call, l: Locals) returns (ws: seq<World>, w: World)
    requires NestedCall(c) && l.hops == [] && !l.started && l.consumed == 0 && l.written == 0
    ensures Staged(c, ws, w, true, 2, 0) && w.phase == CREATE
    ensures w.l.parent == Parent(c) && w.l.parentStat == ParentStat(c, 0) && w.l.consumed == 0 && w.l.written == 0
  {
    hide AbsentCommitment, FileCommitment, DigestText, Staged, Scene, Parent, ParentStat, IsDirectory, Requested;
    w := World([Scene(c, true, 0, 0)], CHECK, l, RUNNING, []);
    ws := [w];
    StagedFirst(c, w);
    ws, w := StagedLook(c, ws, w, true, 0, 0, WALK_PARENT, w.l);
    ws, w := Detour(c, ws, w, 0, 0, 1);
    SceneShows(c, true, 2, 0);
    StagedNow(c, ws, w, true, 2, 0);
    ws, w := StagedLook(c, ws, w, true, 2, 0, STAT_PARENT, w.l.(parent := Parent(c)));
    StagedNow(c, ws, w, true, 2, 0);
    ws, w := StagedLook(c, ws, w, true, 2, 0, LOOK_ABSENT, w.l.(parentStat := ParentStat(c, 0), tParent := Instant(w)));
    StagedNow(c, ws, w, true, 2, 0);
    ws, w := StagedLook(c, ws, w, true, 2, 0, STAT_PARENT_AGAIN, w.l.(tAbsent := Instant(w)));
    StagedNow(c, ws, w, true, 2, 0);
    ws, w := StagedLook(c, ws, w, true, 2, 0, CREATE, w.l.(pre := c.expected, started := true));
  }

  lemma StagedFirst(c: Call, w: World)
    requires Long(c) && c.root == Dir(0)
    requires w.trace == [Scene(c, true, 0, 0)] && w.phase == CHECK && w.exit == RUNNING && w.err == []
    requires w.l.hops == [] && !w.l.started && w.l.consumed == 0 && w.l.written == 0
    ensures Staged(c, [w], w, true, 0, 0)
  {
    hide Scene, IsScene;
    SceneSound(c, true, 0, 0);
    ScenesAre(c, true, 0, 0);
  }

  /** Putting the file into the scene, and setting its mode. */
  lemma SceneGains(c: Call, tick: i64)
    requires Long(c)
    ensures var p := Inode(ParentStat(c, 1), Directory(map[c.base := Leaf(c)]));
      && Scene(c, true, tick, 0)[Leaf(c) := LeafNode(c, 1)][Parent(c) := p] == Scene(c, true, tick, 1)
      && Scene(c, true, tick, 1)[Leaf(c) := LeafNode(c, 2)] == Scene(c, true, tick, 2)
  {
    hide Scene;
    var p := Inode(ParentStat(c, 1), Directory(map[c.base := Leaf(c)]));
    SceneDiffers(c, tick, Scene(c, true, tick, 0)[Leaf(c) := LeafNode(c, 1)][Parent(c) := p], 0, 1);
    SceneDiffers(c, tick, Scene(c, true, tick, 1)[Leaf(c) := LeafNode(c, 2)], 1, 2);
  }

  lemma SceneDiffers(c: Call, tick: i64, a: FS, stage: nat, stage': nat)
    requires Long(c) && stage' == stage + 1 && stage' <= 2
    requires a == if stage == 0
                  then Scene(c, true, tick, 0)[Leaf(c) := LeafNode(c, 1)][Parent(c) := Inode(ParentStat(c, 1), Directory(map[c.base := Leaf(c)]))]
                  else Scene(c, true, tick, 1)[Leaf(c) := LeafNode(c, 2)]
    ensures a == Scene(c, true, tick, stage')
  {
    hide Scene;
    var b := Scene(c, true, tick, stage');
    SceneShows(c, true, tick, stage);
    SceneShows(c, true, tick, stage');
    forall id | id in a ensures id in b && a[id] == b[id] {
      if id != Leaf(c) {
        var k := SceneKey(c, true, tick, stage, id);
        SceneDir(c, true, tick, stage, k);
        SceneDir(c, true, tick, stage', k);
      }
    }
    forall id | id in b ensures id in a {
      if id != Leaf(c) {
        var k := SceneKey(c, true, tick, stage', id);
        SceneDir(c, true, tick, stage, k);
      }
    }
  }

  lemma NestedUpToStat(c: Call, ws: seq<World>, w: World) returns (vs: seq<World>, v: World)
    requires NestedCall(c) && Staged(c, ws, w, true, 2, 0) && w.phase == CREATE
    requires w.l.parent == Parent(c) && w.l.parentStat == ParentStat(c, 0) && w.l.consumed == 0 && w.l.written == 0
    ensures Staged(c, vs, v, true, 2, 2) && v.phase == STAT_CREATED
    ensures v.l.parent == Parent(c) && v.l.parentStat == ParentStat(c, 0) && v.l.dest == Leaf(c)
  {
    hide AbsentCommitment, FileCommitment, DigestText, Ends, IsScene, Scene, Parent, Leaf, KernelStep, Requested,
         Links, ParentStat, LeafStat;
    SceneShows(c, true, 2, 0);
    SceneShows(c, true, 2, 1);
    SceneGains(c, 2);
    SceneNodes(c);
    ParentChanges(c);
    SceneKernel(c, true, 2, 0, true, 2, 1);
    SceneKernel(c, true, 2, 1, true, 2, 2);
    var x, p := LeafNode(c, 1), Inode(ParentStat(c, 1), Directory(map[c.base := Leaf(c)]));
    var w1 := World(w.trace + [Scene(c, true, 2, 1)], COPY, w.l.(dest := Leaf(c), tMade := Instant(w)), RUNNING, w.err);
    assert MakeFile(c, w, w1, Leaf(c), x, p);
    vs := Advance(c, ws, w, w1);
    vs, v := Look(c, vs, w1, CHMOD, w1.l);
    var w2 := World(v.trace + [Scene(c, true, 2, 2)], STAT_CREATED, v.l, RUNNING, v.err);
    assert SetMode(c, v, w2, LeafNode(c, 2));
    vs := Advance(c, vs, v, w2);
    v := w2;
    ScenesAre(c, true, 2, 1);
    ScenesAre(c, true, 2, 2);
  }

  lemma SceneNodes(c: Call)
    requires Long(c)
    ensures NewFile(Leaf(c), LeafNode(c, 1)) && SoundInode(Leaf(c), LeafNode(c, 2)) && LeafNode(c, 2).body == LeafNode(c, 1).body
    ensures forall links :: SoundInode(Parent(c), Inode(ParentStat(c, 1), Directory(links)))
  {
  }

  lemma ParentChanges(c: Call)
    requires Long(c)
    ensures !ClockBefore(ParentStat(c, 1), ParentStat(c, 0)) && !ClockBefore(LeafStat(c, 2), LeafStat(c, 1))
    ensures Parent(c) != Leaf(c)
  {
  }

  lemma NestedUpToBefore(c: Call, ws: seq<World>, w: World) returns (vs: seq<World>, v: World)
    requires Staged(c, ws, w, true, 2, 2) && w.phase == STAT_CREATED
    requires w.l.parent == Parent(c) && w.l.parentStat == ParentStat(c, 0) && w.l.dest == Leaf(c)
    ensures Staged(c, vs, v, true, 6, 2) && v.phase == STAT_BEFORE
    ensures v.l.parent == Parent(c) && v.l.dest == Leaf(c) && v.l.created == LeafStat(c, 2) && v.l.postParent == ParentStat(c, 2)
    ensures v.l.visible == Parent(c) && v.l.child == Leaf(c)
  {
    hide AbsentCommitment, FileCommitment, DigestText, Staged, Scene, Parent, Leaf, ParentStat, LeafStat, HasLink,
         CreatedKind, IsDirectory;
    v, vs := w, ws;
    StagedNow(c, vs, v, true, 2, 2);
    SceneShows(c, true, 2, 2);
    SameParent(c);
    vs, v := StagedLook(c, vs, v, true, 2, 2, STAT_ENTRY, v.l.(created := LeafStat(c, 2), tCreated := Instant(v)));
    StagedNow(c, vs, v, true, 2, 2);
    vs, v := StagedLook(c, vs, v, true, 2, 2, STAT_POST, v.l);
    StagedNow(c, vs, v, true, 2, 2);
    vs, v := StagedLook(c, vs, v, true, 2, 2, WALK_VISIBLE, v.l.(postParent := ParentStat(c, 2), tPost := Instant(v), hops := []));
    vs, v := Detour(c, vs, v, 2, 2, 5);
    SceneShows(c, true, 6, 2);
    StagedNow(c, vs, v, true, 6, 2);
    vs, v := StagedLook(c, vs, v, true, 6, 2, STAT_VISIBLE, v.l.(visible := Parent(c)));
    StagedNow(c, vs, v, true, 6, 2);
    vs, v := StagedLook(c, vs, v, true, 6, 2, OPEN_CHILD, v.l);
    StagedNow(c, vs, v, true, 6, 2);
    vs, v := StagedLook(c, vs, v, true, 6, 2, STAT_BEFORE, v.l.(child := Leaf(c)));
  }

  lemma SameParent(c: Call)
    requires Long(c)
    ensures ParentStat(c, 0).dev == ParentStat(c, 2).dev && ParentStat(c, 0).ino == ParentStat(c, 2).ino
  {
  }

  lemma NestedUpToBinding(c: Call, ws: seq<World>, w: World) returns (vs: seq<World>, v: World)
    requires NestedCall(c) && Staged(c, ws, w, true, 6, 2) && w.phase == STAT_BEFORE
    requires w.l.dest == Leaf(c) && w.l.created == LeafStat(c, 2) && w.l.child == Leaf(c)
    ensures Staged(c, vs, v, true, 6, 2) && v.phase == PARENT_STABLE && v.l.before == LeafStat(c, 2)
    ensures v.l == w.l.(before := v.l.before, read := v.l.read, tBefore := v.l.tBefore, post := v.l.post)
  {
    hide AbsentCommitment, FileCommitment, DigestText, Staged, Scene, Parent, Leaf, Requested;
    v, vs := w, ws;
    StagedNow(c, vs, v, true, 6, 2);
    SceneShows(c, true, 6, 2);
    vs, v := StagedLook(c, vs, v, true, 6, 2, HASH, v.l.(before := LeafStat(c, 2), read := [], tBefore := Instant(v)));
    StagedNow(c, vs, v, true, 6, 2);
    vs, v := StagedLook(c, vs, v, true, 6, 2, STAT_AFTER, v.l);
    StagedNow(c, vs, v, true, 6, 2);
    var post := FileCommitment(c.rootStat, c.path, v.l.before, DigestText(v.l.read));
    vs, v := StagedLook(c, vs, v, true, 6, 2, STAT_HELD, v.l.(post := post));
    StagedNow(c, vs, v, true, 6, 2);
    vs, v := StagedLook(c, vs, v, true, 6, 2, PARENT_STABLE, v.l);
  }

  lemma NestedUpToLast(c: Call, ws: seq<World>, w: World) returns (vs: seq<World>, v: World)
    requires Staged(c, ws, w, true, 6, 2) && w.phase == PARENT_STABLE
    requires w.l.parent == Parent(c) && w.l.postParent == ParentStat(c, 2) && w.l.visible == Parent(c)
    ensures Staged(c, vs, v, true, 8, 2) && v.phase == STAT_LAST && v.l.final == Parent(c) && v.l.last == Leaf(c)
    ensures v.l == w.l.(hops := v.l.hops, final := v.l.final, last := v.l.last, tOpen := v.l.tOpen)
  {
    hide AbsentCommitment, FileCommitment, DigestText, Staged, Scene, Parent, Leaf, ParentStat, HasLink, IsDirectory;
    v, vs := w, ws;
    StagedNow(c, vs, v, true, 6, 2);
    SceneShows(c, true, 6, 2);
    vs, v := StagedLook(c, vs, v, true, 6, 2, VISIBLE_STABLE, v.l);
    StagedNow(c, vs, v, true, 6, 2);
    vs, v := StagedLook(c, vs, v, true, 6, 2, WALK_FINAL, v.l.(hops := []));
    vs, v := Detour(c, vs, v, 6, 2, 7);
    SceneShows(c, true, 8, 2);
    StagedNow(c, vs, v, true, 8, 2);
    vs, v := StagedLook(c, vs, v, true, 8, 2, STAT_FINAL, v.l.(final := Parent(c)));
    StagedNow(c, vs, v, true, 8, 2);
    vs, v := StagedLook(c, vs, v, true, 8, 2, OPEN_LAST, v.l);
    StagedNow(c, vs, v, true, 8, 2);
    vs, v := StagedLook(c, vs, v, true, 8, 2, STAT_LAST, v.l.(last := Leaf(c), tOpen := Instant(v)));
  }

  lemma NestedUpToDone(c: Call, ws: seq<World>, w: World) returns (vs: seq<World>, v: World)
    requires Staged(c, ws, w, true, 8, 2) && w.phase == STAT_LAST && w.l.last == Leaf(c) && w.l.final == Parent(c)
    requires w.l.created == LeafStat(c, 2) && w.l.before == LeafStat(c, 2)
    requires w.l.parent == Parent(c) && w.l.postParent == ParentStat(c, 2) && w.l.visible == Parent(c)
    ensures Staged(c, vs, v, true, 8, 2) && v.phase == DONE
  {
    hide AbsentCommitment, FileCommitment, DigestText, Staged, Scene, Parent, Leaf, ParentStat, HasLink, LeafStat,
         CreatedKind;
    v, vs := w, ws;
    StagedNow(c, vs, v, true, 8, 2);
    SceneShows(c, true, 8, 2);
    vs, v := StagedLook(c, vs, v, true, 8, 2, PARENT_STABLE_2, v.l.(tLast := Instant(v)));
    StagedNow(c, vs, v, true, 8, 2);
    vs, v := StagedLook(c, vs, v, true, 8, 2, VISIBLE_STABLE_2, v.l);
    StagedNow(c, vs, v, true, 8, 2);
    vs, v := StagedLook(c, vs, v, true, 8, 2, FINAL_STABLE, v.l);
    StagedNow(c, vs, v, true, 8, 2);
    vs, v := StagedLook(c, vs, v, true, 8, 2, DONE, v.l.(tEnd := Instant(v)));
  }

  ghost predicate NeverResolves(trace: seq<FS>, root: Id, path: seq<Name>) {
    forall j, target :: 0 <= j < |trace| ==> !Resolves(trace[j], root, path, target)
  }

  /**
   * Path resolution is not atomic: for any two or more directory components there is a run, under one clock, that
   * prints OK although at no instant of it did the whole path resolve to any file. With three or more this happens
   * even where renaming a directory counts as a change of it.
   */
  lemma NestedPathNeedNotResolve(c: Call) returns (ws: seq<World>)
    requires NestedCall(c)
    ensures ws != [] && IsRun(c, ws) && ws[|ws| - 1].phase == DONE && ws[|ws| - 1].exit == RUNNING
    ensures Clocked(ws[|ws| - 1].trace) && (|c.selector| >= 3 ==> Named(ws[|ws| - 1].trace))
    ensures NeverResolves(ws[|ws| - 1].trace, c.root, c.selector + [c.base])
  {
    hide AbsentCommitment, DigestText, Scene, IsScene, Init, Next, Resolves, Kernel, Clocked, Named, Requested;
    var w;
    ws, w := NestedUpToCreate(c, Blank());
    ws, w := NestedUpToStat(c, ws, w);
    ws, w := NestedUpToBefore(c, ws, w);
    ws, w := NestedUpToBinding(c, ws, w);
    ws, w := NestedUpToLast(c, ws, w);
    ws, w := NestedUpToDone(c, ws, w);
    forall j, target | 0 <= j < |w.trace| ensures !Resolves(w.trace[j], Dir(0), c.selector + [c.base], target) {
      SceneNeverResolves(c, w.trace[j], target);
    }
    KernelIsClocked(c, w.trace);
  }

  // ---- Exactly when OK means that the path resolved at one instant.

  /** In this run the whole path led, at one instant, to the file that the run created. */
  ghost predicate ResolvedOnce(c: Call, w: World) {
    exists j :: 0 <= j < |w.trace| && Resolves(w.trace[j], c.root, c.selector + [c.base], w.l.dest)
  }

  ghost predicate PrintsOk(c: Call, ws: seq<World>) { IsRun(c,
                           ws) && ws[|ws| - 1].phase == DONE && Clocked(ws[|ws| - 1].trace) }

  /** For every call with this path, every run under one clock that prints OK had such an instant. */
  ghost predicate AlwaysResolves(path: text) {
    forall c: Call, ws: seq<World> :: c.path == path && PrintsOk(c, ws) ==> ResolvedOnce(c, ws[|ws| - 1])
  }

  /** The same, where linking, unlinking and renaming an inode count as changes of it. */
  ghost predicate AlwaysResolvesNamed(path: text) {
    forall c: Call, ws: seq<World> :: c.path == path && PrintsOk(c, ws) && Named(ws[|ws| - 1].trace) ==> ResolvedOnce(c, ws[|ws| - 1])
  }

  lemma {:induction false} FewComponents(path: seq<byte>)
    ensures |Splitting.Split<byte>(path, SLASH)| <= |path| + 1
    decreases |path|
  {
    hide Splitting.IndexOf;
    var k := Splitting.IndexOf<byte>(path, SLASH);
    if k < |path| { FewComponents(path[k + 1..]); }
  }

  /** A call that creates an empty file under this path, in the scene. */
  lemma CallFor(path: text) returns (c: Call)
    requires Selector.HelperAccepts(path) && |Splitting.Split<byte>(path, SLASH)| > 2
    ensures c.path == path && NestedCall(c) && |c.selector| == |Splitting.Split<byte>(path, SLASH)| - 1
  {
    hide AbsentCommitment, DigestText, Hex.IsLowercaseDigest, Splitting.Split;
    var parts := Splitting.Split<byte>(path, SLASH);
    FewComponents(path);
    var n := |parts| - 1;
    var root, parent := DirStat(1, 0), DirStat(n + 1, 0);
    c := Call(Dir(0), root, parts[..n], parts[n], path, AbsentCommitment(root, path, parent), DigestText([]), 0, []);
    assert parts == parts[..n] + [parts[n]];
    DigestsPass(root, path, parent, []);
  }

  lemma SelectorLength(c: Call, ws: seq<World>)
    requires PrintsOk(c, ws)
    ensures |c.selector| == |Splitting.Split<byte>(c.path, SLASH)| - 1
  {
    hide Next, Splitting.Split, Selector.HelperAccepts, Hex.IsLowercaseDigest, Absent, Made, CreatedSeen, ParentSeen,
         ContentSeen, Bound, Reported, Clocked;
    RunKeeps(c, ws, |ws| - 1);
  }

  /** OK means that the path resolved at one instant exactly for paths with at most one directory component. */
  lemma OneInstantIff(path: text)
    requires Selector.HelperAccepts(path)
    ensures AlwaysResolves(path) <==> |Splitting.Split<byte>(path, SLASH)| <= 2
  {
    hide Next, Init, Resolves, AbsentCommitment, DigestText, Splitting.Split, Selector.HelperAccepts, Clocked, Named,
         Requested;
    if |Splitting.Split<byte>(path, SLASH)| <= 2 {
      forall c: Call, ws: seq<World> | c.path == path && PrintsOk(c, ws) ensures ResolvedOnce(c, ws[|ws| - 1]) {
        SelectorLength(c, ws);
        var j := ShortPathResolvesAtOnce(c, ws, |ws| - 1);
      }
    } else {
      var c := CallFor(path);
      var ws := NestedPathNeedNotResolve(c);
      assert !ResolvedOnce(c, ws[|ws| - 1]);
    }
  }

  /** Where naming an inode counts as a change of it, exactly for paths with at most two directory components. */
  lemma OneInstantNamedIff(path: text)
    requires Selector.HelperAccepts(path)
    ensures AlwaysResolvesNamed(path) <==> |Splitting.Split<byte>(path, SLASH)| <= 3
  {
    hide Next, Init, Resolves, AbsentCommitment, DigestText, Splitting.Split, Selector.HelperAccepts, Clocked, Named,
         Requested;
    if |Splitting.Split<byte>(path, SLASH)| <= 3 {
      forall c: Call, ws: seq<World> | c.path == path && PrintsOk(c, ws) && Named(ws[|ws| - 1].trace)
        ensures ResolvedOnce(c, ws[|ws| - 1]) {
        SelectorLength(c, ws);
        if |c.selector| <= 1 {
          var j := ShortPathResolvesAtOnce(c, ws, |ws| - 1);
        } else {
          var j := NamedPathResolvesAtOnce(c, ws, |ws| - 1);
        }
      }
    } else {
      var c := CallFor(path);
      var ws := NestedPathNeedNotResolve(c);
      assert !ResolvedOnce(c, ws[|ws| - 1]);
    }
  }
}
