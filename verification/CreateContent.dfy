/** What the create protocol writes: the octets on standard input, however its reads and writes are cut. */
module CreateContent {
  import opened Bytes
  import opened CreateProtocol
  import opened Commitment

  /** A step of the helper itself. */
  ghost predicate OwnStep(c: Call, w: World, w': World)
    requires w.trace != []
  {
    w.exit == RUNNING && (HelperStep(c, w, w') || FailStep(w, w'))
  }

  /** The created file, if there is one, keeps its content. */
  predicate Untouched(w: World, w': World)
    requires w.trace != [] && w'.trace != []
  {
    w.phase >= COPY && w.l.dest in Now(w) ==> w.l.dest in Now(w') && Now(w')[w.l.dest].body == Now(w)[w.l.dest].body
  }

  /** Other writers may do anything but change the content of the created file. */
  ghost predicate LeftAlone(c: Call, ws: seq<World>)
    requires IsRun(c, ws)
  {
    forall i :: 0 <= i < |ws| - 1 ==> OwnStep(c, ws[i], ws[i + 1]) || Untouched(ws[i], ws[i + 1])
  }

  /** The created file holds what has been written so far, and all of the input from then on. */
  predicate Holds(c: Call, w: World)
    requires w.trace != []
  {
    && (w.phase <= CREATE ==> w.l.consumed == 0 && w.l.written == 0)
    && (w.phase >= COPY ==> w.l.dest in Now(w))
    && (w.phase == COPY ==>
          && w.l.written <= w.l.consumed <= |c.stdin| && w.l.consumed <= c.contentBytes
          && Now(w)[w.l.dest].body == Regular(c.stdin[..w.l.written]))
    && (w.phase > COPY ==> Now(w)[w.l.dest].body == Regular(c.stdin))
  }

  /** Writing the next octets of the input behind the ones before them. */
  lemma WriteAppends(s: seq<byte>, written: nat, n: nat)
    requires written + n <= |s|
    ensures WriteAt(s[..written], written, s[written..written + n]) == s[..written + n]
  {
    assert s[..written] + s[written..written + n] == s[..written + n];
  }

  lemma BeforeCreateHolds(c: Call, w: World, w': World)
    requires w.trace != [] && w'.trace != [] && Holds(c, w) && w.phase < CREATE && BeforeCreate(c, w, w')
    ensures Holds(c, w')
  {
    hide HasLink, AbsentCommitment, Requested, IsDirectory;
  }

  lemma CreateHolds(c: Call, w: World, w': World)
    requires w.trace != [] && w'.trace != [] && Holds(c, w) && w.phase == CREATE && CreateStep(c, w, w')
    ensures Holds(c, w')
  {
    hide SoundInode;
    var id, x, p :| MakeFile(c, w, w', id, x, p);
    assert c.stdin[..0] == [];
  }

  lemma WriteHolds(c: Call, w: World, w': World)
    requires w.trace != [] && w'.trace != [] && Holds(c, w) && COPY <= w.phase <= CHMOD && WriteStep(c, w, w')
    ensures Holds(c, w')
  {
    hide SoundInode, WriteAt, OwnChange;
    if w.phase == COPY {
      if n: nat, x: Inode :| WriteSome(c, w, w', n, x) {
        WriteAppends(c.stdin, w.l.written, n);
      } else if InputDone(c, w, w') {
        assert c.stdin[..|c.stdin|] == c.stdin;
      }
    }
  }

  /** After the write the helper only looks. */
  lemma LooksAfterwards(c: Call, w: World, w': World)
    requires w.trace != [] && w'.trace != [] && w.phase > CHMOD && HelperStep(c, w, w')
    ensures Now(w') == Now(w) && w'.phase > CHMOD && w'.l.dest == w.l.dest
  {
    hide HasLink, FileCommitment, DigestText, CreatedKind, IsRegular, IsDirectory, Reached, BindStep;
    if w.phase > STAT_HELD { BindOnlyBinds(c, w, w'); }
  }

  lemma StepHolds(c: Call, w: World, w': World)
    requires w.trace != [] && w'.trace != [] && Holds(c, w) && Next(c, w, w')
    requires OwnStep(c, w, w') || Untouched(w, w')
    ensures Holds(c, w')
  {
    hide BeforeCreate, CreateStep, WriteStep, VerifyStep, CaptureStep, BindStep, Sound, Later, CanFail;
    if !OwnStep(c, w, w') || FailStep(w, w') {
      assert w'.phase == w.phase && w'.l == w.l;
    } else if w.phase < CREATE {
      BeforeCreateHolds(c, w, w');
    } else if w.phase == CREATE {
      CreateHolds(c, w, w');
    } else if w.phase <= CHMOD {
      WriteHolds(c, w, w');
    } else {
      LooksAfterwards(c, w, w');
    }
  }

  lemma {:induction false} RunHolds(c: Call, ws: seq<World>, i: nat)
    requires IsRun(c, ws) && LeftAlone(c, ws) && i < |ws|
    ensures Holds(c, ws[i])
  {
    hide Next, OwnStep, Untouched, Sound;
    if i > 0 {
      RunHolds(c, ws, i - 1);
      assert Next(c, ws[i - 1], ws[i - 1 + 1]);
      StepHolds(c, ws[i - 1], ws[i]);
    }
  }

  /**
   * Unless another writer changes it, the created file holds the octets on standard input from the end of the copy on,
   * and during the copy those written so far, never more than were announced, however reads and writes were cut and
   * wherever the run has failed.
   */
  lemma InputIsWritten(c: Call, ws: seq<World>, i: nat)
    requires IsRun(c, ws) && LeftAlone(c, ws) && i < |ws| && ws[i].phase >= COPY
    ensures var w := ws[i];
      && w.l.dest in Now(w)
      && (w.phase >= CHMOD ==> Now(w)[w.l.dest].body == Regular(c.stdin))
      && (w.phase == COPY ==>
            && w.l.written <= |c.stdin| && w.l.written <= c.contentBytes
            && Now(w)[w.l.dest].body == Regular(c.stdin[..w.l.written]))
  {
    hide Next, LeftAlone;
    RunHolds(c, ws, i);
  }

  // ---- The content at the instant of the binding.

  /** Every step adds one instant. */
  lemma StepAppends(c: Call, w: World, w': World)
    requires w.trace != [] && w'.trace != [] && Next(c, w, w')
    ensures w'.trace == w.trace + [Now(w')]
  {
    hide HasLink, FileCommitment, AbsentCommitment, DigestText, CreatedKind, IsRegular, IsDirectory, Reached, BindStep,
         SoundInode, WriteAt, Requested, CanFail, Sound, Later;
    if HelperStep(c, w, w') && w.phase > STAT_HELD { BindOnlyBinds(c, w, w'); }
  }

  /** The trace of a world is the file systems of the worlds before it. */
  lemma {:induction false} TraceIsHistory(c: Call, ws: seq<World>, i: nat, k: nat)
    requires IsRun(c, ws) && k <= i < |ws|
    ensures |ws[i].trace| == i + 1 && ws[i].trace[k] == Now(ws[k])
  {
    hide Next, Sound;
    if i > 0 {
      TraceIsHistory(c, ws, i - 1, if k < i then k else 0);
      assert Next(c, ws[i - 1], ws[i - 1 + 1]);
      StepAppends(c, ws[i - 1], ws[i]);
    }
  }

  /** Up to the mode change the helper has not looked at the created file. */
  lemma EarlyStep(c: Call, w: World, w': World)
    requires w.trace != [] && w'.trace != [] && w.phase <= CHMOD && HelperStep(c, w, w')
    ensures w'.phase < STAT_ENTRY
  {
    hide HasLink, AbsentCommitment, DigestText, IsDirectory, Reached, SoundInode, WriteAt, Requested, VerifyStep,
         CaptureStep, BindStep;
  }

  /** Once it has, that file and the instant of the look stay the same. */
  lemma LaterStep(c: Call, w: World, w': World)
    requires w.trace != [] && w'.trace != [] && w.phase > CHMOD && HelperStep(c, w, w')
    ensures w.phase >= STAT_ENTRY ==> w'.phase >= STAT_ENTRY && w'.l.tCreated == w.l.tCreated
    ensures w.phase < STAT_ENTRY <= w'.phase ==> w'.l.tCreated == |w.trace|
  {
    hide HasLink, FileCommitment, DigestText, CreatedKind, IsRegular, IsDirectory, Reached, BindStep;
    if w.phase > STAT_HELD { BindOnlyBinds(c, w, w'); }
  }

  lemma StepSettles(c: Call, w: World, w': World)
    requires w.trace != [] && w'.trace != [] && Next(c, w, w')
    ensures w.phase >= STAT_ENTRY ==> w'.phase >= STAT_ENTRY && w'.l.dest == w.l.dest && w'.l.tCreated == w.l.tCreated
    ensures w.phase < STAT_ENTRY <= w'.phase ==> w'.l.tCreated == |w.trace|
  {
    hide HelperStep, CanFail, Sound, Later;
    if HelperStep(c, w, w') {
      if w.phase <= CHMOD {
        EarlyStep(c, w, w');
      } else {
        LooksAfterwards(c, w, w');
        LaterStep(c, w, w');
      }
    }
  }

  lemma {:induction false} Settled(c: Call, ws: seq<World>, j: nat, i: nat)
    requires IsRun(c, ws) && j <= i < |ws| && ws[j].phase >= STAT_ENTRY
    ensures ws[i].phase >= STAT_ENTRY && ws[i].l.dest == ws[j].l.dest && ws[i].l.tCreated == ws[j].l.tCreated
    decreases i
  {
    hide Next, Sound;
    if j < i {
      Settled(c, ws, j, i - 1);
      assert Next(c, ws[i - 1], ws[i - 1 + 1]);
      StepSettles(c, ws[i - 1], ws[i]);
    }
  }

  /** The recorded instant of that look is the one at which the run got past it. */
  lemma {:induction false} LookIsDated(c: Call, ws: seq<World>, i: nat)
    requires IsRun(c, ws) && i < |ws| && ws[i].phase >= STAT_ENTRY
    ensures ws[i].l.tCreated <= i && ws[ws[i].l.tCreated].phase >= STAT_ENTRY
  {
    hide Next, Sound;
    if i > 0 {
      TraceIsHistory(c, ws, i - 1, 0);
      assert Next(c, ws[i - 1], ws[i - 1 + 1]);
      StepSettles(c, ws[i - 1], ws[i]);
      if ws[i - 1].phase >= STAT_ENTRY { LookIsDated(c, ws, i - 1); }
    }
  }

  /** A run that prints OK and was left alone has bound the octets on standard input: no two files need differ in digest. */
  lemma LeftAloneInstallsInput(c: Call, ws: seq<World>, i: nat) returns (j: nat, dir: Id)
    requires IsRun(c, ws) && LeftAlone(c, ws) && i < |ws| && ws[i].phase == DONE
    ensures j <= i && WasReached(c, ws[i], j, dir) && WasAbsent(c, ws[i], dir)
    ensures Installed(Now(ws[j]), dir, c.base, ws[i].l.dest, c.stdin)
    ensures ws[i].l.post == FileCommitment(c.rootStat, c.path, Now(ws[j])[ws[i].l.dest].stat, DigestText(c.stdin))
  {
    hide Next, LeftAlone, Sound, DigestText, FileCommitment, AbsentCommitment, CreatedKind, Walked, HasLink, WasReached,
         WasAbsent, Holds;
    var content;
    j, dir, content := CreateIsExact(c, ws, i);
    TraceIsHistory(c, ws, i, 0);
    TraceIsHistory(c, ws, i, j);
    LookIsDated(c, ws, i);
    Settled(c, ws, ws[i].l.tCreated, j);
    Settled(c, ws, j, i);
    RunHolds(c, ws, j);
    HoldsInput(c, ws[j]);
  }

  lemma HoldsInput(c: Call, w: World)
    requires w.trace != [] && Holds(c, w) && w.phase > COPY
    ensures w.l.dest in Now(w) && Now(w)[w.l.dest].body == Regular(c.stdin)
  {
  }
}
