/** How the adapter reports failures, and whether a report of "no effect" can be believed. */
module Adapter {
  import opened Bytes
  import opened Commitment
  import opened CreateProtocol
  import opened HelperFailure
  import opened HelperWire
  import opened JsText
  import opened Wrappers
  import CreateWitness
  import Tree
  import Hex
  import Splitting
  import Unicode

  /** How a helper process ended, as the adapter sees it. */
  datatype End =
    | Undispatched                     // a lease, executable or argument check failed before the spawn
    | Broken                           // spawned, then a timeout, an output limit or a pipe error
    | Exited(code: int, signalled: bool, leaseHeld: bool, stderr: seq<byte>, stdout: seq<byte>)

  datatype Report = Done(digests: seq<HelperWire.line>) | Failed(effectMayHaveOccurred: bool)

  /** `stderr.startsWith('ERR\tUNCERTAIN\t')`, after decoding */
  predicate SaysUncertain(stderr: seq<byte>) {
    match Unicode.DecodeText(stderr)
    case None => false
    case Some(text) => UncertainPrefix() <= text
  }

  /** `#invoke` */
  function Invoke(op: Operation, end: End): Report {
    var execute := IsExecute(op);
    match end
    case Undispatched => Failed(false)
    case Broken => Failed(execute)
    case Exited(code, signalled, leaseHeld, stderr, stdout) =>
      if !leaseHeld || Unicode.DecodeText(stderr).None? then Failed(execute)
      else if code != 0 || signalled then Failed(execute || SaysUncertain(stderr))
      else if Unicode.DecodeText(stderr) != Some([]) then Failed(execute)
      else match ParseRecord(stdout, op)
           case None => Failed(execute)
           case Some(ds) => Done(ds)
  }

  /** `requireIdentifier`: a letter or digit, then up to 255 characters of a fixed set. */
  predicate ValidTicket(t: string) {
    && 1 <= |t| <= 256 && Alphanumeric(t[0])
    && forall i :: 1 <= i < |t| ==> Alphanumeric(t[i]) || t[i] in "._:@/-"
  }

  datatype Request = Create(ticket: string) | Replace | Mkdir | Inspect(op: Operation)

  /** The public operations; `checked` says whether scope, selector, content and digest checks passed. */
  function Handle(request: Request, checked: bool, end: End): Report {
    match request
    case Create(ticket) =>
      if !checked then Failed(false)
      else (match Invoke(ExecuteCreate, end)
            case Failed(effect) => Failed(effect)
            // The ticket is checked when the answer is put together, after the helper has run.
            case Done(ds) => if ValidTicket(ticket) then Done(ds) else Failed(false))
    case Replace => Failed(false)
    case Mkdir => Failed(false)
    case Inspect(op) => if checked then Invoke(op, end) else Failed(false)
  }

  /** The ends a run of `execute-create` can have when the helper stands at `w`: success, `fail_with`, or a kill. */
  ghost predicate EndOf(w: World, end: End) {
    match end
    case Undispatched => false
    case Broken => true
    case Exited(code, signalled, _, stderr, stdout) =>
      || signalled
      || (code == 0 && w.phase == DONE && w.exit == RUNNING && stderr == w.err && stdout == PrintRecord([w.l.pre, w.l.post]))
      || (code == w.exit && w.exit != RUNNING && stderr == w.err)
  }

  ghost predicate EndsWith(c: Call, ws: seq<World>, end: End) { IsRun(c, ws) && EndOf(ws[|ws| - 1], end) }

  /** What can happen for a request: how the helper ended, and whether it changed the file system. */
  ghost predicate Possible(request: Request, checked: bool, end: End, affected: bool) {
    if request.Create? && checked && !end.Undispatched? then
      exists c, ws :: EndsWith(c, ws, end) && affected == Affected(ws, |ws| - 1)
    else !affected && (request.Inspect? ==> !IsExecute(request.op))
  }

  /** Every report of "no effect" is true. */
  ghost predicate ReportsAreTrue(request: Request) {
    forall checked, end, affected ::
      Possible(request, checked, end, affected) && Handle(request, checked, end) == Failed(false) ==> !affected
  }

  /**
   * What an exit tells: 0 that the helper changed the file system, 10 that it did not; there is no other status but 20,
   * and 20 goes together with the word UNCERTAIN that the adapter looks for.
   */
  lemma ExitTellsEffect(c: Call, ws: seq<World>, end: End)
    requires EndsWith(c, ws, end) && end.Exited? && !end.signalled
    ensures end.code in {0, 10, 20}
    ensures end.code == 0 ==> Affected(ws, |ws| - 1)
    ensures end.code == 10 ==> !Affected(ws, |ws| - 1)
    ensures end.code == 20 <==> SaysUncertain(end.stderr)
    ensures Unicode.DecodeText(end.stderr).Some? && (end.code == 0 <==> Unicode.DecodeText(end.stderr) == Some([]))
  {
    hide Init, Next, Affected, Unicode.DecodeText, UncertainPrefix;
    FailuresAreClassified(c, ws, |ws| - 1);
    Unicode.AsciiDecodes(end.stderr, end.stderr);
  }

  /**
   * Without a late ticket error a create is reported as effect-free exactly when the helper was never started; an
   * inspection is reported as perhaps effective exactly when a failed helper said so itself.
   */
  lemma NoEffectIff(request: Request, checked: bool, end: End)
    ensures request.Create? && ValidTicket(request.ticket) ==>
      (Handle(request, checked, end) == Failed(false) <==> !checked || end.Undispatched?)
    ensures request.Inspect? && !IsExecute(request.op) ==>
      (Handle(request, checked, end) == Failed(true) <==>
        && checked && end.Exited? && end.leaseHeld && (end.code != 0 || end.signalled) && SaysUncertain(end.stderr))
  {
    hide ParseRecord, ValidTicket, Unicode.DecodeText, UncertainPrefix;
  }

  /** A successful creation whose ticket is then found invalid: reported as having had no effect. */
  lemma InvalidTicketHidesEffect(ticket: string, base: Tree.Name, content: seq<byte>) returns (end: End)
    requires !ValidTicket(ticket) && CreateWitness.Plain(base, content)
    ensures Possible(Create(ticket), true, end, true) && Handle(Create(ticket), true, end) == Failed(false)
  {
    hide Init, Next, ParseRecord, PrintRecord, ValidTicket, Affected, EndOf, CreateWitness.PlainCreate,
         CreateWitness.Plain, Installed, Clocked, Named, Unicode.DecodeText;
    var c := CreateWitness.PlainCreate(base, content);
    var ws := CreateWitness.CreateCanSucceed(base, content);
    FailuresAreClassified(c, ws, |ws| - 1);
    end := SuccessEnd(c, ws);
    assert EndsWith(c, ws, end) && true == Affected(ws, |ws| - 1);
  }

  /** The end of a run that prints OK, as the adapter reads it. */
  lemma SuccessEnd(c: Call, ws: seq<World>) returns (end: End)
    requires IsRun(c, ws) && ws[|ws| - 1].phase == DONE && ws[|ws| - 1].exit == RUNNING
    ensures EndOf(ws[|ws| - 1], end) && Invoke(ExecuteCreate, end).Done? && !end.Undispatched?
  {
    hide Init, Next, ParseRecord, PrintRecord, Unicode.DecodeText, AllDigests, UncertainPrefix, Affected;
    var w := ws[|ws| - 1];
    FailuresAreClassified(c, ws, |ws| - 1);
    PrintedCommitments(c, ws);
    var ds: seq<HelperWire.line> := [w.l.pre, w.l.post];
    var stdout := RecordRoundTrip(ExecuteCreate, ds);
    Unicode.AsciiDecodes([], []);
    end := Exited(0, false, true, [], stdout);
  }

  lemma PrintedCommitments(c: Call, ws: seq<World>)
    requires IsRun(c, ws) && ws[|ws| - 1].phase == DONE
    ensures AllDigests([ws[|ws| - 1].l.pre, ws[|ws| - 1].l.post])
  {
    hide Init, Next, DigestText, Encode, Hex.IsLowercaseDigest, Walked, CreatedKind;
    var j, dir, content := CreateIsExact(c, ws, |ws| - 1);
    var l := ws[|ws| - 1].l;
    var stat := ws[|ws| - 1].trace[j][l.dest].stat;
    CreateWitness.CommitmentsAreDigests(Encode(AbsentItems(c.rootStat, c.path, l.parentStat)));
    CreateWitness.CommitmentsAreDigests(Encode(FileItems(c.rootStat, c.path, stat, DigestText(content))));
  }

  lemma PlainNameExists()
    ensures CreateWitness.Plain([97], [])
  {
    Splitting.SplitNone<byte>([97], SLASH);
  }

  /** For a create request the reports of "no effect" are true exactly when the ticket is valid. */
  lemma CreateReportsAreTrue(ticket: string)
    ensures ReportsAreTrue(Create(ticket)) <==> ValidTicket(ticket)
  {
    hide ValidTicket, EndsWith, ParseRecord, Affected, Unicode.DecodeText;
    if !ValidTicket(ticket) {
      PlainNameExists();
      var end := InvalidTicketHidesEffect(ticket, [97], []);
    }
  }
}
