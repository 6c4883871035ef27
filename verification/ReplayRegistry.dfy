/** The in-memory replay registry: reviews and approval artifacts are consumed at most once. */
module ReplayRegistry {
  import opened Wrappers

  /** A validated challenge; `rest` stands for every other field of its canonical text. */
  datatype Challenge = Challenge(reviewId: string, nonce: string, rest: string)

  datatype Reference = Reference(approvalId: string, nonce: string, digest: string)

  datatype Outcome = Done | Invalid | ReviewCollision | ReviewReplay | UnknownReview | ReviewMismatch | ArtifactReplay

  /** A call with its argument, or with none when the argument does not pass validation. */
  datatype Call =
    | RegisterReview(challenge: Option<Challenge>)
    | ConsumeReview(challenge: Option<Challenge>)
    | ConsumeArtifact(reference: Option<Reference>)

  datatype State = State(
    pending: map<string, Challenge>,
    seenNonces: set<string>,
    consumed: set<string>,
    approvalIds: set<string>,
    approvalNonces: set<string>,
    digests: set<string>)

  const EMPTY: State := State(map[], {}, {}, {}, {}, {})

  // ---- What one call does.

  function OutcomeOf(s: State, call: Call): Outcome {
    match call
    case RegisterReview(None) => Invalid
    case ConsumeReview(None) => Invalid
    case ConsumeArtifact(None) => Invalid
    case RegisterReview(Some(c)) =>
      if c.reviewId in s.pending || c.reviewId in s.consumed || c.nonce in s.seenNonces then ReviewCollision else Done
    case ConsumeReview(Some(c)) =>
      if c.reviewId in s.consumed then ReviewReplay
      else if c.reviewId !in s.pending then UnknownReview
      else if s.pending[c.reviewId] != c then ReviewMismatch
      else Done
    case ConsumeArtifact(Some(a)) =>
      if a.approvalId in s.approvalIds || a.nonce in s.approvalNonces || a.digest in s.digests then ArtifactReplay else Done
  }

  /** A mismatched review is consumed as well. */
  function Next(s: State, call: Call): State {
    match (call, OutcomeOf(s, call))
    case (RegisterReview(Some(c)), Done) =>
      s.(pending := s.pending[c.reviewId := c], seenNonces := s.seenNonces + {c.nonce})
    case (ConsumeReview(Some(c)), Done) =>
      s.(pending := s.pending - {c.reviewId}, consumed := s.consumed + {c.reviewId})
    case (ConsumeReview(Some(c)), ReviewMismatch) =>
      s.(pending := s.pending - {c.reviewId}, consumed := s.consumed + {c.reviewId})
    case (ConsumeArtifact(Some(a)), Done) =>
      s.(approvalIds := s.approvalIds + {a.approvalId}, approvalNonces := s.approvalNonces + {a.nonce}, digests := s.digests + {a.digest})
    case _ => s
  }

  // ---- The class.

  class Registry {
    var pendingReviews: map<string, Challenge>
    var seenReviewNonces: set<string>
    var consumedReviewIds: set<string>
    var consumedApprovalIds: set<string>
    var consumedApprovalNonces: set<string>
    var consumedArtifactDigests: set<string>

    function Value(): State
      reads this
    {
      State(pendingReviews, seenReviewNonces, consumedReviewIds, consumedApprovalIds, consumedApprovalNonces, consumedArtifactDigests)
    }

    constructor ()
      ensures Value() == EMPTY
    {
      pendingReviews, seenReviewNonces, consumedReviewIds := map[], {}, {};
      consumedApprovalIds, consumedApprovalNonces, consumedArtifactDigests := {}, {}, {};
    }

    method Register(challenge: Option<Challenge>) returns (r: Outcome)
      modifies this
      ensures r == OutcomeOf(old(Value()), RegisterReview(challenge))
      ensures Value() == Next(old(Value()), RegisterReview(challenge))
    {
      if challenge.None? { return Invalid; }
      var c := challenge.value;
      if c.reviewId in pendingReviews || c.reviewId in consumedReviewIds || c.nonce in seenReviewNonces {
        return ReviewCollision;
      }
      pendingReviews := pendingReviews[c.reviewId := c];
      seenReviewNonces := seenReviewNonces + {c.nonce};
      return Done;
    }

    method Consume(challenge: Option<Challenge>) returns (r: Outcome)
      modifies this
      ensures r == OutcomeOf(old(Value()), ConsumeReview(challenge))
      ensures Value() == Next(old(Value()), ConsumeReview(challenge))
    {
      if challenge.None? { return Invalid; }
      var c := challenge.value;
      if c.reviewId in consumedReviewIds { return ReviewReplay; }
      if c.reviewId !in pendingReviews { return UnknownReview; }
      var registered := pendingReviews[c.reviewId];
      pendingReviews := pendingReviews - {c.reviewId};
      consumedReviewIds := consumedReviewIds + {c.reviewId};
      if registered != c { return ReviewMismatch; }
      return Done;
    }

    method Artifact(reference: Option<Reference>) returns (r: Outcome)
      modifies this
      ensures r == OutcomeOf(old(Value()), ConsumeArtifact(reference))
      ensures Value() == Next(old(Value()), ConsumeArtifact(reference))
    {
      if reference.None? { return Invalid; }
      var a := reference.value;
      if a.approvalId in consumedApprovalIds || a.nonce in consumedApprovalNonces || a.digest in consumedArtifactDigests {
        return ArtifactReplay;
      }
      consumedApprovalIds := consumedApprovalIds + {a.approvalId};
      consumedApprovalNonces := consumedApprovalNonces + {a.nonce};
      consumedArtifactDigests := consumedArtifactDigests + {a.digest};
      return Done;
    }
  }

  // ---- Runs.

  /** The state after a run of calls with arbitrary arguments. */
  function Run(calls: seq<Call>): State {
    if calls == [] then EMPTY else Next(Run(calls[..|calls| - 1]), calls[|calls| - 1])
  }

  /** What the `i`-th call of a run answered. */
  function Answer(calls: seq<Call>, i: nat): Outcome
    requires i < |calls|
  {
    OutcomeOf(Run(calls[..i]), calls[i])
  }

  predicate Counted(s: State) {
    && s.pending.Keys !! s.consumed
    && |s.seenNonces| == |s.pending| + |s.consumed|
    && |s.approvalIds| == |s.approvalNonces| == |s.digests|
  }

  lemma RegistrationIsCounted(s: State, c: Challenge)
    requires Counted(s) && OutcomeOf(s, RegisterReview(Some(c))) == Done
    ensures Counted(Next(s, RegisterReview(Some(c))))
  {
    var t := Next(s, RegisterReview(Some(c)));
    assert t.pending.Keys == s.pending.Keys + {c.reviewId};
    assert |t.pending.Keys| == |s.pending.Keys| + 1;
  }

  lemma ConsumptionIsCounted(s: State, id: string)
    requires Counted(s) && id in s.pending
    ensures Counted(s.(pending := s.pending - {id}, consumed := s.consumed + {id}))
  {
    var rest := s.pending - {id};
    assert rest.Keys == s.pending.Keys - {id};
    assert |rest.Keys| == |s.pending.Keys| - 1;
  }

  lemma SubmissionIsCounted(s: State, c: Challenge)
    requires Counted(s) && OutcomeOf(s, ConsumeReview(Some(c))) in {Done, ReviewMismatch}
    ensures Counted(Next(s, ConsumeReview(Some(c))))
  {
    ConsumptionIsCounted(s, c.reviewId);
  }

  lemma NextIsCounted(s: State, call: Call)
    requires Counted(s)
    ensures Counted(Next(s, call))
  {
    hide Counted, OutcomeOf;
    match (call, OutcomeOf(s, call)) {
      case (RegisterReview(Some(c)), Done) => RegistrationIsCounted(s, c);
      case (ConsumeReview(Some(c)), Done) => SubmissionIsCounted(s, c);
      case (ConsumeReview(Some(c)), ReviewMismatch) => SubmissionIsCounted(s, c);
      case (ConsumeArtifact(Some(a)), Done) => ArtifactIsCounted(s, a);
      case _ =>
    }
  }

  lemma ArtifactIsCounted(s: State, a: Reference)
    requires Counted(s) && OutcomeOf(s, ConsumeArtifact(Some(a))) == Done
    ensures Counted(Next(s, ConsumeArtifact(Some(a))))
  {
  }

  /** In every run pending and consumed ids are disjoint, nonces count both, and the artifact sets are of one size. */
  lemma {:induction false} RunIsCounted(calls: seq<Call>)
    ensures Counted(Run(calls))
  {
    if calls != [] {
      RunIsCounted(calls[..|calls| - 1]);
      NextIsCounted(Run(calls[..|calls| - 1]), calls[|calls| - 1]);
    }
  }

  // ---- What the answers mean, in terms of the earlier calls and answers alone.

  /** The `i`-th call registered this challenge. */
  ghost predicate Registered(calls: seq<Call>, i: nat, c: Challenge) {
    i < |calls| && calls[i] == RegisterReview(Some(c)) && Answer(calls, i) == Done
  }

  predicate Submits(call: Call,
                    id: string) { call.ConsumeReview? && call.challenge.Some? && call.challenge.value.reviewId == id }

  /** Somebody submitted the review after the `i`-th call, with whatever challenge. */
  ghost predicate SubmittedAfter(calls: seq<Call>, i: nat, id: string) {
    exists m :: i < m < |calls| && Submits(calls[m], id)
  }

  /** The challenge was registered and its review has not been submitted since. */
  ghost predicate Live(calls: seq<Call>, c: Challenge) {
    exists i: nat :: Registered(calls, i, c) && !SubmittedAfter(calls, i, c.reviewId)
  }

  /** A challenge with this id was registered and the review has been submitted since. */
  ghost predicate Spent(calls: seq<Call>, id: string) {
    exists i: nat, c :: Registered(calls, i, c) && c.reviewId == id && SubmittedAfter(calls, i, id)
  }

  ghost predicate NonceUsed(calls: seq<Call>, nonce: string) {
    exists i: nat, c :: Registered(calls, i, c) && c.nonce == nonce
  }

  lemma EarlierAnswer(calls: seq<Call>, i: nat)
    requires i < |calls| - 1
    ensures Answer(calls, i) == Answer(calls[..|calls| - 1], i)
  {
    assert calls[..|calls| - 1][..i] == calls[..i];
  }

  lemma EarlierRegistration(calls: seq<Call>, i: nat, c: Challenge)
    requires i < |calls| - 1
    ensures Registered(calls, i, c) <==> Registered(calls[..|calls| - 1], i, c)
  {
    EarlierAnswer(calls, i);
  }

  lemma SubmittedSnoc(calls: seq<Call>, i: nat, id: string)
    requires i < |calls| - 1
    ensures SubmittedAfter(calls, i, id) <==>
      SubmittedAfter(calls[..|calls| - 1], i, id) || Submits(calls[|calls| - 1], id)
  {
    hide Submits;
    var init := calls[..|calls| - 1];
    if SubmittedAfter(init, i, id) {
      var m :| i < m < |init| && Submits(init[m], id);
      assert calls[m] == init[m];
    }
    if m :| i < m < |calls| && Submits(calls[m], id) {
      if m < |init| { assert init[m] == calls[m]; }
    }
  }

  lemma LiveSnoc(calls: seq<Call>, c: Challenge)
    requires calls != []
    ensures var init, last := calls[..|calls| - 1], calls[|calls| - 1];
      Live(calls, c) <==> (last == RegisterReview(Some(c)) && OutcomeOf(Run(init), last) == Done) || (Live(init, c) && !Submits(last, c.reviewId))
  {
    hide OutcomeOf, Run;
    var init, n := calls[..|calls| - 1], |calls| - 1;
    if i: nat :| Registered(calls, i, c) && !SubmittedAfter(calls, i, c.reviewId) {
      if i < n {
        EarlierRegistration(calls, i, c);
        SubmittedSnoc(calls, i, c.reviewId);
      }
    }
    if i: nat :| Registered(init, i, c) && !SubmittedAfter(init, i, c.reviewId) {
      EarlierRegistration(calls, i, c);
      SubmittedSnoc(calls, i, c.reviewId);
    }
    if calls[n] == RegisterReview(Some(c)) && OutcomeOf(Run(init), calls[n]) == Done {
      assert Registered(calls, n, c);
      assert !SubmittedAfter(calls, n, c.reviewId);
    }
  }

  lemma SpentSnoc(calls: seq<Call>, id: string)
    requires calls != []
    ensures var init, last := calls[..|calls| - 1], calls[|calls| - 1];
      Spent(calls, id) <==> Spent(init, id) || (Submits(last, id) && exists c :: Live(init, c) && c.reviewId == id)
  {
    hide OutcomeOf, Run;
    var init, n := calls[..|calls| - 1], |calls| - 1;
    if i: nat, c :| Registered(calls, i, c) && c.reviewId == id && SubmittedAfter(calls, i, id) {
      EarlierRegistration(calls, i, c);
      SubmittedSnoc(calls, i, id);
      if !SubmittedAfter(init, i, id) { assert Live(init, c); }
    }
    if i: nat, c :| Registered(init, i, c) && c.reviewId == id && SubmittedAfter(init, i, id) {
      EarlierRegistration(calls, i, c);
      SubmittedSnoc(calls, i, id);
    }
    if Submits(calls[n], id) && exists c :: Live(init, c) && c.reviewId == id {
      var c :| Live(init, c) && c.reviewId == id;
      var i: nat :| Registered(init, i, c) && !SubmittedAfter(init, i, c.reviewId);
      EarlierRegistration(calls, i, c);
      SubmittedSnoc(calls, i, id);
    }
  }

  lemma NonceSnoc(calls: seq<Call>, nonce: string)
    requires calls != []
    ensures var init, last := calls[..|calls| - 1], calls[|calls| - 1];
      NonceUsed(calls, nonce) <==>
        NonceUsed(init, nonce) ||
        (last.RegisterReview? && last.challenge.Some? && last.challenge.value.nonce == nonce && OutcomeOf(Run(init), last) == Done)
  {
    hide OutcomeOf, Run;
    var init, n := calls[..|calls| - 1], |calls| - 1;
    if i: nat, c :| Registered(calls, i, c) && c.nonce == nonce {
      if i < n { EarlierRegistration(calls, i, c); }
    }
    if i: nat, c :| Registered(init, i, c) && c.nonce == nonce {
      EarlierRegistration(calls, i, c);
    }
    var last := calls[n];
    if last.RegisterReview? && last.challenge.Some? && last.challenge.value.nonce == nonce && OutcomeOf(Run(init), last) == Done {
      assert Registered(calls, n, last.challenge.value);
    }
  }

  predicate Pending(s: State, c: Challenge) { c.reviewId in s.pending && s.pending[c.reviewId] == c }

  /** The state says of the reviews exactly what the history says. */
  lemma {:induction false} HistoryOfReviews(calls: seq<Call>, c: Challenge)
    ensures Pending(Run(calls), c) <==> Live(calls, c)
    ensures c.reviewId in Run(calls).consumed <==> Spent(calls, c.reviewId)
    ensures c.nonce in Run(calls).seenNonces <==> NonceUsed(calls, c.nonce)
  {
    hide Live, Spent, NonceUsed;
    if calls == [] {
      NothingYet(c);
    } else {
      var init, last := calls[..|calls| - 1], calls[|calls| - 1];
      LiveSnoc(calls, c);
      SpentSnoc(calls, c.reviewId);
      NonceSnoc(calls, c.nonce);
      HistoryOfReviews(init, c);
      var s := Run(init);
      if c.reviewId in s.pending {
        HistoryOfReviews(init, s.pending[c.reviewId]);
        KeysMatch(init, c.reviewId);
        assert Live(init, s.pending[c.reviewId]);
      }
      RunIsCounted(init);
      if exists d :: Live(init, d) && d.reviewId == c.reviewId {
        var d :| Live(init, d) && d.reviewId == c.reviewId;
        HistoryOfReviews(init, d);
      }
    }
  }

  lemma NothingYet(c: Challenge)
    ensures !Live([], c) && !Spent([], c.reviewId) && !NonceUsed([], c.nonce)
  {
  }

  /** A pending challenge is filed under its own id. */
  lemma {:induction false} KeysMatch(calls: seq<Call>, id: string)
    requires id in Run(calls).pending
    ensures Run(calls).pending[id].reviewId == id
  {
    var init := calls[..|calls| - 1];
    if id in Run(init).pending { KeysMatch(init, id); }
  }

  ghost predicate ArtifactTaken(calls: seq<Call>, i: nat, a: Reference) {
    i < |calls| && calls[i] == ConsumeArtifact(Some(a)) && Answer(calls, i) == Done
  }

  predicate Clashes(a: Reference,
                    b: Reference) { a.approvalId == b.approvalId || a.nonce == b.nonce || a.digest == b.digest }

  predicate InSets(s: State,
                   a: Reference) { a.approvalId in s.approvalIds || a.nonce in s.approvalNonces || a.digest in s.digests }

  lemma EarlierArtifact(calls: seq<Call>, i: nat, a: Reference)
    requires i < |calls| - 1
    ensures ArtifactTaken(calls, i, a) <==> ArtifactTaken(calls[..|calls| - 1], i, a)
  {
    EarlierAnswer(calls, i);
  }

  /** The three sets together say which accepted artifacts a new one clashes with. */
  lemma {:induction false} HistoryOfArtifacts(calls: seq<Call>, a: Reference)
    ensures InSets(Run(calls), a) <==> exists i: nat, b :: ArtifactTaken(calls, i, b) && Clashes(a, b)
  {
    hide OutcomeOf;
    if calls != [] {
      var init, n := calls[..|calls| - 1], |calls| - 1;
      HistoryOfArtifacts(init, a);
      if i: nat, b :| ArtifactTaken(calls, i, b) && Clashes(a, b) {
        if i < n { EarlierArtifact(calls, i, b); }
      }
      if i: nat, b :| ArtifactTaken(init, i, b) && Clashes(a, b) {
        EarlierArtifact(calls, i, b);
      }
      if calls[n].ConsumeArtifact? && calls[n].reference.Some? && OutcomeOf(Run(init), calls[n]) == Done {
        assert ArtifactTaken(calls, n, calls[n].reference.value);
      }
    }
  }

  // ---- The promises.

  /** A review succeeds exactly for a challenge identical to its registration that nobody has submitted yet. */
  lemma ReviewAnswer(calls: seq<Call>, j: nat, c: Challenge)
    requires j < |calls| && calls[j] == ConsumeReview(Some(c))
    ensures var before := calls[..j];
      && (Answer(calls, j) == Done <==> Live(before, c))
      && (Answer(calls, j) == ReviewReplay <==> Spent(before, c.reviewId))
      && (Answer(calls, j) == ReviewMismatch <==> !Live(before, c) && exists d :: Live(before, d) && d.reviewId == c.reviewId)
      && (Answer(calls, j) == UnknownReview <==> forall i: nat, d :: Registered(before, i, d) ==> d.reviewId != c.reviewId)
  {
    hide Live, Spent, Run, Registered, Counted;
    var before := calls[..j];
    var s := Run(before);
    HistoryOfReviews(before, c);
    CountedIsDisjoint(before);
    if d :| Live(before, d) && d.reviewId == c.reviewId {
      HistoryOfReviews(before, d);
      LiveWasRegistered(before, d);
    }
    if c.reviewId in s.pending {
      KeysMatch(before, c.reviewId);
      HistoryOfReviews(before, s.pending[c.reviewId]);
    }
    if Spent(before, c.reviewId) { SpentWasRegistered(before, c.reviewId); }
    forall i: nat, d | Registered(before, i, d) && d.reviewId == c.reviewId ensures Live(before, d) || Spent(before, c.reviewId) {
      RegisteredIsLiveOrSpent(before, i, d);
    }
  }

  lemma CountedIsDisjoint(calls: seq<Call>)
    ensures Run(calls).pending.Keys !! Run(calls).consumed
  {
    RunIsCounted(calls);
  }

  lemma LiveWasRegistered(calls: seq<Call>, c: Challenge)
    requires Live(calls, c)
    ensures exists i: nat :: Registered(calls, i, c)
  {
  }

  lemma SpentWasRegistered(calls: seq<Call>, id: string)
    requires Spent(calls, id)
    ensures exists i: nat, c :: Registered(calls, i, c) && c.reviewId == id
  {
  }

  lemma RegisteredIsLiveOrSpent(calls: seq<Call>, i: nat, c: Challenge)
    requires Registered(calls, i, c)
    ensures Live(calls, c) || Spent(calls, c.reviewId)
  {
  }

  /** A registration succeeds exactly when no earlier successful one had its id or its nonce. */
  lemma RegistrationAnswer(calls: seq<Call>, j: nat, c: Challenge)
    requires j < |calls| && calls[j] == RegisterReview(Some(c))
    ensures Answer(calls, j) == Done <==>
      forall i: nat, d :: Registered(calls[..j], i, d) ==> d.reviewId != c.reviewId && d.nonce != c.nonce
  {
    hide Live, Spent, Run, Registered;
    var before := calls[..j];
    var s := Run(before);
    HistoryOfReviews(before, c);
    if c.reviewId in s.pending {
      KeysMatch(before, c.reviewId);
      HistoryOfReviews(before, s.pending[c.reviewId]);
      LiveWasRegistered(before, s.pending[c.reviewId]);
    }
    if Spent(before, c.reviewId) { SpentWasRegistered(before, c.reviewId); }
    forall i: nat, d | Registered(before, i, d) && (d.reviewId == c.reviewId || d.nonce == c.nonce)
      ensures Answer(calls, j) != Done {
      HistoryOfReviews(before, d);
      RegisteredIsLiveOrSpent(before, i, d);
    }
  }

  /** An artifact is accepted exactly when no earlier accepted one shares its id, nonce or digest. */
  lemma ArtifactAnswer(calls: seq<Call>, j: nat, a: Reference)
    requires j < |calls| && calls[j] == ConsumeArtifact(Some(a))
    ensures Answer(calls, j) == Done <==> forall i: nat, b :: ArtifactTaken(calls[..j], i, b) ==> !Clashes(a, b)
  {
    hide Run;
    HistoryOfArtifacts(calls[..j], a);
  }

  /** Once a review has succeeded or failed on a mismatch, every later submission of its id is a replay. */
  lemma ReviewIsFinal(calls: seq<Call>, i: nat, j: nat, c: Challenge, d: Challenge)
    requires i < j < |calls| && calls[i] == ConsumeReview(Some(c)) && calls[j] == ConsumeReview(Some(d)) && c.reviewId == d.reviewId
    requires Answer(calls, i) == Done || Answer(calls, i) == ReviewMismatch
    ensures Answer(calls, j) == ReviewReplay
  {
    hide Run;
    Consumed(calls, i, j, c.reviewId);
  }

  lemma {:induction false} Consumed(calls: seq<Call>, i: nat, j: nat, id: string)
    requires i < j <= |calls| && calls[i].ConsumeReview? && calls[i].challenge.Some? && calls[i].challenge.value.reviewId == id
    requires Answer(calls, i) == Done || Answer(calls, i) == ReviewMismatch
    ensures id in Run(calls[..j]).consumed
  {
    assert calls[..j][..j - 1] == calls[..j - 1];
    if i < j - 1 { Consumed(calls, i, j - 1, id); }
  }

  /** A rejected call leaves the registry as it was, except that a mismatched review is spent. */
  lemma RejectionChangesNothing(s: State, call: Call)
    ensures OutcomeOf(s, call) !in {Done, ReviewMismatch} <==> Next(s, call) == s
  {
    if OutcomeOf(s, call) in {Done, ReviewMismatch} {
      match call {
        case RegisterReview(Some(c)) => assert c.reviewId in Next(s, call).pending;
        case ConsumeReview(Some(c)) => assert c.reviewId !in Next(s, call).pending;
        case ConsumeArtifact(Some(a)) => assert a.approvalId in Next(s, call).approvalIds;
      }
    }
  }
}
