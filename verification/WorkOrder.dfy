/** The life of a work order (forwarder/app/state.py) and the operations that move it
    (forwarder/app/services/relay.py). */
module WorkOrder {
  import opened Common
  import BT = BuildTracker
  import BP = BuildProtocol

  datatype State =
    | DRAFT
    | PENDING_APPROVAL
    | APPROVED
    | BUILDING
    | SUCCESS
    | FAILED
    | CLOSED
    | PENDING_SECOND_REVIEW
    | SECOND_APPROVED
    | SECOND_REJECTED

  function Transitions(s: State): seq<State> {
    match s
    case DRAFT => [PENDING_APPROVAL, CLOSED]
    case PENDING_APPROVAL => [APPROVED, CLOSED]
    case APPROVED => [BUILDING, PENDING_SECOND_REVIEW, CLOSED]
    case BUILDING => [SUCCESS, FAILED]
    case SUCCESS => [CLOSED]
    case FAILED => [BUILDING, CLOSED]
    case CLOSED => []
    case PENDING_SECOND_REVIEW => [SECOND_APPROVED, SECOND_REJECTED]
    case SECOND_APPROVED => [BUILDING, CLOSED]
    case SECOND_REJECTED => [CLOSED]
  }

  predicate CanTransition(current: State, target: State) {
    target in Transitions(current)
  }

  datatype OrderError = StateError | RelayError

  function Transition(current: State, target: State): Result<State, OrderError> {
    if CanTransition(current, target) then Ok(target) else Err(StateError)
  }

  predicate IsTerminal(s: State) {
    Transitions(s) == []
  }

  // ---- Runs -------------------------------------------------------------------------------------

  predicate IsRun(run: seq<State>) {
    run != [] && forall i :: 0 <= i < |run| - 1 ==> CanTransition(run[i], run[i + 1])
  }

  function Retries(run: seq<State>): nat {
    if |run| < 2 then 0 else Retries(run[1..]) + if run[0] == FAILED && run[1] == BUILDING then 1 else 0
  }

  /** The most transitions possible from a state without a retry. */
  function Budget(s: State): nat {
    match s
    case DRAFT => 7
    case PENDING_APPROVAL => 6
    case APPROVED => 5
    case PENDING_SECOND_REVIEW => 4
    case SECOND_APPROVED => 3
    case BUILDING => 2
    case SUCCESS => 1
    case FAILED => 1
    case SECOND_REJECTED => 1
    case CLOSED => 0
  }

  lemma {:induction false} RunLength(run: seq<State>)
    requires IsRun(run)
    ensures |run| - 1 <= Budget(run[0]) + 2 * Retries(run)
  {
    if |run| > 1 {
      assert CanTransition(run[0], run[1]);
      forall i | 0 <= i < |run[1..]| - 1
        ensures CanTransition(run[1..][i], run[1..][i + 1])
      {
        assert CanTransition(run[i + 1], run[i + 2]);
      }
      RunLength(run[1..]);
    }
  }

  /** Every run from DRAFT has at most 7 transitions and two more for each retry. */
  lemma DraftRunLength(run: seq<State>)
    requires IsRun(run) && run[0] == DRAFT
    ensures |run| - 1 <= 7 + 2 * Retries(run)
  {
    RunLength(run);
  }

  lemma Prepend(s: State, run: seq<State>)
    requires IsRun(run) && CanTransition(s, run[0])
    ensures IsRun([s] + run)
    ensures Retries([s] + run) == Retries(run) + if s == FAILED && run[0] == BUILDING then 1 else 0
  {
    var longer := [s] + run;
    assert longer[1..] == run;
    forall i | 0 <= i < |longer| - 1
      ensures CanTransition(longer[i], longer[i + 1])
    {
      if i > 0 {
        assert CanTransition(run[i - 1], run[i - 1 + 1]);
      }
    }
  }

  /** The next state of a longest run with `r` retries to come. */
  function LongestNext(s: State, r: nat): State {
    match s
    case DRAFT => PENDING_APPROVAL
    case PENDING_APPROVAL => APPROVED
    case APPROVED => PENDING_SECOND_REVIEW
    case PENDING_SECOND_REVIEW => SECOND_APPROVED
    case SECOND_APPROVED => BUILDING
    case BUILDING => FAILED
    case FAILED => if r == 0 then CLOSED else BUILDING
    case _ => CLOSED
  }

  lemma {:induction false} LongestRun(s: State, r: nat) returns (run: seq<State>)
    requires s == SUCCESS || s == SECOND_REJECTED || s == CLOSED ==> r == 0
    ensures IsRun(run) && run[0] == s && Retries(run) == r && |run| - 1 == Budget(s) + 2 * r
    decreases r, Budget(s)
  {
    if s == CLOSED {
      run := [s];
    } else {
      var next := LongestNext(s, r);
      var rest := LongestRun(next, if s == FAILED && r > 0 then r - 1 else r);
      Prepend(s, rest);
      run := [s] + rest;
    }
  }

  /** The bound is reached for every number of retries. */
  lemma BoundIsReached(r: nat)
    ensures exists run :: IsRun(run) && run[0] == DRAFT && Retries(run) == r && |run| - 1 == 7 + 2 * r
  {
    var run := LongestRun(DRAFT, r);
  }

  /** The states from which a state is entered. */
  function Sources(t: State): set<State> {
    match t
    case DRAFT => {}
    case PENDING_APPROVAL => {DRAFT}
    case APPROVED => {PENDING_APPROVAL}
    case PENDING_SECOND_REVIEW => {APPROVED}
    case SECOND_APPROVED => {PENDING_SECOND_REVIEW}
    case SECOND_REJECTED => {PENDING_SECOND_REVIEW}
    case BUILDING => {APPROVED, SECOND_APPROVED, FAILED}
    case SUCCESS => {BUILDING}
    case FAILED => {BUILDING}
    case CLOSED => {DRAFT, PENDING_APPROVAL, APPROVED, SUCCESS, FAILED, SECOND_APPROVED, SECOND_REJECTED}
  }

  /** The table read backwards: how each state is entered, and from nowhere else. */
  lemma EntersExactly(s: State, t: State)
    ensures CanTransition(s, t) <==> s in Sources(t)
  {
  }

  predicate Built(s: State) {
    s == BUILDING || s == SUCCESS || s == FAILED
  }

  predicate InSecondReview(s: State) {
    s == PENDING_SECOND_REVIEW || s == SECOND_APPROVED || s == SECOND_REJECTED
  }

  /** Whether the order was in state `s` before place k of its run. */
  predicate Past(run: seq<State>, k: nat, s: State)
    requires k <= |run|
  {
    s in run[..k]
  }

  /** What a state says about the states before it: `approved`, `reviewed` and `secondApproved` tell
      whether APPROVED, PENDING_SECOND_REVIEW and SECOND_APPROVED are among them. */
  predicate Fits(s: State, approved: bool, reviewed: bool, secondApproved: bool) {
    && (Built(s) || InSecondReview(s) ==> approved)
    && (Built(s) && reviewed ==> secondApproved)
    && (s == DRAFT || s == PENDING_APPROVAL || s == APPROVED || s == PENDING_SECOND_REVIEW ==> !reviewed)
  }

  lemma FitsStep(s: State, t: State, approved: bool, reviewed: bool, secondApproved: bool)
    requires CanTransition(s, t) && Fits(s, approved, reviewed, secondApproved)
    ensures Fits(t, approved || s == APPROVED, reviewed || s == PENDING_SECOND_REVIEW,
                 secondApproved || s == SECOND_APPROVED)
  {
  }

  predicate PastFits(run: seq<State>, k: nat)
    requires k < |run|
  {
    Fits(run[k], Past(run, k, APPROVED), Past(run, k, PENDING_SECOND_REVIEW), Past(run, k, SECOND_APPROVED))
  }

  lemma PastStep(run: seq<State>, k: nat, s: State)
    requires 0 < k <= |run|
    ensures Past(run, k, s) <==> Past(run, k - 1, s) || run[k - 1] == s
  {
    assert run[..k] == run[..k - 1] + [run[k - 1]];
  }

  lemma {:induction false} RunPast(run: seq<State>, k: nat)
    requires IsRun(run) && run[0] == DRAFT && k < |run|
    ensures PastFits(run, k)
  {
    if k > 0 {
      RunPast(run, k - 1);
      assert CanTransition(run[k - 1], run[k - 1 + 1]);
      PastStep(run, k, APPROVED);
      PastStep(run, k, PENDING_SECOND_REVIEW);
      PastStep(run, k, SECOND_APPROVED);
      FitsStep(run[k - 1], run[k], Past(run, k - 1, APPROVED), Past(run, k - 1, PENDING_SECOND_REVIEW),
               Past(run, k - 1, SECOND_APPROVED));
    }
  }

  /** BUILDING comes only after APPROVED and, after a second review, only after SECOND_APPROVED; a
      second review happens at most once. */
  lemma ApprovalComesFirst(run: seq<State>)
    requires IsRun(run) && run[0] == DRAFT
    ensures forall k :: 0 <= k < |run| && run[k] == BUILDING ==>
              && Past(run, k, APPROVED)
              && (Past(run, k, PENDING_SECOND_REVIEW) ==> Past(run, k, SECOND_APPROVED))
    ensures forall j, k :: 0 <= j < k < |run| ==> !(run[j] == PENDING_SECOND_REVIEW && run[k] == PENDING_SECOND_REVIEW)
  {
    forall k | 0 <= k < |run| && run[k] == BUILDING
      ensures Past(run, k, APPROVED)
      ensures Past(run, k, PENDING_SECOND_REVIEW) ==> Past(run, k, SECOND_APPROVED)
    {
      RunPast(run, k);
    }
    forall j, k | 0 <= j < k < |run| && run[j] == PENDING_SECOND_REVIEW
      ensures run[k] != PENDING_SECOND_REVIEW
    {
      RunPast(run, k);
      assert run[..k][j] == PENDING_SECOND_REVIEW;
    }
  }

  function WayToClosed(s: State): seq<State> {
    match s
    case CLOSED => [s]
    case BUILDING => [s, FAILED, CLOSED]
    case PENDING_SECOND_REVIEW => [s, SECOND_REJECTED, CLOSED]
    case _ => [s, CLOSED]
  }

  /** CLOSED can be reached from every state and is the only terminal one. */
  lemma ClosedIsTheEnd(s: State)
    ensures IsTerminal(s) <==> s == CLOSED
    ensures exists run :: IsRun(run) && run[0] == s && run[|run| - 1] == CLOSED
  {
    assert IsRun(WayToClosed(s));
  }

  // ---- Operations -------------------------------------------------------------------------------

  datatype Operation =
    | SubmitForApproval
    | OnApprovalResult(result: string)
    | TriggerBuild
    | OnBuildResult(buildStatus: string)
    | CloseWorkOrder
    | OnSensitiveChange
    | OnSecondReviewResult(result: string)

  function UpperChar(c: char): char {
    if 'a' <= c <= 'z' then (c as int - 32) as char else c
  }

  function Upper(s: string): string {
    seq(|s|, i requires 0 <= i < |s| => UpperChar(s[i]))
  }

  /** The two build results that are understood, in any case. */
  function ResultState(status: string): Option<State> {
    if Upper(status) == "SUCCESS" then Some(SUCCESS)
    else if Upper(status) == "FAILED" then Some(FAILED)
    else None
  }

  /** The letters of `upper`, each in either case; `lower` has them in the other case. */
  predicate Spells(s: string, upper: string, lower: string)
    requires |upper| == |lower|
  {
    |s| == |upper| && forall i :: 0 <= i < |s| ==> s[i] == upper[i] || s[i] == lower[i]
  }

  predicate CasePair(upper: string, lower: string) {
    && |upper| == |lower|
    && forall i :: 0 <= i < |upper| ==> 'A' <= upper[i] <= 'Z' && lower[i] as int == upper[i] as int + 32
  }

  lemma UpperSpells(s: string, upper: string, lower: string)
    requires CasePair(upper, lower)
    ensures Upper(s) == upper <==> Spells(s, upper, lower)
  {
    if Upper(s) == upper {
      forall i | 0 <= i < |s|
        ensures s[i] == upper[i] || s[i] == lower[i]
      {
        assert Upper(s)[i] == upper[i];
      }
    }
    if Spells(s, upper, lower) {
      assert forall i :: 0 <= i < |s| ==> Upper(s)[i] == upper[i];
    }
  }

  /** A build result is understood exactly when it spells SUCCESS or FAILED, in any mixture of cases. */
  lemma ResultStateExactly(status: string)
    ensures ResultState(status) == Some(SUCCESS) <==> Spells(status, "SUCCESS", "success")
    ensures ResultState(status) == Some(FAILED) <==> Spells(status, "FAILED", "failed")
    ensures ResultState(status) in [Some(SUCCESS), Some(FAILED), None]
  {
    assert CasePair("SUCCESS", "success");
    assert CasePair("FAILED", "failed");
    UpperSpells(status, "SUCCESS", "success");
    UpperSpells(status, "FAILED", "failed");
    assert |"SUCCESS"| != |"FAILED"|;
  }

  lemma UpperKeeps(s: string)
    requires forall i :: 0 <= i < |s| ==> !('a' <= s[i] <= 'z')
    ensures Upper(s) == s
  {
  }

  lemma ResultTexts()
    ensures ResultState("SUCCESS") == Some(SUCCESS) && ResultState("FAILED") == Some(FAILED)
    ensures ResultState("ABORTED") == None && ResultState("NOT_BUILT") == None
  {
    UpperKeeps("SUCCESS");
    UpperKeeps("FAILED");
    assert Upper("ABORTED")[0] == 'A';
    assert Upper("NOT_BUILT")[0] == 'N';
  }

  /** Whether the services an operation calls are configured and answer. */
  datatype Services = Services(dingtalk: bool, agentOnline: bool)

  /** The state an operation moves the order to, or the error it raises. The state is checked before
      any service is called. */
  function Operate(s: State, op: Operation, services: Services): Result<State, OrderError> {
    match op
    case SubmitForApproval => WithService(Transition(s, PENDING_APPROVAL), services.dingtalk)
    case OnApprovalResult(result) => Transition(s, if result == "agree" then APPROVED else CLOSED)
    case TriggerBuild => WithService(Transition(s, BUILDING), services.agentOnline)
    case OnBuildResult(status) =>
      (match ResultState(status)
       case None => Err(RelayError)
       case Some(target) => Transition(s, target))
    case CloseWorkOrder => Transition(s, CLOSED)
    case OnSensitiveChange => WithService(Transition(s, PENDING_SECOND_REVIEW), services.dingtalk)
    case OnSecondReviewResult(result) => Transition(s, if result == "agree" then SECOND_APPROVED else SECOND_REJECTED)
  }

  function WithService(r: Result<State, OrderError>, available: bool): Result<State, OrderError> {
    if r.Ok? && !available then Err(RelayError) else r
  }

  const ALL_UP := Services(true, true)

  /** The operation that takes an edge. */
  function OperationFor(target: State): Operation {
    match target
    case PENDING_APPROVAL => SubmitForApproval
    case APPROVED => OnApprovalResult("agree")
    case BUILDING => TriggerBuild
    case SUCCESS => OnBuildResult("SUCCESS")
    case FAILED => OnBuildResult("FAILED")
    case PENDING_SECOND_REVIEW => OnSensitiveChange
    case SECOND_APPROVED => OnSecondReviewResult("agree")
    case SECOND_REJECTED => OnSecondReviewResult("refuse")
    case _ => CloseWorkOrder
  }

  lemma OperationTakesEdge(s: State, op: Operation, services: Services)
    requires Operate(s, op, services).Ok?
    ensures CanTransition(s, Operate(s, op, services).value)
  {
  }

  lemma EdgeHasOperation(s: State, target: State)
    requires CanTransition(s, target)
    ensures Operate(s, OperationFor(target), ALL_UP) == Ok(target)
  {
    ResultTexts();
  }

  /** The operations take the edges of the state machine: exactly those, and all of them. */
  lemma OperationsTakeExactlyTheEdges(s: State, target: State)
    ensures (exists op, services :: Operate(s, op, services) == Ok(target)) <==> CanTransition(s, target)
  {
    if CanTransition(s, target) {
      EdgeHasOperation(s, target);
    } else if op, services :| Operate(s, op, services) == Ok(target) {
      OperationTakesEdge(s, op, services);
    }
  }

  /** Which call can lead into a state: the operation, its text and the service it needs. */
  predicate LeadsTo(op: Operation, services: Services, target: State) {
    match target
    case DRAFT => false
    case PENDING_APPROVAL => op == SubmitForApproval && services.dingtalk
    case APPROVED => op == OnApprovalResult("agree")
    case BUILDING => op == TriggerBuild && services.agentOnline
    case SUCCESS => op.OnBuildResult? && Spells(op.buildStatus, "SUCCESS", "success")
    case FAILED => op.OnBuildResult? && Spells(op.buildStatus, "FAILED", "failed")
    case CLOSED => op == CloseWorkOrder || (op.OnApprovalResult? && op.result != "agree")
    case PENDING_SECOND_REVIEW => op == OnSensitiveChange && services.dingtalk
    case SECOND_APPROVED => op == OnSecondReviewResult("agree")
    case SECOND_REJECTED => op.OnSecondReviewResult? && op.result != "agree"
  }

  /** An operation moves an order into a state if and only if the table has that edge and the operation is
      one that leads there. */
  lemma ReachesExactly(s: State, op: Operation, services: Services, target: State)
    ensures Operate(s, op, services) == Ok(target) <==> s in Sources(target) && LeadsTo(op, services, target)
  {
    EntersExactly(s, target);
    if op.OnBuildResult? {
      ResultStateExactly(op.buildStatus);
    }
  }

  /** The state an operation asks for. */
  function AskedFor(op: Operation): Option<State> {
    match op
    case SubmitForApproval => Some(PENDING_APPROVAL)
    case OnApprovalResult(result) => Some(if result == "agree" then APPROVED else CLOSED)
    case TriggerBuild => Some(BUILDING)
    case OnBuildResult(status) => ResultState(status)
    case CloseWorkOrder => Some(CLOSED)
    case OnSensitiveChange => Some(PENDING_SECOND_REVIEW)
    case OnSecondReviewResult(result) => Some(if result == "agree" then SECOND_APPROVED else SECOND_REJECTED)
  }

  /** It fails with a StateError exactly when it asks for a state that cannot be entered from here, whatever
      the services, and with a RelayError otherwise. */
  lemma FailsExactly(s: State, op: Operation, services: Services)
    ensures Operate(s, op, services) == Err(StateError) <==>
              AskedFor(op).Some? && s !in Sources(AskedFor(op).value)
    ensures Operate(s, op, services) == Err(RelayError) <==>
              AskedFor(op) == None || (s in Sources(AskedFor(op).value) && !LeadsTo(op, services, AskedFor(op).value))
  {
    if AskedFor(op).Some? {
      EntersExactly(s, AskedFor(op).value);
      ReachesExactly(s, op, services, AskedFor(op).value);
    }
  }

  // ---- Runs of operations -------------------------------------------------------------------------

  datatype Call = Call(op: Operation, services: Services)

  /** A new order after some calls; a failing one leaves its state. */
  function StateAfter(calls: seq<Call>): State {
    if calls == [] then DRAFT
    else
      var s, last := StateAfter(calls[..|calls| - 1]), calls[|calls| - 1];
      match Operate(s, last.op, last.services)
      case Err(_) => s
      case Ok(t) => t
  }

  /** The operation succeeded at some point. */
  predicate Happened(calls: seq<Call>, op: Operation) {
    calls != [] &&
      (var before, last := calls[..|calls| - 1], calls[|calls| - 1];
       Happened(before, op) || (last.op == op && Operate(StateAfter(before), op, last.services).Ok?))
  }

  const AGREE := OnApprovalResult("agree")
  const AGREE_AGAIN := OnSecondReviewResult("agree")

  /** What a state says about the calls before it. */
  ghost predicate CallsFit(s: State, submitted: bool, agreed: bool, sensitive: bool, agreedAgain: bool) {
    && (s == PENDING_APPROVAL || s == APPROVED || Built(s) || InSecondReview(s) ==> submitted)
    && (s == APPROVED || Built(s) || InSecondReview(s) ==> agreed)
    && (InSecondReview(s) ==> sensitive)
    && (s == SECOND_APPROVED ==> agreedAgain)
    && (Built(s) && sensitive ==> agreedAgain)
    && (s == DRAFT || s == PENDING_APPROVAL || s == APPROVED ==> !sensitive)
  }

  lemma CallsFitStep(s: State, op: Operation, services: Services, submitted: bool, agreed: bool, sensitive: bool,
                     agreedAgain: bool)
    requires CallsFit(s, submitted, agreed, sensitive, agreedAgain) && Operate(s, op, services).Ok?
    ensures CallsFit(Operate(s, op, services).value, submitted || op == SubmitForApproval, agreed || op == AGREE,
                     sensitive || op == OnSensitiveChange, agreedAgain || op == AGREE_AGAIN)
  {
    var target := Operate(s, op, services).value;
    ReachesExactly(s, op, services, target);
  }

  /** Over every run of operations on a new order: it is approved only by an "agree" after it was submitted,
      and it is built only then and, after a sensitive change, only by an "agree" to the second review. */
  lemma {:induction false} BuiltOnlyAfterAgree(calls: seq<Call>)
    ensures CallsFit(StateAfter(calls), Happened(calls, SubmitForApproval), Happened(calls, AGREE),
                     Happened(calls, OnSensitiveChange), Happened(calls, AGREE_AGAIN))
  {
    if calls != [] {
      var before, last := calls[..|calls| - 1], calls[|calls| - 1];
      BuiltOnlyAfterAgree(before);
      if Operate(StateAfter(before), last.op, last.services).Ok? {
        CallsFitStep(StateAfter(before), last.op, last.services, Happened(before, SubmitForApproval),
                     Happened(before, AGREE), Happened(before, OnSensitiveChange), Happened(before, AGREE_AGAIN));
      }
    }
  }

  // ---- Results of the agent -----------------------------------------------------------------------

  /** What the agent's poll thread may send. */
  predicate DirectStatus(status: BT.BuildStatus) {
    BT.Terminal(status)
  }

  /** A poll thread's result moves a building order on exactly when the build succeeded or failed;
      ABORTED, which a timeout also reports, and NOT_BUILT leave it in BUILDING. */
  lemma AgentResultAccepted(status: BT.BuildStatus, services: Services)
    requires DirectStatus(status)
    ensures Operate(BUILDING, OnBuildResult(BP.StatusText(status)), services).Ok?
       <==> status == BT.SUCCESS || status == BT.FAILED
  {
    ResultTexts();
  }

  /** Only a SUCCESS or FAILED result leads out of BUILDING, so an order whose build timed out stays
      there under every operation but such a result. */
  lemma BuildingIsLeftOnlyByResult(op: Operation, services: Services)
    ensures Operate(BUILDING, op, services).Ok?
       <==> op.OnBuildResult? && ResultState(op.buildStatus).Some?
  {
  }
}
