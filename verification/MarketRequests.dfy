/**
  The superseded-request protocol of Market Analysis, src/app/discovery-workspace.tsx: requests are
  started, cleared and aborted by event handlers, and answers arrive late and in any order, also for
  requests whose abort did not stop the transport.
*/
module MarketRequests {
  import opened Common

  type Payload = string

  datatype Status = Loading | Success | Invalid | NotFound | Retired | Budget | RateLimit | Capacity | Unavailable | Fatal

  /** The statuses an error can be shown as. */
  type ErrorStatus = s: Status | s != Success && s != Loading witness Fatal

  /** How a request settles, if it ever does. */
  datatype Answer = Payload(payload: Payload) | Error(status: ErrorStatus, retryAfterSeconds: Option<nat>)

  /** A request with the sequence number it was given and its abort signal. */
  datatype Request = Request(sequence: nat, aborted: bool, settled: bool)

  datatype View = View(analysis: Option<Payload>, status: Status, retryAfterSeconds: Option<nat>)

  /** The refs and the state of the workspace, and which requests have committed a payload so far. */
  datatype State = State(
    controller: Option<nat>, sequence: nat, requests: seq<Request>, view: View, commits: seq<nat>)

  /** Whatever can happen next. */
  datatype Step =
    | Load(ready: bool)
    | Clear
    | Abort
    | Deliver(request: nat, answer: Answer)

  const NOTHING_SHOWN := View(None, Loading, None)

  const INITIAL := State(None, 0, [], NOTHING_SHOWN, [])

  function AbortController(requests: seq<Request>, controller: Option<nat>): seq<Request> {
    if controller.Some? && controller.value < |requests|
    then requests[controller.value := requests[controller.value].(aborted := true)]
    else requests
  }

  /** The guard of a late answer: its request was aborted, or is not the newest one. */
  predicate Superseded(s: State, id: nat)
    requires id < |s.requests|
  {
    s.requests[id].aborted || s.sequence != s.requests[id].sequence
  }

  function Shown(answer: Answer): View {
    match answer
    case Payload(payload) => View(Some(payload), Success, None)
    case Error(status, retryAfterSeconds) => View(None, status, if status == RateLimit then retryAfterSeconds else None)
  }

  function Next(s: State, step: Step): State {
    match step
    case Load(ready) =>
      if !ready then s
      else
        var requests := AbortController(s.requests, s.controller);
        State(Some(|requests|), s.sequence + 1, requests + [Request(s.sequence + 1, false, false)], NOTHING_SHOWN, s.commits)
    case Clear =>
      State(None, s.sequence + 1, AbortController(s.requests, s.controller), NOTHING_SHOWN, s.commits)
    case Abort =>
      s.(requests := AbortController(s.requests, s.controller))
    case Deliver(id, answer) =>
      if id >= |s.requests| || s.requests[id].settled then s
      else
        var settled := s.(requests := s.requests[id := s.requests[id].(settled := true)]);
        if Superseded(s, id) then settled
        else settled.(view := if answer.Payload? then Shown(answer) else Shown(answer).(analysis := s.view.analysis),
                      commits := s.commits + if answer.Payload? then [id] else [])
  }

  // ---------- The handlers, on the refs and the state they update ----------

  class Controller {
    var aborted: bool
    var sequence: nat
    var settled: bool

    constructor (sequence: nat)
      ensures !aborted && !settled && this.sequence == sequence
    {
      aborted, settled, this.sequence := false, false, sequence;
    }
  }

  class Workspace {
    var marketAnalysisController: Option<Controller>
    var marketAnalysisRequestSequence: nat
    var marketAnalysis: Option<Payload>
    var marketAnalysisStatus: Status
    var marketAnalysisRetryAfterSeconds: Option<nat>
    /** Every request ever started, in order, and the requests that committed. */
    ghost var started: seq<Controller>
    ghost var commits: seq<nat>

    ghost predicate Valid()
      reads this, started
    {
      && (forall i, j :: 0 <= i < j < |started| ==> started[i] != started[j])
      && (marketAnalysisController.Some? ==> marketAnalysisController.value in started)
    }

    ghost function RequestOf(c: Controller): Request
      reads c
    {
      Request(c.sequence, c.aborted, c.settled)
    }

    ghost function ControllerIndex(): Option<nat>
      reads this, started
    {
      if marketAnalysisController.Some? && marketAnalysisController.value in started
      then
        var i :| 0 <= i < |started| && started[i] == marketAnalysisController.value;
        Some(i)
      else None
    }

    /** The workspace as a state of the protocol. */
    ghost function Abstract(): State
      reads this, started
    {
      State(ControllerIndex(), marketAnalysisRequestSequence,
            seq(|started|, k requires 0 <= k < |started| reads this, started => RequestOf(started[k])),
            View(marketAnalysis, marketAnalysisStatus, marketAnalysisRetryAfterSeconds), commits)
    }

    constructor ()
      ensures Valid() && Abstract() == INITIAL
    {
      marketAnalysisController, marketAnalysisRequestSequence := None, 0;
      marketAnalysis, marketAnalysisStatus, marketAnalysisRetryAfterSeconds := None, Loading, None;
      started, commits := [], [];
    }

    method AbortCurrent()
      requires Valid()
      modifies started
      ensures Valid() && Abstract() == Next(old(Abstract()), Abort)
    {
      if marketAnalysisController.Some? {
        marketAnalysisController.value.aborted := true;
      }
    }

    method ClearMarketAnalysisResult()
      requires Valid()
      modifies this, started
      ensures Valid() && Abstract() == Next(old(Abstract()), Clear)
    {
      AbortCurrent();
      marketAnalysisController := None;
      marketAnalysisRequestSequence := marketAnalysisRequestSequence + 1;
      marketAnalysis, marketAnalysisStatus, marketAnalysisRetryAfterSeconds := None, Loading, None;
    }

    /** Starts a request; what follows its answer is `Settle`. */
    method LoadMarketAnalysisForCandidate(ready: bool) returns (controller: Option<Controller>)
      requires Valid()
      modifies this, started
      ensures Valid() && Abstract() == Next(old(Abstract()), Load(ready))
      ensures ready ==> controller.Some? && fresh(controller.value) && started == old(started) + [controller.value]
    {
      if !ready {
        return None;
      }
      AbortCurrent();
      controller := Start(marketAnalysisRequestSequence + 1);
    }

    /** The new request becomes the current one, and nothing is shown. */
    method Start(sequence: nat) returns (controller: Option<Controller>)
      requires Valid()
      modifies this
      ensures Valid() && controller.Some? && fresh(controller.value) && started == old(started) + [controller.value]
      ensures var before := old(Abstract());
              Abstract() == State(Some(|before.requests|), sequence, before.requests + [Request(sequence, false, false)],
                                  NOTHING_SHOWN, before.commits)
    {
      var created := new Controller(sequence);
      marketAnalysisController := Some(created);
      marketAnalysisRequestSequence := sequence;
      started := started + [created];
      assert started[|started| - 1] == created;
      marketAnalysis, marketAnalysisStatus, marketAnalysisRetryAfterSeconds := None, Loading, None;
      return Some(created);
    }

    /** The rest of a request, when its answer arrives. */
    method Settle(ghost id: nat, controller: Controller, answer: Answer)
      requires Valid() && id < |started| && started[id] == controller && !controller.settled
      modifies this, controller
      ensures Valid() && Abstract() == Next(old(Abstract()), Deliver(id, answer))
    {
      controller.settled := true;
      if controller.aborted || marketAnalysisRequestSequence != controller.sequence {
        return;
      }
      match answer {
        case Payload(payload) =>
          marketAnalysis, marketAnalysisStatus, marketAnalysisRetryAfterSeconds := Some(payload), Success, None;
          commits := commits + [id];
        case Error(status, retryAfterSeconds) =>
          marketAnalysisStatus := status;
          marketAnalysisRetryAfterSeconds := if status == RateLimit then retryAfterSeconds else None;
      }
    }
  }

  // ---------- Every interleaving ----------

  ghost function After(steps: seq<Step>): State {
    if steps == [] then INITIAL else Next(After(steps[..|steps| - 1]), steps[|steps| - 1])
  }

  /** What holds in every reachable state. */
  ghost predicate Invariant(s: State) {
    // A payload is shown exactly with the status of success.
    && (s.view.status == Success <==> s.view.analysis.Some?)
    // Only the newest request can be un-aborted, and then the controller is its own and so is the number.
    && (forall i :: 0 <= i < |s.requests| && !s.requests[i].aborted ==>
          i == |s.requests| - 1 && s.controller == Some(i) && s.requests[i].sequence == s.sequence)
    && (s.controller.Some? ==> s.controller.value == |s.requests| - 1)
    // While its request is outstanding, nothing is shown.
    && (forall i :: 0 <= i < |s.requests| && !s.requests[i].aborted && !s.requests[i].settled ==> s.view == NOTHING_SHOWN)
    // Requests commit in the order in which they were started, each at most once, after having settled.
    && (forall i, j :: 0 <= i < j < |s.commits| ==> s.commits[i] < s.commits[j])
    && (forall k :: 0 <= k < |s.commits| ==> s.commits[k] < |s.requests| && s.requests[s.commits[k]].settled)
    // What is shown was committed by the newest request.
    && (s.view.analysis.Some? ==> s.commits != [] && s.commits[|s.commits| - 1] == |s.requests| - 1)
  }

  lemma AbortLeavesNone(s: State)
    requires Invariant(s)
    ensures var requests := AbortController(s.requests, s.controller);
            && |requests| == |s.requests|
            && (forall i :: 0 <= i < |requests| ==> requests[i].aborted && requests[i].settled == s.requests[i].settled)
  {
    forall i | 0 <= i < |s.requests|
      ensures AbortController(s.requests, s.controller)[i].aborted
    {
      if !s.requests[i].aborted {
        assert s.controller == Some(i);
      }
    }
  }

  lemma StepKeepsInvariant(s: State, step: Step)
    requires Invariant(s)
    ensures Invariant(Next(s, step))
  {
    AbortLeavesNone(s);
    match step
    case Load(ready) => LoadKeepsInvariant(s, ready);
    case Clear =>
    case Abort =>
    case Deliver(id, answer) => DeliverKeepsInvariant(s, id, answer);
  }

  lemma LoadKeepsInvariant(s: State, ready: bool)
    requires Invariant(s)
    ensures Invariant(Next(s, Load(ready)))
  {
    AbortLeavesNone(s);
  }

  lemma DeliverKeepsInvariant(s: State, id: nat, answer: Answer)
    requires Invariant(s)
    ensures Invariant(Next(s, Deliver(id, answer)))
  {
    if id < |s.requests| && !s.requests[id].settled {
      SettlingKeepsInvariant(s, id);
      if !Superseded(s, id) {
        CommitsAreEarlier(s, id);
        ShowingKeepsInvariant(Settled(s, id), id, answer);
      }
    }
  }

  /** The state in which the request has settled, and nothing else has happened. */
  function Settled(s: State, id: nat): State
    requires id < |s.requests|
  {
    s.(requests := s.requests[id := s.requests[id].(settled := true)])
  }

  lemma SettlingKeepsInvariant(s: State, id: nat)
    requires Invariant(s) && id < |s.requests|
    ensures Invariant(Settled(s, id))
  {
  }

  /** What has committed has settled; so an outstanding newest request commits last. */
  lemma CommitsAreEarlier(s: State, id: nat)
    requires Invariant(s) && id < |s.requests| && !s.requests[id].settled && !s.requests[id].aborted
    ensures forall k :: 0 <= k < |s.commits| ==> s.commits[k] < id
    ensures id == |s.requests| - 1 && s.view == NOTHING_SHOWN
  {
    forall k | 0 <= k < |s.commits|
      ensures s.commits[k] < id
    {
      assert s.requests[s.commits[k]].settled;
    }
  }

  lemma ShowingKeepsInvariant(s: State, id: nat, answer: Answer)
    requires Invariant(s) && id < |s.requests| && id == |s.requests| - 1 && s.requests[id].settled && !s.requests[id].aborted
    requires s.view == NOTHING_SHOWN && forall k :: 0 <= k < |s.commits| ==> s.commits[k] < id
    ensures Invariant(s.(view := if answer.Payload? then Shown(answer) else Shown(answer).(analysis := s.view.analysis),
                         commits := s.commits + if answer.Payload? then [id] else []))
  {
  }

  lemma {:induction false} EveryStateIsSound(steps: seq<Step>)
    ensures Invariant(After(steps))
  {
    if steps != [] {
      EveryStateIsSound(steps[..|steps| - 1]);
      StepKeepsInvariant(After(steps[..|steps| - 1]), steps[|steps| - 1]);
    }
  }

  /**
    A payload is committed exactly when the answer of the newest request arrives and that request was
    not aborted. So the sequence number never rejects an answer that the abort signal lets through.
  */
  lemma {:induction false} CommitsIff(steps: seq<Step>, step: Step)
    ensures var s := After(steps);
            var t := After(steps + [step]);
            && t == Next(s, step)
            && (t.commits != s.commits <==>
                  && step.Deliver? && step.answer.Payload?
                  && step.request == |s.requests| - 1 && step.request < |s.requests|
                  && !s.requests[step.request].aborted && !s.requests[step.request].settled)
            && (t.commits != s.commits ==>
                  t.commits == s.commits + [step.request] && t.view == View(Some(step.answer.payload), Success, None))
  {
    EveryStateIsSound(steps);
    assert (steps + [step])[..|steps|] == steps;
    var s := After(steps);
    if step.Deliver? && step.request < |s.requests| && !s.requests[step.request].aborted {
      assert s.requests[step.request].sequence == s.sequence;
    }
  }

  /** At any time at most one request is un-aborted. */
  lemma {:induction false} AtMostOneLive(steps: seq<Step>, i: nat, j: nat)
    requires i < |After(steps).requests| && j < |After(steps).requests|
    requires !After(steps).requests[i].aborted && !After(steps).requests[j].aborted
    ensures i == j
  {
    EveryStateIsSound(steps);
  }

  /** No request ever commits twice. */
  lemma {:induction false} CommitsAtMostOnce(steps: seq<Step>, i: nat, j: nat)
    requires i < |After(steps).commits| && j < |After(steps).commits|
    requires After(steps).commits[i] == After(steps).commits[j]
    ensures i == j
  {
    EveryStateIsSound(steps);
  }

  // ---------- What is shown, read off the run ----------

  /** A step that empties the view: clearing, or starting a request. */
  predicate Resets(step: Step) {
    step.Clear? || (step.Load? && step.ready)
  }

  /** How many requests the first `n` steps start. */
  ghost function Loads(steps: seq<Step>, n: nat): nat
    requires n <= |steps|
  {
    if n == 0 then 0 else Loads(steps, n - 1) + if steps[n - 1].Load? && steps[n - 1].ready then 1 else 0
  }

  /** The request started at `p` is still to be answered at `n`: nothing has superseded, aborted or answered it. */
  ghost predicate Pending(steps: seq<Step>, p: nat, n: nat)
    requires n <= |steps|
  {
    && p < n && steps[p].Load? && steps[p].ready
    && forall k :: p < k < n ==>
         && !Resets(steps[k]) && !steps[k].Abort?
         && !(steps[k].Deliver? && steps[k].request == Loads(steps, p))
  }

  /** The step at `q` answers the request started at `p`, in time. */
  ghost predicate Answers(steps: seq<Step>, p: nat, q: nat) {
    q < |steps| && Pending(steps, p, q) && steps[q].Deliver? && steps[q].request == Loads(steps, p)
  }

  /** That answer is still what is shown: nothing has emptied the view since. */
  ghost predicate StillShown(steps: seq<Step>, p: nat, q: nat) {
    Answers(steps, p, q) && forall k :: q < k < |steps| ==> !Resets(steps[k])
  }

  /** A payload is shown as such; an error by its status, with the delay only of a rate limit. */
  ghost predicate Displays(view: View, answer: Answer) {
    match answer
    case Payload(payload) => view == View(Some(payload), Success, None)
    case Error(status, delay) =>
      view.analysis == None && view.status == status && view.retryAfterSeconds == if status == RateLimit then delay else None
  }

  lemma {:induction false} LoadsTake(steps: seq<Step>, step: Step, n: nat)
    requires n <= |steps|
    ensures Loads(steps + [step], n) == Loads(steps, n)
  {
    if n > 0 {
      LoadsTake(steps, step, n - 1);
    }
  }

  /** The requests are those that were started, and the outstanding one is the pending one. */
  ghost predicate Follows(steps: seq<Step>, s: State) {
    && |s.requests| == Loads(steps, |steps|)
    && (forall i :: 0 <= i < |s.requests| && !s.requests[i].aborted && !s.requests[i].settled ==>
          exists p :: Pending(steps, p, |steps|) && Loads(steps, p) == i)
    && (forall p :: Pending(steps, p, |steps|) ==>
          Loads(steps, p) < |s.requests| && !s.requests[Loads(steps, p)].aborted && !s.requests[Loads(steps, p)].settled)
  }

  lemma {:induction false} PendingNext(steps: seq<Step>, step: Step, p: nat)
    ensures Pending(steps + [step], p, |steps| + 1)
            <==> if p == |steps| then step.Load? && step.ready
                 else && Pending(steps, p, |steps|) && !Resets(step) && !step.Abort?
                      && !(step.Deliver? && step.request == Loads(steps, p))
  {
    var more := steps + [step];
    assert more[|steps|] == step && forall k :: 0 <= k < |steps| ==> more[k] == steps[k];
    if p <= |steps| {
      LoadsTake(steps, step, p);
    }
  }

  lemma {:induction false} AnswersNext(steps: seq<Step>, step: Step, p: nat, q: nat)
    ensures Answers(steps + [step], p, q)
            <==> if q == |steps| then Pending(steps, p, q) && step.Deliver? && step.request == Loads(steps, p)
                 else Answers(steps, p, q)
  {
    var more := steps + [step];
    assert more[|steps|] == step && forall k :: 0 <= k < |steps| ==> more[k] == steps[k];
    if q <= |steps| && p < q {
      LoadsTake(steps, step, p);
      assert Pending(more, p, q) <==> Pending(steps, p, q);
    }
  }

  lemma {:induction false} RunFollows(steps: seq<Step>)
    ensures Follows(steps, After(steps))
  {
    if steps != [] {
      var init, last := steps[..|steps| - 1], steps[|steps| - 1];
      assert steps == init + [last];
      RunFollows(init);
      EveryStateIsSound(init);
      LoadsTake(init, last, |init|);
      FollowsNext(init, last, After(init));
    }
  }

  lemma FollowsNext(steps: seq<Step>, step: Step, s: State)
    requires Follows(steps, s) && Invariant(s)
    ensures Follows(steps + [step], Next(s, step))
  {
    var more, t := steps + [step], Next(s, step);
    AbortLeavesNone(s);
    LoadsTake(steps, step, |steps|);
    assert more[|steps|] == step;
    forall p | Pending(more, p, |more|)
      ensures Loads(more, p) < |t.requests| && !t.requests[Loads(more, p)].aborted && !t.requests[Loads(more, p)].settled
    {
      PendingNext(steps, step, p);
      LoadsTake(steps, step, p);
    }
    forall i | 0 <= i < |t.requests| && !t.requests[i].aborted && !t.requests[i].settled
      ensures exists p :: Pending(more, p, |more|) && Loads(more, p) == i
    {
      if step.Load? && step.ready {
        PendingNext(steps, step, |steps|);
        assert Pending(more, |steps|, |more|) && Loads(more, |steps|) == i;
      } else {
        var p :| Pending(steps, p, |steps|) && Loads(steps, p) == i;
        PendingNext(steps, step, p);
        LoadsTake(steps, step, p);
        assert Pending(more, p, |more|) && Loads(more, p) == i;
      }
    }
  }

  lemma {:induction false} ShownNext(steps: seq<Step>, step: Step, p: nat, q: nat)
    ensures StillShown(steps + [step], p, q)
            <==> if q == |steps| then Pending(steps, p, q) && step.Deliver? && step.request == Loads(steps, p)
                 else StillShown(steps, p, q) && !Resets(step)
  {
    var more := steps + [step];
    AnswersNext(steps, step, p, q);
    assert more[|steps|] == step && forall k :: 0 <= k < |steps| ==> more[k] == steps[k];
    if q < |steps| && StillShown(more, p, q) {
      assert !Resets(more[|steps|]);
    }
  }

  /** While a request is pending, no earlier answer is shown. */
  lemma PendingHidesEarlier(steps: seq<Step>, p: nat, earlier: nat, q: nat)
    requires Pending(steps, p, |steps|)
    ensures !StillShown(steps, earlier, q)
  {
    if StillShown(steps, earlier, q) {
      assert Resets(steps[p]) && Resets(steps[earlier]);
    }
  }

  /**
    What is shown at any time is the answer that arrived in time and that nothing has emptied since: the payload,
    or the status of the error. Without such an answer nothing is shown.
  */
  lemma {:induction false} ViewIsLastAnswer(steps: seq<Step>)
    ensures forall p: nat, q: nat :: StillShown(steps, p, q) ==> Displays(After(steps).view, steps[q].answer)
    ensures (forall p: nat, q: nat :: !StillShown(steps, p, q)) ==> After(steps).view == NOTHING_SHOWN
  {
    if steps != [] {
      var init, last := steps[..|steps| - 1], steps[|steps| - 1];
      assert steps == init + [last];
      ViewIsLastAnswer(init);
      RunFollows(init);
      EveryStateIsSound(init);
      ViewNext(init, last);
    }
  }

  /** A step shows its answer when it answers the pending request, and otherwise shows nothing new. */
  lemma {:induction false} ViewAfterStep(steps: seq<Step>, step: Step, s: State)
    requires Follows(steps, s) && Invariant(s)
    ensures var t := Next(s, step);
            if Resets(step) then t.view == NOTHING_SHOWN
            else if step.Deliver? && exists p :: Pending(steps, p, |steps|) && Loads(steps, p) == step.request then
              Displays(t.view, step.answer)
            else t.view == s.view
  {
    if step.Deliver? && step.request < |s.requests| && !s.requests[step.request].aborted {
      assert s.requests[step.request].sequence == s.sequence;
    }
  }

  lemma {:induction false} ViewNext(steps: seq<Step>, step: Step)
    requires Follows(steps, After(steps)) && Invariant(After(steps))
    requires forall p: nat, q: nat :: StillShown(steps, p, q) ==> Displays(After(steps).view, steps[q].answer)
    requires (forall p: nat, q: nat :: !StillShown(steps, p, q)) ==> After(steps).view == NOTHING_SHOWN
    ensures var more := steps + [step];
            && (forall p: nat, q: nat :: StillShown(more, p, q) ==> Displays(After(more).view, more[q].answer))
            && ((forall p: nat, q: nat :: !StillShown(more, p, q)) ==> After(more).view == NOTHING_SHOWN)
  {
    var more := steps + [step];
    assert more[..|steps|] == steps;
    ViewAfterStep(steps, step, After(steps));
    forall p: nat, q: nat | StillShown(more, p, q)
      ensures Displays(After(more).view, more[q].answer)
    {
      ShownNext(steps, step, p, q);
      if q < |steps| {
        forall pending | Pending(steps, pending, |steps|)
          ensures false
        {
          PendingHidesEarlier(steps, pending, p, q);
        }
      }
    }
    if forall p: nat, q: nat :: !StillShown(more, p, q) {
      NothingShownNext(steps, step);
    }
  }

  lemma {:induction false} NothingShownNext(steps: seq<Step>, step: Step)
    requires forall p: nat, q: nat :: !StillShown(steps + [step], p, q)
    ensures !Resets(step) ==> forall p: nat, q: nat :: !StillShown(steps, p, q)
    ensures step.Deliver? ==> !exists p :: Pending(steps, p, |steps|) && Loads(steps, p) == step.request
  {
    forall p: nat, q: nat
      ensures !Resets(step) ==> !StillShown(steps, p, q)
    {
      ShownNext(steps, step, p, q);
      assert !StillShown(steps + [step], p, q);
    }
    forall p
      ensures step.Deliver? ==> !(Pending(steps, p, |steps|) && Loads(steps, p) == step.request)
    {
      ShownNext(steps, step, p, |steps|);
      assert !StillShown(steps + [step], p, |steps|);
    }
  }
}
