/** The one-shot condition variable of `utils/condition`.

    Any number of calls (to Wait, Notify and NotifyAll) run concurrently.  A call is an index
    into `calls`; one step of the system is one atomic action of one call: taking the mutex,
    reading or setting `notified`, blocking in pthread_cond_wait (which gives the mutex back),
    signalling or broadcasting, taking the mutex back after a wake-up, unlocking.  Wake-ups
    come only from signal and broadcast; the pthread calls succeed. */
module Condition {

  datatype Op = Wait | Notify | NotifyAll

  /** Where a call stands. */
  datatype Pc =
    | Start                // about to lock
    | Locked               // holds the mutex, has not touched `notified`
    | MustWait             // Wait: holds the mutex, has read notified == false
    | Flagged              // Notify, NotifyAll: holds the mutex, has set `notified`, has not signalled
    | Leaving(ret: int)    // holds the mutex, about to unlock
    | Blocked              // Wait: inside pthread_cond_wait
    | Woken                // Wait: woken, about to take the mutex back
    | Done(ret: int)

  datatype Call = Call(op: Op, pc: Pc)

  /** `owed` is how many calls were blocked when `notified` was set: history, no step reads it. */
  datatype State = State(notified: bool, owner: set<nat>, calls: seq<Call>, owed: nat)

  const Initial := State(false, {}, [], 0)

  function BlockedIn(calls: seq<Call>): set<nat> {
    set t: nat | t < |calls| && calls[t].pc.Blocked?
  }

  function At(s: State, t: nat, pc: Pc): State
    requires t < |s.calls|
  {
    s.(calls := s.calls[t := s.calls[t].(pc := pc)])
  }

  function Wake(calls: seq<Call>, who: set<nat>): seq<Call> {
    seq(|calls|, t requires 0 <= t < |calls| => if t in who then calls[t].(pc := Woken) else calls[t])
  }

  /** pthread_cond_signal wakes one blocked call if there is any, pthread_cond_broadcast all. */
  predicate MayWake(op: Op, blocked: set<nat>, who: set<nat>) {
    if op.NotifyAll? then who == blocked
    else who <= blocked && |who| == if blocked == {} then 0 else 1
  }

  /** One atomic action of call `t`; `who` are the calls it wakes. */
  predicate Acts(s: State, s': State, t: nat, who: set<nat>)
    requires t < |s.calls|
  {
    var c := s.calls[t];
    match c.pc
    case Start =>
      who == {} && s.owner == {} && s' == At(s, t, Locked).(owner := {t})
    case Locked =>
      who == {} &&
      if c.op.Wait? then
        s' == At(s, t, if s.notified then Leaving(0) else MustWait)
      else
        s' == At(s, t, Flagged).(notified := true,
                                 owed := if s.notified then s.owed else |BlockedIn(s.calls)|)
    case MustWait =>
      who == {} && s' == At(s, t, Blocked).(owner := {})
    case Flagged =>
      && MayWake(c.op, BlockedIn(s.calls), who)
      && s' == At(s.(calls := Wake(s.calls, who)), t, Leaving(0))
    case Leaving(ret) =>
      who == {} && s' == At(s, t, Done(ret)).(owner := {})
    case Woken =>
      who == {} && s.owner == {} && s' == At(s, t, Leaving(0)).(owner := {t})
    case Blocked => false
    case Done(_) => false
  }

  /** A call arrives. */
  predicate Arrives(s: State, s': State, op: Op) {
    s' == s.(calls := s.calls + [Call(op, Start)])
  }

  datatype Label = Arrive(op: Op) | Act(t: nat, who: set<nat>)

  predicate Step(s: State, s': State, l: Label) {
    match l
    case Arrive(op) => Arrives(s, s', op)
    case Act(t, who) => t < |s.calls| && Acts(s, s', t, who)
  }

  /** `run` is a run of the system whose steps are `labels`. */
  predicate Run(run: seq<State>, labels: seq<Label>) {
    && |run| == |labels| + 1
    && run[0] == Initial
    && forall i :: 0 <= i < |labels| ==> Step(run[i], run[i + 1], labels[i])
  }

  // ----- The invariant -----

  predicate Holds(pc: Pc) {
    pc.Locked? || pc.MustWait? || pc.Flagged? || pc.Leaving?
  }

  /** The call has sent its signal or broadcast. */
  predicate Signalled(c: Call) {
    !c.op.Wait? && (c.pc.Leaving? || c.pc.Done?)
  }

  function SignalsIn(calls: seq<Call>, op: Op): set<nat> {
    set t: nat | t < |calls| && calls[t].op == op && Signalled(calls[t])
  }

  function Excess(owed: nat, signals: nat): nat {
    if owed > signals then owed - signals else 0
  }

  predicate CallInv(notified: bool, c: Call) {
    match c.pc
    case Start => true
    case Locked => true
    case MustWait => c.op.Wait? && !notified
    case Flagged => !c.op.Wait? && notified
    case Blocked => c.op.Wait?
    case Woken => c.op.Wait? && notified
    case Leaving(ret) => ret == 0 && notified
    case Done(ret) => ret == 0 && notified
  }

  predicate CallsInv(s: State) {
    forall t :: 0 <= t < |s.calls| ==> CallInv(s.notified, s.calls[t])
  }

  /** The mutex has at most one holder, and the holder is where the code holds it. */
  ghost predicate MutexInv(s: State) {
    && (forall t: nat {:trigger t in s.owner} {:trigger s.calls[t]} ::
          t in s.owner <==> t < |s.calls| && Holds(s.calls[t].pc))
    && (forall t, u :: t in s.owner && u in s.owner ==> t == u)
  }

  /** How many calls are still blocked once `notified` is set. */
  predicate WakeInv(s: State) {
    s.notified ==>
      |BlockedIn(s.calls)| ==
      if SignalsIn(s.calls, NotifyAll) != {} then 0 else Excess(s.owed, |SignalsIn(s.calls, Notify)|)
  }

  ghost predicate Inv(s: State) {
    && MutexInv(s)
    && CallsInv(s)
    && WakeInv(s)
    && (s.notified ==> exists t :: 0 <= t < |s.calls| && !s.calls[t].op.Wait?)
  }

  lemma ActKeepsMutex(s: State, s': State, t: nat, who: set<nat>)
    requires Inv(s) && t < |s.calls| && Acts(s, s', t, who)
    ensures MutexInv(s')
    ensures s.owner <= {t}
  {
    assert t in s.owner <==> Holds(s.calls[t].pc);
  }

  lemma ActKeepsCalls(s: State, s': State, t: nat, who: set<nat>)
    requires Inv(s) && t < |s.calls| && Acts(s, s', t, who)
    ensures forall u :: 0 <= u < |s'.calls| ==> CallInv(s'.notified, s'.calls[u])
  {
    ActKeepsMutex(s, s', t, who);
    forall u | 0 <= u < |s'.calls|
      ensures CallInv(s'.notified, s'.calls[u])
    {
      assert CallInv(s.notified, s.calls[u]);
      assert u != t ==> u !in s.owner;
    }
  }

  /** What an action does to each call. */
  lemma ActOnCall(s: State, s': State, t: nat, who: set<nat>, u: nat)
    requires t < |s.calls| && Acts(s, s', t, who) && u < |s.calls|
    ensures |s'.calls| == |s.calls| && s'.calls[u].op == s.calls[u].op
    ensures u != t ==> s'.calls[u].pc == if u in who then Woken else s.calls[u].pc
    ensures who <= BlockedIn(s.calls) && t !in who
  {
  }

  lemma ActOnBlocked(s: State, s': State, t: nat, who: set<nat>)
    requires t < |s.calls| && Acts(s, s', t, who)
    ensures BlockedIn(s'.calls) == BlockedIn(s.calls) - who + if s.calls[t].pc.MustWait? then {t} else {}
  {
    ActOnCall(s, s', t, who, t);
    forall u: nat | u < |s.calls| && u != t
      ensures s'.calls[u].pc.Blocked? <==> s.calls[u].pc.Blocked? && u !in who
    {
      ActOnCall(s, s', t, who, u);
    }
    assert s'.calls[t].pc.Blocked? <==> s.calls[t].pc.MustWait?;
  }

  lemma ActOnSignals(s: State, s': State, t: nat, who: set<nat>, op: Op)
    requires t < |s.calls| && Acts(s, s', t, who) && CallInv(s.notified, s.calls[t]) && !op.Wait?
    ensures SignalsIn(s'.calls, op) ==
            SignalsIn(s.calls, op) + if s.calls[t] == Call(op, Flagged) then {t} else {}
  {
    ActOnCall(s, s', t, who, t);
    forall u: nat | u < |s.calls| && u != t
      ensures Signalled(s'.calls[u]) <==> Signalled(s.calls[u])
      ensures s'.calls[u].op == s.calls[u].op
    {
      ActOnCall(s, s', t, who, u);
    }
    assert !s.calls[t].op.Wait? ==>
        (Signalled(s'.calls[t]) <==> Signalled(s.calls[t]) || s.calls[t].pc.Flagged?);
  }

  lemma NoSignalYet(s: State)
    requires CallsInv(s) && !s.notified
    ensures SignalsIn(s.calls, Notify) == {} && SignalsIn(s.calls, NotifyAll) == {}
  {
    assert forall t: nat :: t < |s.calls| ==> CallInv(s.notified, s.calls[t]);
  }

  lemma CountWithout(b: set<nat>, who: set<nat>)
    requires who <= b
    ensures |b - who| == |b| - |who|
  {
  }

  lemma CountWith(a: set<nat>, t: nat)
    requires t !in a
    ensures |a + {t}| == |a| + 1
  {
  }

  lemma SignalKeepsWake(s: State, s': State, t: nat, who: set<nat>)
    requires WakeInv(s) && t < |s.calls| && Acts(s, s', t, who) && s.calls[t].pc.Flagged?
    requires CallInv(s.notified, s.calls[t])
    ensures WakeInv(s')
  {
    ActOnBlocked(s, s', t, who);
    ActOnSignals(s, s', t, who, NotifyAll);
    if s.calls[t].op.NotifyAll? {
      assert t in SignalsIn(s'.calls, NotifyAll);
      assert BlockedIn(s'.calls) == {};
    } else {
      ActOnSignals(s, s', t, who, Notify);
      CountWithout(BlockedIn(s.calls), who);
      CountWith(SignalsIn(s.calls, Notify), t);
      assert SignalsIn(s'.calls, NotifyAll) == SignalsIn(s.calls, NotifyAll);
    }
  }

  lemma ActKeepsWake(s: State, s': State, t: nat, who: set<nat>)
    requires CallsInv(s) && WakeInv(s) && t < |s.calls| && Acts(s, s', t, who)
    ensures WakeInv(s')
  {
    assert CallInv(s.notified, s.calls[t]);
    if s.calls[t].pc.Flagged? {
      SignalKeepsWake(s, s', t, who);
    } else if s'.notified {
      ActOnBlocked(s, s', t, who);
      ActOnSignals(s, s', t, who, Notify);
      ActOnSignals(s, s', t, who, NotifyAll);
      if !s.notified {
        NoSignalYet(s);
      }
    }
  }

  lemma StepKeepsInv(s: State, s': State, l: Label)
    requires Inv(s) && Step(s, s', l)
    ensures Inv(s')
  {
    match l
    case Arrive(op) =>
      assert BlockedIn(s'.calls) == BlockedIn(s.calls);
      assert forall o :: SignalsIn(s'.calls, o) == SignalsIn(s.calls, o);
      assert forall u :: 0 <= u < |s.calls| ==> s'.calls[u] == s.calls[u];
    case Act(t, who) =>
      ActKeepsMutex(s, s', t, who);
      ActKeepsCalls(s, s', t, who);
      ActKeepsWake(s, s', t, who);
      ActOnCall(s, s', t, who, t);
      if s.notified {
        var u :| 0 <= u < |s.calls| && !s.calls[u].op.Wait?;
        ActOnCall(s, s', t, who, u);
      }
  }

  lemma {:induction false} RunKeepsInv(run: seq<State>, labels: seq<Label>, i: nat)
    requires Run(run, labels) && i < |run|
    ensures Inv(run[i])
  {
    if i > 0 {
      RunKeepsInv(run, labels, i - 1);
      StepKeepsInv(run[i - 1], run[i], labels[i - 1]);
    }
  }

  // ----- Safety over all runs -----

  /** Once set, `notified` stays set and nobody blocks any more. */
  lemma {:induction false} NobodyBlocksOnceNotified(run: seq<State>, labels: seq<Label>, i: nat, j: nat)
    requires Run(run, labels) && i <= j < |run| && run[i].notified
    ensures run[j].notified && BlockedIn(run[j].calls) <= BlockedIn(run[i].calls)
  {
    if i < j {
      NobodyBlocksOnceNotified(run, labels, i, j - 1);
      RunKeepsInv(run, labels, j - 1);
      match labels[j - 1]
      case Arrive(op) =>
      case Act(t, who) =>
        assert CallInv(run[j - 1].notified, run[j - 1].calls[t]);
        ActOnBlocked(run[j - 1], run[j], t, who);
    }
  }

  /** After the broadcast of any NotifyAll no call is ever blocked again, whenever it arrived. */
  lemma NotifyAllFreesForGood(run: seq<State>, labels: seq<Label>, i: nat, j: nat, t: nat)
    requires Run(run, labels) && i <= j < |run|
    requires t < |run[i].calls| && run[i].calls[t].op.NotifyAll? && Signalled(run[i].calls[t])
    ensures BlockedIn(run[j].calls) == {}
  {
    RunKeepsInv(run, labels, i);
    assert CallInv(run[i].notified, run[i].calls[t]);
    assert t in SignalsIn(run[i].calls, NotifyAll);
    NobodyBlocksOnceNotified(run, labels, i, j);
  }

  /** The signal of a Notify takes exactly one call out of the blocked ones, if there is any. */
  lemma NotifyWakesOne(s: State, s': State, t: nat, who: set<nat>)
    requires Inv(s) && t < |s.calls| && Acts(s, s', t, who)
    requires s.calls[t].op.Notify? && s.calls[t].pc.Flagged?
    ensures BlockedIn(s'.calls) <= BlockedIn(s.calls)
    ensures |BlockedIn(s'.calls)| == if BlockedIn(s.calls) == {} then 0 else |BlockedIn(s.calls)| - 1
  {
    ActOnBlocked(s, s', t, who);
  }

  /** A call returns, and returns 0, only after `notified` was set. */
  lemma ReturnsOnlyWhenNotified(run: seq<State>, labels: seq<Label>, i: nat, t: nat)
    requires Run(run, labels) && i < |run|
    requires t < |run[i].calls| && run[i].calls[t].pc.Done?
    ensures run[i].calls[t].pc == Done(0) && run[i].notified
  {
    RunKeepsInv(run, labels, i);
    assert CallInv(run[i].notified, run[i].calls[t]);
  }

  // ----- Termination: every maximal run -----

  /** An upper bound on the actions a call has still to take. */
  function Rank(pc: Pc): nat {
    match pc
    case Start => 6
    case Locked => 5
    case MustWait => 4
    case Blocked => 3
    case Woken => 2
    case Flagged => 2
    case Leaving(_) => 1
    case Done(_) => 0
  }

  function Weight(calls: seq<Call>): nat {
    if calls == [] then 0 else Weight(calls[1..]) + Rank(calls[0].pc)
  }

  lemma {:induction false} WeightFalls(a: seq<Call>, b: seq<Call>, t: nat)
    requires |a| == |b|
    requires forall u :: 0 <= u < |a| ==> Rank(b[u].pc) <= Rank(a[u].pc)
    ensures Weight(b) <= Weight(a)
    ensures t < |a| && Rank(b[t].pc) < Rank(a[t].pc) ==> Weight(b) < Weight(a)
  {
    if a != [] {
      WeightFalls(a[1..], b[1..], if t > 0 then t - 1 else 0);
      assert t > 0 && t < |a| ==> a[1..][t - 1] == a[t] && b[1..][t - 1] == b[t];
    }
  }

  lemma ActLowersWeight(s: State, s': State, t: nat, who: set<nat>)
    requires t < |s.calls| && Acts(s, s', t, who)
    ensures Weight(s'.calls) < Weight(s.calls)
  {
    ActOnCall(s, s', t, who, t);
    forall u | 0 <= u < |s.calls|
      ensures Rank(s'.calls[u].pc) <= Rank(s.calls[u].pc)
    {
      ActOnCall(s, s', t, who, u);
    }
    WeightFalls(s.calls, s'.calls, t);
  }

  /** Between two arrivals the calls take only so many actions: no run spins for ever. */
  lemma {:induction false} ActionsAreBounded(run: seq<State>, labels: seq<Label>, i: nat, j: nat)
    requires Run(run, labels) && i <= j < |run|
    requires forall k :: i <= k < j ==> labels[k].Act?
    ensures j - i + Weight(run[j].calls) <= Weight(run[i].calls)
  {
    if i < j {
      ActionsAreBounded(run, labels, i, j - 1);
      assert labels[j - 1].Act? && Step(run[j - 1], run[j], labels[j - 1]);
      ActLowersWeight(run[j - 1], run[j], labels[j - 1].t, labels[j - 1].who);
    }
  }

  /** No call can act. */
  ghost predicate Quiescent(s: State) {
    forall t: nat, who: set<nat>, s': State :: t < |s.calls| ==> !Acts(s, s', t, who)
  }

  lemma HolderCanAct(s: State, t: nat) returns (who: set<nat>, s': State)
    requires Inv(s) && t < |s.calls| && (Holds(s.calls[t].pc) || (s.owner == {} && !s.calls[t].pc.Blocked? && !s.calls[t].pc.Done?))
    ensures Acts(s, s', t, who)
  {
    assert CallInv(s.notified, s.calls[t]);
    var c := s.calls[t];
    who := {};
    match c.pc {
      case Start => s' := At(s, t, Locked).(owner := {t});
      case Locked =>
        if c.op.Wait? {
          s' := At(s, t, if s.notified then Leaving(0) else MustWait);
        } else {
          s' := At(s, t, Flagged).(notified := true, owed := if s.notified then s.owed else |BlockedIn(s.calls)|);
        }
      case MustWait => s' := At(s, t, Blocked).(owner := {});
      case Flagged =>
        var blocked := BlockedIn(s.calls);
        if c.op.NotifyAll? {
          who := blocked;
        } else if blocked != {} {
          var b :| b in blocked;
          who := {b};
        }
        s' := At(s.(calls := Wake(s.calls, who)), t, Leaving(0));
      case Leaving(ret) => s' := At(s, t, Done(ret)).(owner := {});
      case Woken => s' := At(s, t, Leaving(0)).(owner := {t});
    }
  }

  /** When nothing can move, every call has returned or is blocked: the mutex is never stuck. */
  lemma QuiescentCalls(s: State, t: nat)
    requires Inv(s) && Quiescent(s) && t < |s.calls|
    ensures s.calls[t].pc.Done? || s.calls[t].pc.Blocked?
  {
    if s.owner != {} {
      var u :| u in s.owner;
      var who, s' := HolderCanAct(s, u);
    } else if !s.calls[t].pc.Done? && !s.calls[t].pc.Blocked? {
      var who, s' := HolderCanAct(s, t);
    }
  }

  function CallsOf(calls: seq<Call>, op: Op): set<nat> {
    set t: nat | t < |calls| && calls[t].op == op
  }

  lemma AtRest(s: State)
    requires Inv(s) && Quiescent(s)
    ensures forall t :: 0 <= t < |s.calls| ==>
              (s.calls[t].pc == Done(0) && s.notified) || (s.calls[t].pc == Blocked && s.calls[t].op.Wait?)
    ensures CallsOf(s.calls, Notify) == SignalsIn(s.calls, Notify)
    ensures CallsOf(s.calls, NotifyAll) == SignalsIn(s.calls, NotifyAll)
  {
    forall t | 0 <= t < |s.calls|
      ensures (s.calls[t].pc == Done(0) && s.notified) || (s.calls[t].pc == Blocked && s.calls[t].op.Wait?)
    {
      QuiescentCalls(s, t);
      assert CallInv(s.notified, s.calls[t]);
    }
  }

  /** No lost wake-up: a run that has come to rest has left nobody blocked if a NotifyAll took
      part; with Notify alone, it has left those in excess of the Notify calls. */
  lemma NoLostWakeUp(run: seq<State>, labels: seq<Label>, i: nat)
    requires Run(run, labels) && i < |run| && Quiescent(run[i])
    ensures CallsOf(run[i].calls, NotifyAll) != {} ==>
              forall t :: 0 <= t < |run[i].calls| ==> run[i].calls[t].pc == Done(0)
    ensures CallsOf(run[i].calls, NotifyAll) == {} && CallsOf(run[i].calls, Notify) != {} ==>
              |BlockedIn(run[i].calls)| == Excess(run[i].owed, |CallsOf(run[i].calls, Notify)|)
    ensures CallsOf(run[i].calls, NotifyAll) == {} && CallsOf(run[i].calls, Notify) == {} ==>
              forall t :: 0 <= t < |run[i].calls| ==> run[i].calls[t].pc == Blocked
  {
    RunKeepsInv(run, labels, i);
    var s := run[i];
    AtRest(s);
    assert forall u: nat :: u < |s.calls| && !s.calls[u].op.Wait? ==>
        u in CallsOf(s.calls, NotifyAll) + CallsOf(s.calls, Notify);
    if t :| t in CallsOf(s.calls, NotifyAll) + CallsOf(s.calls, Notify) {
      assert s.notified;
      if CallsOf(s.calls, NotifyAll) != {} {
        assert BlockedIn(s.calls) == {};
        assert forall u: nat :: u < |s.calls| && s.calls[u].pc.Blocked? ==> u in BlockedIn(s.calls);
      }
    }
  }
}
