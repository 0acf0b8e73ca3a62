/** Runs of the condition variable in terms of the calls that arrived, which is all a caller sees. */
module Arrivals {
  import opened Condition

  /** The calls that arrive in a run, in order. */
  function Arrived(labels: seq<Label>): seq<Op> {
    if labels == [] then []
    else
      var last := labels[|labels| - 1];
      Arrived(labels[..|labels| - 1]) + if last.Arrive? then [last.op] else []
  }

  lemma RunPrefix(run: seq<State>, labels: seq<Label>, i: nat)
    requires Run(run, labels) && 0 < i < |run|
    ensures Step(run[i - 1], run[i], labels[i - 1])
    ensures Arrived(labels[..i]) ==
            Arrived(labels[..i - 1]) + if labels[i - 1].Arrive? then [labels[i - 1].op] else []
  {
    assert labels[..i][..i - 1] == labels[..i - 1];
  }

  /** The state has exactly the calls that arrived, each as what it arrived as. */
  lemma {:induction false} CallsAreArrivals(run: seq<State>, labels: seq<Label>, i: nat)
    requires Run(run, labels) && i < |run|
    ensures |run[i].calls| == |Arrived(labels[..i])|
    ensures forall t :: 0 <= t < |run[i].calls| ==> run[i].calls[t].op == Arrived(labels[..i])[t]
  {
    if i > 0 {
      CallsAreArrivals(run, labels, i - 1);
      RunPrefix(run, labels, i);
      StepOnOps(run[i - 1], run[i], labels[i - 1]);
    }
  }

  lemma StepOnOps(s: State, s': State, l: Label)
    requires Step(s, s', l)
    ensures |s'.calls| == |s.calls| + if l.Arrive? then 1 else 0
    ensures forall t :: 0 <= t < |s.calls| ==> s'.calls[t].op == s.calls[t].op
    ensures l.Arrive? ==> s'.calls[|s.calls|].op == l.op
  {
    if l.Act? {
      forall u | 0 <= u < |s.calls|
        ensures |s'.calls| == |s.calls| && s'.calls[u].op == s.calls[u].op
      {
        ActOnCall(s, s', l.t, l.who, u);
      }
    }
  }

  /** How many calls of one kind arrived. */
  function CountOf(ops: seq<Op>, op: Op): nat {
    if ops == [] then 0 else CountOf(ops[..|ops| - 1], op) + if ops[|ops| - 1] == op then 1 else 0
  }

  lemma {:induction false} CountOfCalls(calls: seq<Call>, ops: seq<Op>, op: Op)
    requires |calls| == |ops| && forall t :: 0 <= t < |calls| ==> calls[t].op == ops[t]
    ensures |CallsOf(calls, op)| == CountOf(ops, op)
  {
    if calls != [] {
      var n := |calls| - 1;
      CountOfCalls(calls[..n], ops[..n], op);
      LastOfCalls(calls, n, op);
    }
  }

  lemma LastOfCalls(calls: seq<Call>, n: nat, op: Op)
    requires n + 1 == |calls|
    ensures |CallsOf(calls, op)| == |CallsOf(calls[..n], op)| + if calls[n].op == op then 1 else 0
  {
    assert CallsOf(calls, op) == CallsOf(calls[..n], op) + if calls[n].op == op then {n} else {};
  }

  lemma {:induction false} CountIsZeroIff(ops: seq<Op>, op: Op)
    ensures CountOf(ops, op) == 0 <==> op !in ops
  {
    if ops != [] {
      var n := |ops| - 1;
      CountIsZeroIff(ops[..n], op);
      assert ops == ops[..n] + [ops[n]];
    }
  }

  /** A label is an arrival of `op` exactly if `op` is among what arrived. */
  lemma {:induction false} ArrivedHas(labels: seq<Label>, op: Op)
    ensures op in Arrived(labels) <==> Arrive(op) in labels
  {
    if labels != [] {
      var n := |labels| - 1;
      ArrivedHas(labels[..n], op);
      assert labels == labels[..n] + [labels[n]];
    }
  }

  /** `owed` is the number of calls that were inside pthread_cond_wait when `notified` was set. */
  lemma {:induction false} OwedIsBlocked(run: seq<State>, labels: seq<Label>, j: nat, i: nat)
    requires Run(run, labels) && j < i < |run| && !run[j].notified && run[j + 1].notified
    ensures run[i].notified && run[i].owed == |set t: nat | t < |run[j].calls| && run[j].calls[t].pc == Blocked|
  {
    RunPrefix(run, labels, i);
    if i > j + 1 {
      OwedIsBlocked(run, labels, j, i - 1);
    } else {
      assert BlockedIn(run[j].calls) == set t: nat | t < |run[j].calls| && run[j].calls[t].pc == Blocked;
    }
  }

  /** No lost wake-up, from the arrivals alone.  At rest: if a NotifyAll arrived every call has
      returned 0; with Notify alone, `n` of them, all calls have returned 0 but those in excess of `n`
      among the calls that were blocked at state `j`, just before `notified` was set; with neither
      every call is blocked. */
  lemma ArrivalsDecide(run: seq<State>, labels: seq<Label>, i: nat, j: nat)
    requires Run(run, labels) && i < |run| && Quiescent(run[i])
    ensures Arrive(NotifyAll) in labels[..i] ==>
              forall t :: 0 <= t < |run[i].calls| ==> run[i].calls[t].pc == Done(0)
    ensures Arrive(NotifyAll) !in labels[..i] && Arrive(Notify) in labels[..i] && j < i &&
            !run[j].notified && run[j + 1].notified ==>
              var before := |set t: nat | t < |run[j].calls| && run[j].calls[t].pc == Blocked|;
              var n := CountOf(Arrived(labels[..i]), Notify);
              |set t: nat | t < |run[i].calls| && run[i].calls[t].pc != Done(0)| == if before > n then before - n else 0
    ensures Arrive(NotifyAll) !in labels[..i] && Arrive(Notify) !in labels[..i] ==>
              forall t :: 0 <= t < |run[i].calls| ==> run[i].calls[t].pc == Blocked
  {
    var calls, ops := run[i].calls, Arrived(labels[..i]);
    CallsAreArrivals(run, labels, i);
    CountOfCalls(calls, ops, NotifyAll);
    CountOfCalls(calls, ops, Notify);
    CountIsZeroIff(ops, NotifyAll);
    CountIsZeroIff(ops, Notify);
    ArrivedHas(labels[..i], NotifyAll);
    ArrivedHas(labels[..i], Notify);
    NoLostWakeUp(run, labels, i);
    RunKeepsInv(run, labels, i);
    NotDoneIsBlocked(run[i]);
    if j < i && !run[j].notified && run[j + 1].notified {
      OwedIsBlocked(run, labels, j, i);
    }
  }

  lemma NotDoneIsBlocked(s: State)
    requires Inv(s) && Quiescent(s)
    ensures BlockedIn(s.calls) == set t: nat | t < |s.calls| && s.calls[t].pc != Done(0)
  {
    AtRest(s);
  }

  /** There is such a state whenever a call that notifies has set the flag, and only then. */
  lemma {:induction false} NotifiedOnce(run: seq<State>, labels: seq<Label>, i: nat) returns (j: nat)
    requires Run(run, labels) && i < |run| && run[i].notified
    ensures j < i && !run[j].notified && run[j + 1].notified
  {
    RunPrefix(run, labels, if i == 0 then 1 else i);
    if !run[i - 1].notified {
      j := i - 1;
    } else {
      j := NotifiedOnce(run, labels, i - 1);
    }
  }
}
