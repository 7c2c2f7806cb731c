/** run_agent_safely of erp_core/orchestrator.py: the breaker and the dead-letter list together. */
module AgentRunner {
  import opened CircuitBreaker
  import opened DeadLetterQueue

  /** Skipped while the circuit is open; a failure is recorded and its entry dead-lettered. */
  method RunAgentSafely(b: CircuitBreaker, q: DeadLetterQueue<Call>, e: Call) returns (ran: bool)
    modifies b, q
    ensures ran == Runs(b.Settings(), old(b.Contents()), e)
    ensures b.Contents() == AfterCall(b.Settings(), old(b.Contents()), e)
    ensures q.entries == if ran && e.outcome == Failure then PushedOnto(old(q.entries), e) else old(q.entries)
  {
    var s := b.State(e.start);
    ran := s == Closed || s == HalfOpen;
    if ran {
      match e.outcome
      case Success => b.RecordSuccess();
      case Bypassed =>
      case Failure =>
        b.RecordFailure(e.end);
        q.Push(e);
    }
  }

  function PushedOnto(entries: seq<Call>, e: Call): seq<Call> {
    Slice([e] + entries, 0, MAX_SIZE - 1)
  }

  /** Plays a run on a fresh breaker and an empty list. */
  method PlayAll(c: Config, run: seq<Call>) returns (b: CircuitBreaker, q: DeadLetterQueue<Call>)
    ensures b.Contents() == KeysAfter(c, run)
    ensures q.entries == Newest(Failures(Admitted(c, run)))
  {
    b := new CircuitBreaker(c.threshold, c.recovery);
    q := new DeadLetterQueue();
    for i := 0 to |run|
      invariant fresh(b) && fresh(q) && b.Settings() == c
      invariant b.Contents() == KeysAfter(c, run[..i])
      invariant q.entries == Newest(Failures(Admitted(c, run[..i])))
    {
      assert run[..i + 1][..i] == run[..i];
      DeadLettersStep(c, run[..i + 1]);
      var _ := RunAgentSafely(b, q, run[i]);
    }
    assert run[..|run|] == run;
  }

  function Failures(x: seq<Call>): seq<Call> {
    if x == [] then []
    else
      var last := x[|x| - 1];
      Failures(x[..|x| - 1]) + if last.outcome == Failure then [last] else []
  }

  /** The last 1000 entries, newest first. */
  function Newest(x: seq<Call>): (r: seq<Call>)
    ensures |r| == if |x| < 1000 then |x| else 1000
    ensures forall i :: 0 <= i < |r| ==> r[i] == x[|x| - 1 - i]
  {
    var n := if |x| < MAX_SIZE then |x| else MAX_SIZE;
    seq(n, i requires 0 <= i < n => x[|x| - 1 - i])
  }

  lemma NewestPush(f: seq<Call>, e: Call)
    ensures Newest(f + [e]) == PushedOnto(Newest(f), e)
  {
    var a, b := Newest(f + [e]), PushedOnto(Newest(f), e);
    assert |a| == |b|;
    assert forall i :: 0 <= i < |a| ==> a[i] == b[i];
  }

  /** One more call: if it is executed and fails, it and nothing else goes to the front. */
  lemma DeadLettersStep(c: Config, run: seq<Call>)
    requires run != []
    ensures var before, e := run[..|run| - 1], run[|run| - 1];
      Newest(Failures(Admitted(c, run)))
      == if Runs(c, KeysAfter(c, before), e) && e.outcome == Failure
         then PushedOnto(Newest(Failures(Admitted(c, before))), e)
         else Newest(Failures(Admitted(c, before)))
  {
    var before, e := run[..|run| - 1], run[|run| - 1];
    var x := Admitted(c, before);
    KeysRefineHistory(c, before);
    CallTells(c, KeysAfter(c, before), x, e);
    assert (x + [e])[..|x|] == x && x + [] == x;
    assert Failures(x) + [] == Failures(x);
    NewestPush(Failures(x), e);
  }
}
