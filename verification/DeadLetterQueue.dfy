/** The bounded dead-letter list of erp_core/orchestrator.py: a Redis list that is pushed at the
    front, trimmed by a second command, and popped at the back. */
module DeadLetterQueue {
  const MAX_SIZE: nat := 1000

  // ---------- the Redis list commands ----------

  /** LTRIM key start stop and LRANGE key start stop keep the same slice: negative indices count
      from the end, and out-of-range ones are clipped. */
  function Slice<T>(xs: seq<T>, start: int, stop: int): seq<T> {
    var lo := if start < 0 then (if |xs| + start < 0 then 0 else |xs| + start) else start;
    var hi := if stop < 0 then |xs| + stop else if stop >= |xs| then |xs| - 1 else stop;
    if lo > hi then [] else xs[lo..hi + 1]
  }

  class DeadLetterQueue<T> {
    var entries: seq<T>     // newest first

    constructor ()
      ensures entries == []
    {
      entries := [];
    }

    method Push(entry: T)
      modifies this
      ensures entries == Slice([entry] + old(entries), 0, MAX_SIZE - 1)
      ensures |old(entries)| < 1000 ==> entries == [entry] + old(entries)
      ensures |entries| <= 1000
    {
      entries := [entry] + entries;
      entries := Slice(entries, 0, MAX_SIZE - 1);
    }

    /** The oldest entry, or nothing when the list is empty. */
    method Pop() returns (r: seq<T>)
      modifies this
      ensures old(entries) == entries + r
      ensures |r| == if old(entries) == [] then 0 else 1
    {
      if entries == [] {
        r := [];
      } else {
        r := entries[|entries| - 1..];
        entries := entries[..|entries| - 1];
      }
    }

    /** The newest entries.  A count of 0 is the index -1, so it returns the whole list. */
    method Peek(count: int) returns (r: seq<T>)
      ensures count > 0 ==> r == if count < |entries| then entries[..count] else entries
      ensures count == 0 ==> r == entries
    {
      r := Slice(entries, 0, count - 1);
    }
  }

  // ---------- any number of workers, one Redis command at a time ----------

  datatype Command<T> = LPush(entry: T) | LTrim | RPop

  datatype Removal<T> = Popped(entry: T) | Evicted(entry: T)

  /** `pushed` is everything ever pushed, oldest first, and `removed` everything that has left the
      list, in that order; `trimming` counts the pushes that have not reached their LTRIM. */
  datatype Queue<T> = Queue(list: seq<T>, pushed: seq<T>, removed: seq<Removal<T>>, trimming: nat)

  /** A worker that dies between its two commands leaves `trimming` raised for good. */
  predicate Enabled<T>(q: Queue<T>, cmd: Command<T>) {
    cmd.LTrim? ==> q.trimming > 0
  }

  /** The tail of the list goes, oldest entry first. */
  function Evict<T>(tail: seq<T>): (r: seq<Removal<T>>)
    ensures |r| == |tail|
    ensures forall i :: 0 <= i < |tail| ==> r[i] == Evicted(tail[|tail| - 1 - i])
  {
    if tail == [] then [] else Evict(tail[1..]) + [Evicted(tail[0])]
  }

  function Do<T>(q: Queue<T>, cmd: Command<T>): Queue<T>
    requires Enabled(q, cmd)
  {
    match cmd
    case LPush(x) =>
      q.(list := [x] + q.list, pushed := q.pushed + [x], trimming := q.trimming + 1)
    case LTrim =>
      var kept := Slice(q.list, 0, MAX_SIZE - 1);
      q.(list := kept, removed := q.removed + Evict(q.list[|kept|..]), trimming := q.trimming - 1)
    case RPop =>
      if q.list == [] then q
      else
        var n := |q.list| - 1;
        q.(list := q.list[..n], removed := q.removed + [Popped(q.list[n])])
  }

  /** The push history is what has been removed, in removal order, followed by the list read from
      the back: entries leave strictly in push order, whoever removes them, and none is lost or
      doubled.  An entry is evicted only from behind MAX_SIZE newer ones. */
  ghost predicate Window<T>(q: Queue<T>) {
    && |q.removed| + |q.list| == |q.pushed|
    && (forall i :: 0 <= i < |q.removed| ==> q.removed[i].entry == q.pushed[i])
    && (forall i :: 0 <= i < |q.list| ==> q.list[i] == q.pushed[|q.pushed| - 1 - i])
    && (forall i :: 0 <= i < |q.removed| && q.removed[i].Evicted? ==> i + MAX_SIZE < |q.pushed|)
    && |q.list| <= MAX_SIZE + q.trimming
  }

  lemma TrimKeepsWindow<T>(q: Queue<T>)
    requires q.trimming > 0 && Window(q)
    ensures Window(Do(q, LTrim)) && |Do(q, LTrim).list| <= MAX_SIZE
  {
    var q' := Do(q, LTrim);
    if |q.list| > MAX_SIZE {
      var tail := q.list[MAX_SIZE..];
      assert q'.list == q.list[..MAX_SIZE] && q'.removed == q.removed + Evict(tail);
      forall i | |q.removed| <= i < |q'.removed|
        ensures q'.removed[i] == Evicted(q.pushed[i]) && i + MAX_SIZE < |q.pushed|
      {
        var j := |tail| - 1 - (i - |q.removed|);
        assert q'.removed[i] == Evicted(tail[j]) && tail[j] == q.list[MAX_SIZE + j];
      }
    } else {
      assert q'.list == q.list && q'.removed == q.removed;
    }
  }

  lemma CommandKeepsWindow<T>(q: Queue<T>, cmd: Command<T>)
    requires Enabled(q, cmd) && Window(q)
    ensures Window(Do(q, cmd))
    ensures cmd.LTrim? ==> |Do(q, cmd).list| <= MAX_SIZE
  {
    match cmd
    case LPush(_) =>
    case LTrim => TrimKeepsWindow(q);
    case RPop =>
      if q.list != [] {
        assert q.pushed[|q.removed|] == q.list[|q.list| - 1];
      }
  }

  ghost predicate Runnable<T>(q: Queue<T>, cmds: seq<Command<T>>)
    decreases |cmds|
  {
    cmds == [] || (Enabled(q, cmds[0]) && Runnable(Do(q, cmds[0]), cmds[1..]))
  }

  ghost function DoAll<T>(q: Queue<T>, cmds: seq<Command<T>>): Queue<T>
    requires Runnable(q, cmds)
    decreases |cmds|
  {
    if cmds == [] then q else DoAll(Do(q, cmds[0]), cmds[1..])
  }

  /** Whatever the order in which the commands of any number of workers arrive. */
  lemma {:induction false} EveryRunKeepsWindow<T>(q: Queue<T>, cmds: seq<Command<T>>)
    requires Window(q) && Runnable(q, cmds)
    ensures Window(DoAll(q, cmds))
    decreases |cmds|
  {
    if cmds != [] {
      CommandKeepsWindow(q, cmds[0]);
      EveryRunKeepsWindow(Do(q, cmds[0]), cmds[1..]);
    }
  }

  function PoppedOnly<T>(removed: seq<Removal<T>>): seq<T> {
    if removed == [] then []
    else (if removed[0].Popped? then [removed[0].entry] else []) + PoppedOnly(removed[1..])
  }

  function EvictedOnly<T>(removed: seq<Removal<T>>): seq<T> {
    if removed == [] then []
    else (if removed[0].Evicted? then [removed[0].entry] else []) + EvictedOnly(removed[1..])
  }

  /** Conservation in every reachable state: pushed = popped + evicted + present. */
  lemma NothingLost<T>(q: Queue<T>)
    requires Window(q)
    ensures multiset(q.pushed)
      == multiset(PoppedOnly(q.removed)) + multiset(EvictedOnly(q.removed)) + multiset(q.list)
  {
    var n := |q.removed|;
    var out, in' := q.pushed[..n], q.pushed[n..];
    SplitRemoved(q.removed, out);
    SameBackwards(q.list, in');
    CutInTwo(q.pushed, n);
  }

  lemma CutInTwo<T>(xs: seq<T>, n: nat)
    requires n <= |xs|
    ensures multiset(xs) == multiset(xs[..n]) + multiset(xs[n..])
  {
    assert xs == xs[..n] + xs[n..];
  }

  lemma FirstApart<T>(xs: seq<T>)
    requires xs != []
    ensures multiset(xs) == multiset{xs[0]} + multiset(xs[1..])
  {
    assert xs == [xs[0]] + xs[1..];
  }

  lemma {:induction false} SplitRemoved<T>(removed: seq<Removal<T>>, entries: seq<T>)
    requires |removed| == |entries| && forall i :: 0 <= i < |removed| ==> removed[i].entry == entries[i]
    ensures multiset(entries) == multiset(PoppedOnly(removed)) + multiset(EvictedOnly(removed))
  {
    if removed != [] {
      SplitRemoved(removed[1..], entries[1..]);
      FirstApart(entries);
      var rest := removed[1..];
      if removed[0].Popped? {
        FirstApart(PoppedOnly(removed));
        assert PoppedOnly(removed)[1..] == PoppedOnly(rest) && EvictedOnly(removed) == EvictedOnly(rest);
      } else {
        FirstApart(EvictedOnly(removed));
        assert EvictedOnly(removed)[1..] == EvictedOnly(rest) && PoppedOnly(removed) == PoppedOnly(rest);
      }
    }
  }

  lemma {:induction false} SameBackwards<T>(xs: seq<T>, ys: seq<T>)
    requires |xs| == |ys| && forall i :: 0 <= i < |xs| ==> xs[i] == ys[|ys| - 1 - i]
    ensures multiset(xs) == multiset(ys)
  {
    if xs != [] {
      var n := |ys| - 1;
      SameBackwards(xs[1..], ys[..n]);
      assert xs == [xs[0]] + xs[1..] && ys == ys[..n] + [ys[n]];
    }
  }
}
