/** The in-memory fallback rate limiter of MoussTecEnterpriseWrapper.__call__ (erp_core/wsgi.py),
    used when there is no Redis client. */
module RateLimiter {

  const WINDOW: real := 60.0
  const LIMIT: nat := 120

  datatype Hit = Hit(count: nat, time: real)

  type Table = map<nat, Hit>      // by client

  predicate Fresh(h: Hit, now: real) { now - h.time < WINDOW }

  function Pruned(hits: Table, now: real): Table {
    map c | c in hits && Fresh(hits[c], now) :: hits[c]
  }

  function AfterRequest(hits: Table, client: nat, now: real): Table {
    var kept := Pruned(hits, now);
    if client in kept then kept[client := Hit(kept[client].count + 1, kept[client].time)]
    else kept[client := Hit(1, now)]
  }

  predicate Limited(hits: Table, client: nat, now: real) {
    client in Pruned(hits, now) && Pruned(hits, now)[client].count > LIMIT
  }

  class FallbackLimiter {
    var hits: Table

    constructor ()
      ensures hits == map[]
    {
      hits := map[];
    }

    /** True when the request is answered with 429. */
    method Request(client: nat, now: real) returns (limitExceeded: bool)
      modifies this
      ensures limitExceeded == Limited(old(hits), client, now)
      ensures hits == AfterRequest(old(hits), client, now)
    {
      limitExceeded := false;
      hits := map c | c in hits && now - hits[c].time < WINDOW :: hits[c];
      if client in hits {
        if hits[client].count > LIMIT {
          limitExceeded := true;
        }
        hits := hits[client := hits[client].(count := hits[client].count + 1)];
      } else {
        hits := hits[client := Hit(1, now)];
      }
    }
  }

  // ---------- one client by itself ----------

  /** What a client's own requests leave behind: the window it is in, or nothing. */
  datatype Entry = Nothing | Window(hit: Hit)

  function Current(e: Entry, now: real): Entry {
    if e.Window? && Fresh(e.hit, now) then e else Nothing
  }

  function EntryAfter(e: Entry, now: real): Entry {
    match Current(e, now)
    case Nothing => Window(Hit(1, now))
    case Window(h) => Window(Hit(h.count + 1, h.time))
  }

  predicate Admits(e: Entry, now: real) {
    match Current(e, now)
    case Nothing => true
    case Window(h) => h.count <= LIMIT
  }

  /** The entry after a client's requests at these times. */
  function EntryOf(times: seq<real>): Entry {
    if times == [] then Nothing else EntryAfter(EntryOf(times[..|times| - 1]), times[|times| - 1])
  }

  // ---------- clients do not disturb each other ----------

  datatype Request = Request(client: nat, time: real)

  predicate InOrder(times: seq<real>) {
    forall i, j :: 0 <= i <= j < |times| ==> times[i] <= times[j]
  }

  function TimesOf(run: seq<Request>): seq<real> {
    seq(|run|, i requires 0 <= i < |run| => run[i].time)
  }

  function Own(run: seq<Request>, client: nat): seq<real> {
    if run == [] then []
    else
      var last := run[|run| - 1];
      Own(run[..|run| - 1], client) + if last.client == client then [last.time] else []
  }

  function TableAfter(run: seq<Request>): Table {
    if run == [] then map[]
    else AfterRequest(TableAfter(run[..|run| - 1]), run[|run| - 1].client, run[|run| - 1].time)
  }

  function Look(hits: Table, client: nat): Entry {
    if client in hits then Window(hits[client]) else Nothing
  }

  /** One request changes the window of its own client as if nobody else were there. */
  lemma LookAfter(hits: Table, last: Request, client: nat, now: real)
    requires last.time <= now
    ensures Current(Look(AfterRequest(hits, last.client, last.time), client), now) ==
            Current(if last.client == client then EntryAfter(Look(hits, client), last.time)
                    else Look(hits, client), now)
  {
  }

  lemma CurrentLater(e: Entry, f: Entry, at: real, now: real)
    requires at <= now && Current(e, at) == Current(f, at)
    ensures Current(e, now) == Current(f, now) && EntryAfter(e, at) == EntryAfter(f, at)
    ensures Admits(e, at) == Admits(f, at)
  {
  }

  /** Whatever other clients do, and whatever they cause to be dropped, a client is treated as if it
      were alone. */
  lemma {:induction false} ClientsIndependent(run: seq<Request>, client: nat, now: real)
    requires InOrder(TimesOf(run)) && (run != [] ==> run[|run| - 1].time <= now)
    ensures Current(Look(TableAfter(run), client), now) == Current(EntryOf(Own(run, client)), now)
    ensures Limited(TableAfter(run), client, now) <==> !Admits(EntryOf(Own(run, client)), now)
  {
    if run != [] {
      var before, last := run[..|run| - 1], run[|run| - 1];
      RunBefore(run);
      ClientsIndependent(before, client, last.time);
      OwnEntry(before, last, client);
      assert before + [last] == run;
      LookAfter(TableAfter(before), last, client, now);
      CurrentLater(Look(TableAfter(before), client), EntryOf(Own(before, client)), last.time, now);
    }
  }

  lemma OwnEntry(before: seq<Request>, last: Request, client: nat)
    ensures EntryOf(Own(before + [last], client))
      == if last.client == client then EntryAfter(EntryOf(Own(before, client)), last.time)
         else EntryOf(Own(before, client))
  {
    assert (before + [last])[..|before|] == before;
    var own := Own(before, client);
    assert (own + [last.time])[..|own|] == own && own + [] == own;
  }

  // ---------- how many requests get through ----------

  /** How many of a client's requests are admitted at times in [from, from + 60). */
  function AdmittedIn(times: seq<real>, from: real): nat {
    if times == [] then 0
    else
      var before, now := times[..|times| - 1], times[|times| - 1];
      AdmittedIn(before, from)
      + if from <= now < from + WINDOW && Admits(EntryOf(before), now) then 1 else 0
  }

  function Capped(count: nat): nat { if count <= LIMIT then count else LIMIT + 1 }

  /** What is known about a client's last window after some requests. */
  ghost predicate Tally(times: seq<real>, from: real) {
    times != [] ==>
      && EntryOf(times).Window?
      && var h, last := EntryOf(times).hit, times[|times| - 1];
         && h.count >= 1 && h.time <= last < h.time + WINDOW
         && (last < from ==> AdmittedIn(times, from) == 0)
         && AdmittedIn(times, h.time) == Capped(h.count)
         && AdmittedIn(times, from) <=
              (if h.time < from then Capped(h.count) - 1
               else if h.time < from + WINDOW then LIMIT + Capped(h.count)
               else LIMIT + LIMIT + 1)
  }

  lemma {:induction false} TallyHolds(times: seq<real>, from: real)
    requires InOrder(times)
    ensures Tally(times, from)
  {
    if times != [] {
      var before, now := times[..|times| - 1], times[|times| - 1];
      TallyHolds(before, from);
      if before != [] {
        assert times[|before| - 1] <= now;
        if !Fresh(EntryOf(before).hit, now) { TallyHolds(before, now); }
      }
    }
  }

  /** In the 60 seconds of every window that a run opens, at most 121 requests are admitted; `j` is any
      moment of the run at which the window is the current one, or has been. */
  lemma {:induction false} WindowBound(times: seq<real>, j: nat)
    requires InOrder(times) && 0 < j <= |times|
    ensures EntryOf(times[..j]).Window? && EntryOf(times).Window?
    ensures var start, last := EntryOf(times[..j]).hit.time, EntryOf(times).hit;
      && AdmittedIn(times, start) <= LIMIT + 1
      && (if last.time == start then AdmittedIn(times, start) == Capped(last.count)
          else last.time >= start + WINDOW)
    decreases |times|
  {
    if j == |times| {
      assert times[..j] == times;
      TallyHolds(times, 0.0);
    } else {
      var before, now := times[..|times| - 1], times[|times| - 1];
      assert before[..j] == times[..j];
      WindowBound(before, j);
      TallyHolds(before, 0.0);
      assert times[|before| - 1] <= now;
    }
  }

  /** In any 60 seconds of any run at most 241 requests of a client are admitted. */
  lemma AnyMinuteBound(times: seq<real>, from: real)
    requires InOrder(times)
    ensures AdmittedIn(times, from) <= 241
  {
    TallyHolds(times, from);
  }

  /** How many of these requests came in the 60 seconds before `now`. */
  function Recent(times: seq<real>, now: real): nat {
    if times == [] then 0
    else Recent(times[..|times| - 1], now) + if now - times[|times| - 1] < 60.0 then 1 else 0
  }

  lemma {:induction false} CountIsRecent(times: seq<real>, now: real)
    requires InOrder(times) && (times != [] ==> times[|times| - 1] <= now)
    ensures Current(EntryOf(times), now).Window? ==> EntryOf(times).hit.count <= Recent(times, now)
  {
    if times != [] {
      var before, t := times[..|times| - 1], times[|times| - 1];
      assert before != [] ==> times[|before| - 1] <= t;
      CountIsRecent(before, now);
      TallyHolds(times, t);
    }
  }

  // ---------- the same for a run of many clients ----------

  /** How many of the client's requests get past the table, in a run of everybody's requests, at times in
      [from, from + 60). */
  function Through(run: seq<Request>, client: nat, from: real): nat {
    if run == [] then 0
    else
      var before, last := run[..|run| - 1], run[|run| - 1];
      Through(before, client, from)
      + if last.client == client && from <= last.time < from + WINDOW
           && !Limited(TableAfter(before), client, last.time) then 1 else 0
  }

  lemma RunBefore(run: seq<Request>)
    requires InOrder(TimesOf(run)) && run != []
    ensures InOrder(TimesOf(run[..|run| - 1]))
    ensures |run| > 1 ==> run[|run| - 2].time <= run[|run| - 1].time
  {
    assert TimesOf(run[..|run| - 1]) == TimesOf(run)[..|run| - 1];
    assert |run| > 1 ==> TimesOf(run)[|run| - 2] <= TimesOf(run)[|run| - 1];
  }

  lemma {:induction false} OwnInOrder(run: seq<Request>, client: nat)
    requires InOrder(TimesOf(run))
    ensures InOrder(Own(run, client))
    ensures forall i :: 0 <= i < |Own(run, client)| ==> Own(run, client)[i] <= run[|run| - 1].time
  {
    if run != [] {
      RunBefore(run);
      OwnInOrder(run[..|run| - 1], client);
    }
  }

  lemma {:induction false} ThroughIsOwn(run: seq<Request>, client: nat, from: real)
    requires InOrder(TimesOf(run))
    ensures Through(run, client, from) == AdmittedIn(Own(run, client), from)
  {
    if run != [] {
      var before, last := run[..|run| - 1], run[|run| - 1];
      RunBefore(run);
      ThroughIsOwn(before, client, from);
      ClientsIndependent(before, client, last.time);
      var own := Own(before, client);
      assert (own + [last.time])[..|own|] == own && own + [] == own;
    }
  }

  /** What the table holds for a client is the window of its own requests. */
  lemma {:induction false} TableHoldsOwn(run: seq<Request>, client: nat)
    requires InOrder(TimesOf(run)) && client in TableAfter(run)
    ensures Own(run, client) != [] && EntryOf(Own(run, client)) == Window(TableAfter(run)[client])
  {
    var before, last := run[..|run| - 1], run[|run| - 1];
    RunBefore(run);
    OwnEntry(before, last, client);
    assert before + [last] == run;
    ClientsIndependent(before, client, last.time);
    if client in TableAfter(before) { TableHoldsOwn(before, client); }
  }

  lemma {:induction false} OwnPrefix(run: seq<Request>, k: nat, client: nat)
    requires k <= |run|
    ensures Own(run[..k], client) <= Own(run, client)
    decreases |run|
  {
    if k == |run| {
      assert run[..k] == run;
    } else {
      OwnPrefix(run[..|run| - 1], k, client);
      assert run[..|run| - 1][..k] == run[..k];
    }
  }

  /** Over every run of any number of clients: in each 60 s window that the table opens for a client at
      most 121 of its requests get through, and in any 60 s at most 241. */
  lemma EveryClientBounded(run: seq<Request>, client: nat, k: nat, from: real)
    requires InOrder(TimesOf(run)) && k <= |run|
    ensures client in TableAfter(run[..k]) ==> Through(run, client, TableAfter(run[..k])[client].time) <= 121
    ensures Through(run, client, from) <= 241
  {
    OwnInOrder(run, client);
    ThroughIsOwn(run, client, from);
    AnyMinuteBound(Own(run, client), from);
    if client in TableAfter(run[..k]) {
      assert TimesOf(run[..k]) == TimesOf(run)[..k];
      TableHoldsOwn(run[..k], client);
      OwnPrefix(run, k, client);
      var own := Own(run[..k], client);
      assert Own(run, client)[..|own|] == own;
      WindowBound(Own(run, client), |own|);
      ThroughIsOwn(run, client, TableAfter(run[..k])[client].time);
    }
  }

  /** Nobody is refused for too little: a client that is refused has sent more than 120 requests in the 60
      seconds before, whatever the others do. */
  lemma RefusedSentMany(run: seq<Request>, client: nat, now: real)
    requires InOrder(TimesOf(run)) && (run != [] ==> run[|run| - 1].time <= now)
    requires Limited(TableAfter(run), client, now)
    ensures Recent(Own(run, client), now) > 120
  {
    OwnInOrder(run, client);
    ClientsIndependent(run, client, now);
    CountIsRecent(Own(run, client), now);
  }

  // ---------- the bound is reached ----------

  function Burst(t: real, k: nat): seq<real> { seq(k, _ => t) }

  lemma {:induction false} BurstAdmitted(times: seq<real>, t: real, k: nat, from: real)
    requires from <= t < from + WINDOW
    requires var e := Current(EntryOf(times), t);
      (if e.Window? then e.hit.count else 0) + k <= LIMIT + 1
    ensures AdmittedIn(times + Burst(t, k), from) == AdmittedIn(times, from) + k
    ensures k > 0 ==> EntryOf(times + Burst(t, k)) == match Current(EntryOf(times), t)
      case Nothing => Window(Hit(k, t))
      case Window(h) => Window(Hit(h.count + k, h.time))
  {
    if k == 0 {
      assert times + Burst(t, 0) == times;
    } else {
      var before := times + Burst(t, k - 1);
      BurstAdmitted(times, t, k - 1, from);
      BurstGrows(times, t, k);
      OneMore(before, t, from);
    }
  }

  lemma BurstGrows(times: seq<real>, t: real, k: nat)
    requires k > 0
    ensures times + Burst(t, k) == times + Burst(t, k - 1) + [t]
    ensures k == 1 ==> times + Burst(t, k - 1) == times
  {
  }

  lemma OneMore(times: seq<real>, t: real, from: real)
    requires from <= t < from + WINDOW
    ensures EntryOf(times + [t]) == EntryAfter(EntryOf(times), t)
    ensures AdmittedIn(times + [t], from) == AdmittedIn(times, from) + if Admits(EntryOf(times), t) then 1 else 0
  {
    assert (times + [t])[..|times|] == times;
  }

  /** One request at 0 s, 120 at 59 s and 121 at 60 s: 241 admitted in [59, 119). */
  lemma BoundReached() returns (times: seq<real>)
    ensures InOrder(times) && AdmittedIn(times, 59.0) == 241
  {
    var first := [0.0];
    assert first[..0] == [];
    assert EntryOf(first) == Window(Hit(1, 0.0)) && AdmittedIn(first, 59.0) == 0;
    BurstAdmitted(first, 59.0, 120, 59.0);
    var more := first + Burst(59.0, 120);
    assert EntryOf(more) == Window(Hit(121, 0.0));
    BurstAdmitted(more, 60.0, 121, 59.0);
    times := more + Burst(60.0, 121);
  }
}
