/** The nightly billing job (orchestrate_billing_and_suspensions in clients/tasks.py) over the tenants
    table, its sent-today cache, the warnings that went out and the audit log.

    `today` is the local date (Africa/Cairo), a day number; `now` is the clock in seconds. */
module Billing {
  const DAY_TTL := 86400      // seconds a sent warning is remembered
  const GRACE := 3            // days
  const PUBLIC := "public"

  datatype Status = Trial | Active | Suspended | Cancelled

  datatype Date = Never | On(day: int)

  datatype Tenant = Tenant(status: Status, trialEnd: int, paidUntil: Date, enabled: bool, flagged: bool)

  /** dunning_sent:{schema}:{days_left}:{date} */
  datatype Key = Key(schema: string, left: int, day: int)

  /** `unreachable`: tenants whose notification raises; the two flags: the audit log could be written. */
  datatype Night = Night(now: int, today: int, unreachable: set<string>, logsTrials: bool, logsPaid: bool)

  datatype Book = Book(
    tenants: map<string, Tenant>, cache: map<Key, int>, outbox: multiset<Key>, log: multiset<string>)

  // ---------- one night ----------

  predicate Warned(schema: string, t: Tenant, left: int, today: int) {
    && schema != PUBLIC && t.enabled
    && ((t.status == Trial && t.trialEnd == today + left) || (t.status == Active && t.paidUntil == On(today + left)))
  }

  predicate LapsedTrial(schema: string, t: Tenant, today: int) {
    schema != PUBLIC && t.enabled && t.status == Trial && t.trialEnd < today
  }

  predicate LapsedPaid(schema: string, t: Tenant, today: int) {
    schema != PUBLIC && t.enabled && t.status == Active && t.paidUntil.On? && t.paidUntil.day < today - GRACE
  }

  predicate Live(cache: map<Key, int>, k: Key, now: int) { k in cache && now < cache[k] }

  /** In night `n`, the tenant has a warning coming and can be reached. */
  predicate Owed(tenants: map<string, Tenant>, n: Night, k: Key) {
    && k.left in {3, 1, 0} && k.day == n.today && k.schema in tenants
    && Warned(k.schema, tenants[k.schema], k.left, n.today) && k.schema !in n.unreachable
  }

  function Sent(b: Book, n: Night): (s: set<Key>)
    ensures forall k :: k in s <==> Owed(b.tenants, n, k) && !Live(b.cache, k, n.now)
  {
    set id, left | id in b.tenants && left in {3, 1, 0} && Owed(b.tenants, n, Key(id, left, n.today)) &&
                   !Live(b.cache, Key(id, left, n.today), n.now) :: Key(id, left, n.today)
  }

  function SentFor(b: Book, n: Night, left: int): (s: set<Key>)
    ensures forall k :: k in s <==> k in Sent(b, n) && k.left == left
  {
    set k | k in Sent(b, n) && k.left == left
  }

  /** The cache after the warnings in `sent`. */
  function Noted(cache: map<Key, int>, sent: set<Key>, until: int): (c: map<Key, int>)
    ensures forall k :: k in c <==> k in cache || k in sent
    ensures forall k :: k in sent ==> c[k] == until
    ensures forall k :: k in cache && k !in sent ==> c[k] == cache[k]
  {
    cache + (map k | k in sent :: until)
  }

  function Trials(tenants: map<string, Tenant>, today: int): (ids: set<string>)
    ensures forall id :: id in ids <==> id in tenants && LapsedTrial(id, tenants[id], today)
  {
    set id | id in tenants && LapsedTrial(id, tenants[id], today)
  }

  function Paid(tenants: map<string, Tenant>, today: int): (ids: set<string>)
    ensures forall id :: id in ids <==> id in tenants && LapsedPaid(id, tenants[id], today)
  {
    set id | id in tenants && LapsedPaid(id, tenants[id], today)
  }

  function Suspend(tenants: map<string, Tenant>, ids: set<string>): map<string, Tenant> {
    map id | id in tenants :: if id in ids then tenants[id].(status := Suspended) else tenants[id]
  }

  function Audited(log: multiset<string>, tenants: map<string, Tenant>, n: Night): multiset<string> {
    log + (if n.logsTrials then multiset(Trials(tenants, n.today)) else multiset{})
        + (if n.logsPaid then multiset(Paid(tenants, n.today)) else multiset{})
  }

  function AfterNight(b: Book, n: Night): Book {
    Book(
      Suspend(b.tenants, Trials(b.tenants, n.today) + Paid(b.tenants, n.today)),
      Noted(b.cache, Sent(b, n), n.now + DAY_TTL),
      b.outbox + multiset(Sent(b, n)),
      Audited(b.log, b.tenants, n))
  }

  class BillingCron {
    var tenants: map<string, Tenant>
    var cache: map<Key, int>
    var outbox: multiset<Key>
    var log: multiset<string>

    ghost function Contents(): Book
      reads this
    {
      Book(tenants, cache, outbox, log)
    }

    constructor (b: Book)
      ensures Contents() == b
    {
      tenants, cache, outbox, log := b.tenants, b.cache, b.outbox, b.log;
    }

    /** _send_subscription_warning, for a tenant that can be reached. */
    method SendWarning(k: Key, now: int)
      modifies `cache, `outbox
      ensures Live(old(cache), k, now) ==> cache == old(cache) && outbox == old(outbox)
      ensures !Live(old(cache), k, now) ==> cache == old(cache)[k := now + DAY_TTL]
      ensures !Live(old(cache), k, now) ==> outbox == old(outbox) + multiset{k}
    {
      if k in cache && now < cache[k] { return; }
      outbox := outbox + multiset{k};
      cache := cache[k := now + DAY_TTL];
    }

    /** A notification that raises is logged and passed over. */
    method Notify(id: string, left: int, n: Night)
      modifies `cache, `outbox
      ensures Contents() == Notified(old(Contents()), n, left, id)
    {
      if id !in n.unreachable {
        SendWarning(Key(id, left, n.today), n.now);
      }
    }

    /** The warnings of one window, in any order. */
    method SendWarnings(left: int, n: Night)
      requires left in {3, 1, 0}
      modifies `cache, `outbox
      ensures Contents() == AfterWindow(old(Contents()), n, left)
    {
      ghost var before := Contents();
      var queue := Queue(tenants, left, n.today);
      NothingYet(before, n, left);
      while queue != {}
        invariant queue <= Queue(before.tenants, left, n.today)
        invariant Contents() == AfterSent(before, SentSoFar(before, n, left, queue), n.now + DAY_TTL)
        decreases queue
      {
        var id :| id in queue;
        OneMore(before, n, left, queue, id);
        Notify(id, left, n);
        queue := queue - {id};
      }
      AllSent(before, n, left);
    }

    method SendAllWarnings(n: Night)
      modifies `cache, `outbox
      ensures Contents() == AfterSent(old(Contents()), Sent(old(Contents()), n), n.now + DAY_TTL)
    {
      ghost var before := Contents();
      ghost var done: set<int> := {};
      AllWindows(before, n);
      var windows := [3, 1, 0];
      for w := 0 to |windows|
        invariant done == if w == 0 then {} else if w == 1 then {3} else if w == 2 then {3, 1} else {3, 1, 0}
        invariant Contents() == AfterSent(before, SentIn(before, n, done), n.now + DAY_TTL)
      {
        NextWindow(before, n, done, windows[w]);
        SendWarnings(windows[w], n);
        done := done + {windows[w]};
      }
    }

    method Orchestrate(n: Night)
      modifies this
      ensures Contents() == AfterNight(old(Contents()), n)
    {
      SendAllWarnings(n);
      SuspendExpired(n);
    }

    method SuspendExpired(n: Night)
      modifies `tenants, `log
      ensures tenants == Suspend(old(tenants), Trials(old(tenants), n.today) + Paid(old(tenants), n.today))
      ensures log == Audited(old(log), old(tenants), n)
    {
      SuspendBoth(tenants, n.today);
      var expiredTrials := Trials(tenants, n.today);
      if n.logsTrials { log := log + multiset(expiredTrials); }
      tenants := Suspend(tenants, expiredTrials);

      var expiredActive := Paid(tenants, n.today);
      if n.logsPaid { log := log + multiset(expiredActive); }
      tenants := Suspend(tenants, expiredActive);
    }
  }

  lemma SuspendBoth(tenants: map<string, Tenant>, today: int)
    ensures var trials := Trials(tenants, today);
            var once := Suspend(tenants, trials);
            Paid(once, today) == Paid(tenants, today) &&
            Suspend(once, Paid(once, today)) == Suspend(tenants, trials + Paid(tenants, today))
  {
    var trials := Trials(tenants, today);
    var once := Suspend(tenants, trials);
    assert Paid(once, today) == Paid(tenants, today);
  }

  // ---------- the windows of one night do not interfere ----------

  function Queue(tenants: map<string, Tenant>, left: int, today: int): (ids: set<string>)
    ensures forall id :: id in ids <==> id in tenants && Warned(id, tenants[id], left, today)
  {
    set id | id in tenants && Warned(id, tenants[id], left, today)
  }

  /** What has gone out while `queue` is still waiting. */
  ghost function SentSoFar(b: Book, n: Night, left: int, queue: set<string>): (s: set<Key>)
    ensures forall k :: k in s <==> k in SentFor(b, n, left) && k.schema !in queue
  {
    set k | k in SentFor(b, n, left) && k.schema !in queue
  }

  function AfterSent(b: Book, sent: set<Key>, until: int): Book {
    b.(cache := Noted(b.cache, sent, until), outbox := b.outbox + multiset(sent))
  }

  function Notified(b: Book, n: Night, left: int, id: string): Book {
    var k := Key(id, left, n.today);
    if id in n.unreachable || Live(b.cache, k, n.now) then b
    else b.(cache := b.cache[k := n.now + DAY_TTL], outbox := b.outbox + multiset{k})
  }

  function AfterWindow(b: Book, n: Night, left: int): Book {
    AfterSent(b, SentFor(b, n, left), n.now + DAY_TTL)
  }

  /** What goes out in some of the windows. */
  ghost function SentIn(b: Book, n: Night, lefts: set<int>): (s: set<Key>)
    ensures forall k :: k in s <==> k in Sent(b, n) && k.left in lefts
  {
    set k | k in Sent(b, n) && k.left in lefts
  }

  lemma NothingYet(b: Book, n: Night, left: int)
    ensures AfterSent(b, SentSoFar(b, n, left, Queue(b.tenants, left, n.today)), n.now + DAY_TTL) == b
  {
    assert SentSoFar(b, n, left, Queue(b.tenants, left, n.today)) == {};
    assert Noted(b.cache, {}, n.now + DAY_TTL) == b.cache;
  }

  lemma AllSent(b: Book, n: Night, left: int)
    ensures AfterSent(b, SentSoFar(b, n, left, {}), n.now + DAY_TTL) == AfterWindow(b, n, left)
  {
    assert SentSoFar(b, n, left, {}) == SentFor(b, n, left);
  }

  lemma AfterOneMore(b: Book, sent: set<Key>, k: Key, until: int)
    requires k !in sent
    ensures var a := AfterSent(b, sent, until);
            AfterSent(b, sent + {k}, until) == a.(cache := a.cache[k := until], outbox := a.outbox + multiset{k})
  {
    assert multiset(sent + {k}) == multiset(sent) + multiset{k};
  }

  lemma OneMoreKey(b: Book, n: Night, left: int, queue: set<string>, id: string)
    requires left in {3, 1, 0} && id in queue && queue <= Queue(b.tenants, left, n.today)
    ensures var k := Key(id, left, n.today);
            var sent := SentSoFar(b, n, left, queue);
            k !in sent && SentSoFar(b, n, left, queue - {id}) ==
                            if id in n.unreachable || Live(b.cache, k, n.now) then sent else sent + {k}
  {
    var k := Key(id, left, n.today);
    var more := if id in n.unreachable || Live(b.cache, k, n.now) then {} else {k};
    forall x ensures x in SentSoFar(b, n, left, queue - {id}) <==> x in SentSoFar(b, n, left, queue) + more {
      if x in SentFor(b, n, left) && x.schema == id { assert x == k; }
    }
  }

  lemma OneMore(b: Book, n: Night, left: int, queue: set<string>, id: string)
    requires left in {3, 1, 0} && id in queue && queue <= Queue(b.tenants, left, n.today)
    ensures var until := n.now + DAY_TTL;
            var a := AfterSent(b, SentSoFar(b, n, left, queue), until);
            AfterSent(b, SentSoFar(b, n, left, queue - {id}), until) == Notified(a, n, left, id)
  {
    OneMoreKey(b, n, left, queue, id);
    NotifiedAfter(b, n, left, id, SentSoFar(b, n, left, queue));
  }

  lemma NotifiedAfter(b: Book, n: Night, left: int, id: string, sent: set<Key>)
    requires Key(id, left, n.today) !in sent
    ensures var k, until := Key(id, left, n.today), n.now + DAY_TTL;
            Notified(AfterSent(b, sent, until), n, left, id) ==
            AfterSent(b, if id in n.unreachable || Live(b.cache, k, n.now) then sent else sent + {k}, until)
  {
    var k, until := Key(id, left, n.today), n.now + DAY_TTL;
    assert Live(AfterSent(b, sent, until).cache, k, n.now) == Live(b.cache, k, n.now);
    AfterOneMore(b, sent, k, until);
  }

  lemma AfterSentTwice(b: Book, s: set<Key>, t: set<Key>, until: int)
    requires s !! t
    ensures AfterSent(AfterSent(b, s, until), t, until) == AfterSent(b, s + t, until)
  {
    assert Noted(Noted(b.cache, s, until), t, until) == Noted(b.cache, s + t, until);
    assert multiset(s + t) == multiset(s) + multiset(t);
  }

  lemma WindowApart(b: Book, n: Night, lefts: set<int>, left: int)
    requires left !in lefts
    ensures SentFor(AfterSent(b, SentIn(b, n, lefts), n.now + DAY_TTL), n, left) == SentFor(b, n, left)
  {
  }

  lemma SentInMore(b: Book, n: Night, lefts: set<int>, left: int)
    requires left !in lefts
    ensures SentIn(b, n, lefts + {left}) == SentIn(b, n, lefts) + SentFor(b, n, left)
    ensures SentIn(b, n, lefts) !! SentFor(b, n, left)
  {
  }

  /** A window sends the same whatever the windows before it have sent. */
  lemma NextWindow(b: Book, n: Night, lefts: set<int>, left: int)
    requires left !in lefts
    ensures AfterWindow(AfterSent(b, SentIn(b, n, lefts), n.now + DAY_TTL), n, left) ==
            AfterSent(b, SentIn(b, n, lefts + {left}), n.now + DAY_TTL)
  {
    WindowApart(b, n, lefts, left);
    SentInMore(b, n, lefts, left);
    AfterSentTwice(b, SentIn(b, n, lefts), SentFor(b, n, left), n.now + DAY_TTL);
  }

  lemma AllWindows(b: Book, n: Night)
    ensures AfterSent(b, SentIn(b, n, {}), n.now + DAY_TTL) == b
    ensures SentIn(b, n, {3, 1, 0}) == Sent(b, n)
  {
    assert SentIn(b, n, {}) == {};
    assert Noted(b.cache, {}, n.now + DAY_TTL) == b.cache;
  }

  // ---------- one night against the gate ----------

  /** is_valid_subscription: may the tenant work on that day? */
  predicate MayWork(t: Tenant, today: int) {
    && t.status != Suspended && t.enabled && !t.flagged
    && !(t.status == Trial && today > t.trialEnd)
    && !(t.status == Active && t.paidUntil.On? && today > t.paidUntil.day + GRACE)
  }

  /** The job suspends exactly the enabled trial and paying tenants that the gate already turns away
      that day for being over time; nobody loses or gains a working day by it. */
  lemma NightFollowsGate(b: Book, n: Night, id: string)
    requires id in b.tenants
    ensures var t, u := b.tenants[id], AfterNight(b, n).tenants[id];
            && MayWork(u, n.today) == MayWork(t, n.today)
            && (u != t <==> id != PUBLIC && t.enabled && t.status in {Trial, Active} &&
                            !MayWork(t.(flagged := false), n.today))
            && (u != t ==> u == t.(status := Suspended))
  {
  }

  /** Every suspension leaves one line in the audit log, if the log can be written. */
  lemma NightLogsEachSuspension(b: Book, n: Night, id: string)
    requires id in b.tenants && n.logsTrials && n.logsPaid
    ensures AfterNight(b, n).log[id] == b.log[id] + (if AfterNight(b, n).tenants[id] != b.tenants[id] then 1 else 0)
  {
    assert !(id in Trials(b.tenants, n.today) && id in Paid(b.tenants, n.today));
  }

  /** A lapsed trial is logged if the trials' log can be written, a lapsed subscription if the subscriptions'
      can; nothing else is. */
  lemma LogExact(b: Book, n: Night, id: string)
    ensures AfterNight(b, n).log[id] == b.log[id] +
            if id in b.tenants && AfterNight(b, n).tenants[id] != b.tenants[id] &&
               (if b.tenants[id].status == Trial then n.logsTrials else n.logsPaid) then 1 else 0
  {
    assert !(id in Trials(b.tenants, n.today) && id in Paid(b.tenants, n.today));
  }

  // ---------- runs ----------

  /** Between nights the tenants table may change in any way: sign-ups, payments, edits. */
  datatype Step = Nightly(n: Night) | Edit(tenants: map<string, Tenant>)

  function Do(b: Book, s: Step): Book {
    match s
    case Nightly(n) => AfterNight(b, n)
    case Edit(tenants) => b.(tenants := tenants)
  }

  function Run(b: Book, steps: seq<Step>): Book {
    if steps == [] then b else Do(Run(b, steps[..|steps| - 1]), steps[|steps| - 1])
  }

  predicate Fresh(b: Book) { b.cache == map[] && b.outbox == multiset{} && b.log == multiset{} }

  predicate SameDate(s: Step, t: Step) { s.Nightly? && t.Nightly? && s.n.today == t.n.today }

  /** Runs of the job on one date lie less than 86400 seconds apart. It fails on the 25-hour day on
      which summer time ends. */
  predicate ShortDays(steps: seq<Step>) {
    forall i, j :: 0 <= i < j < |steps| && SameDate(steps[i], steps[j]) ==>
      steps[j].n.now < steps[i].n.now + DAY_TTL
  }

  /** On some night of the run the warning was owed. */
  predicate EverOwed(b: Book, steps: seq<Step>, k: Key) {
    steps != [] &&
    (EverOwed(b, steps[..|steps| - 1], k) ||
     (steps[|steps| - 1].Nightly? && Owed(Run(b, steps[..|steps| - 1]).tenants, steps[|steps| - 1].n, k)))
  }

  ghost predicate Remembered(steps: seq<Step>, cache: map<Key, int>, k: Key) {
    k in cache && exists i :: 0 <= i < |steps| && steps[i].Nightly? && steps[i].n.today == k.day &&
                              cache[k] == steps[i].n.now + DAY_TTL
  }

  ghost predicate Ledger(b: Book, steps: seq<Step>, k: Key) {
    var r := Run(b, steps);
    if EverOwed(b, steps, k) then r.outbox[k] == 1 && Remembered(steps, r.cache, k)
    else r.outbox[k] == 0 && k !in r.cache
  }

  lemma RememberedIsLive(before: seq<Step>, n: Night, cache: map<Key, int>, k: Key)
    requires ShortDays(before + [Nightly(n)]) && Remembered(before, cache, k) && k.day == n.today
    ensures Live(cache, k, n.now)
  {
    var i :| 0 <= i < |before| && before[i].Nightly? && before[i].n.today == k.day &&
             cache[k] == before[i].n.now + DAY_TTL;
    var all := before + [Nightly(n)];
    assert all[i] == before[i] && all[|before|] == Nightly(n);
  }

  lemma StillRemembered(before: seq<Step>, s: Step, cache: map<Key, int>, k: Key)
    requires Remembered(before, cache, k)
    ensures Remembered(before + [s], cache, k)
  {
    var i :| 0 <= i < |before| && before[i].Nightly? && before[i].n.today == k.day &&
             cache[k] == before[i].n.now + DAY_TTL;
    assert (before + [s])[i] == before[i];
  }

  lemma ShortBefore(before: seq<Step>, s: Step)
    requires ShortDays(before + [s])
    ensures ShortDays(before)
  {
    var all := before + [s];
    assert forall i :: 0 <= i < |before| ==> all[i] == before[i];
  }

  lemma NightCounts(b: Book, n: Night, k: Key)
    ensures AfterNight(b, n).outbox[k] == b.outbox[k] + (if k in Sent(b, n) then 1 else 0)
    ensures k in AfterNight(b, n).cache <==> k in b.cache || k in Sent(b, n)
    ensures k in Sent(b, n) ==> AfterNight(b, n).cache[k] == n.now + DAY_TTL
    ensures k in b.cache && k !in Sent(b, n) ==> AfterNight(b, n).cache[k] == b.cache[k]
  {
  }

  lemma {:induction false} LedgerHolds(b: Book, steps: seq<Step>, k: Key)
    requires Fresh(b) && ShortDays(steps)
    ensures Ledger(b, steps, k)
  {
    if steps != [] {
      var before, s := steps[..|steps| - 1], steps[|steps| - 1];
      assert steps == before + [s];
      ShortBefore(before, s);
      LedgerHolds(b, before, k);
      var r := Run(b, before);
      if s.Nightly? {
        NightCounts(r, s.n, k);
        if EverOwed(b, before, k) {
          if k.day == s.n.today { RememberedIsLive(before, s.n, r.cache, k); }
          assert k !in Sent(r, s.n);
          assert Do(r, s).cache[k] == r.cache[k];
          StillRemembered(before, s, r.cache, k);
        } else if Owed(r.tenants, s.n, k) {
          assert steps[|steps| - 1] == s;
        }
      } else if EverOwed(b, before, k) {
        StillRemembered(before, s, r.cache, k);
      }
    }
  }

  /** However often the job is repeated, each warning goes out once if it was ever owed on its day,
      and not at all otherwise. */
  lemma WarnedOnce(b: Book, steps: seq<Step>, k: Key)
    requires Fresh(b) && ShortDays(steps)
    ensures Run(b, steps).outbox[k] == if EverOwed(b, steps, k) then 1 else 0
  {
    LedgerHolds(b, steps, k);
  }

  /** Night `i` of the run falls on the date of the warning and reaches the tenant, which is then an enabled
      trial or paying one, other than the platform's own, that ends that many days later. */
  predicate DueIn(b: Book, steps: seq<Step>, k: Key, i: nat)
    requires i < |steps|
  {
    steps[i].Nightly? && steps[i].n.today == k.day && k.schema !in steps[i].n.unreachable &&
    var tenants := Run(b, steps[..i]).tenants;
    k.left in {3, 1, 0} && k.schema in tenants && Billed(k.schema, tenants[k.schema]) &&
    EndOf(tenants[k.schema]) == k.day + k.left
  }

  lemma OwedIsDue(tenants: map<string, Tenant>, n: Night, k: Key)
    ensures Owed(tenants, n, k) <==>
            n.today == k.day && k.schema !in n.unreachable && k.left in {3, 1, 0} && k.schema in tenants &&
            Billed(k.schema, tenants[k.schema]) && EndOf(tenants[k.schema]) == k.day + k.left
  {
  }

  lemma DueLast(b: Book, before: seq<Step>, s: Step, k: Key)
    ensures DueIn(b, before + [s], k, |before|) <==> s.Nightly? && Owed(Run(b, before).tenants, s.n, k)
  {
    assert (before + [s])[..|before|] == before;
    if s.Nightly? { OwedIsDue(Run(b, before).tenants, s.n, k); }
  }

  lemma DueEarlier(b: Book, before: seq<Step>, s: Step, k: Key, i: nat)
    requires i < |before|
    ensures DueIn(b, before + [s], k, i) <==> DueIn(b, before, k, i)
  {
    assert (before + [s])[..i] == before[..i] && (before + [s])[i] == before[i];
  }

  lemma {:induction false} EverOwedExact(b: Book, steps: seq<Step>, k: Key)
    ensures EverOwed(b, steps, k) <==> exists i :: 0 <= i < |steps| && DueIn(b, steps, k, i)
  {
    if steps != [] {
      var before, s := steps[..|steps| - 1], steps[|steps| - 1];
      assert steps == before + [s];
      EverOwedExact(b, before, k);
      DueLast(b, before, s, k);
      forall i | 0 <= i < |before| ensures DueIn(b, steps, k, i) <==> DueIn(b, before, k, i) {
        DueEarlier(b, before, s, k, i);
      }
    }
  }

  /** Over every run a warning goes out if and only if some night finds it due, and then once: nobody who
      is disabled, suspended or cancelled is ever warned. */
  lemma WarnedExact(b: Book, steps: seq<Step>, k: Key)
    requires Fresh(b) && ShortDays(steps)
    ensures Run(b, steps).outbox[k] ==
            if exists i :: 0 <= i < |steps| && DueIn(b, steps, k, i) then 1 else 0
  {
    WarnedOnce(b, steps, k);
    EverOwedExact(b, steps, k);
  }

  /** On one date, a second run resends a warning if and only if it comes 86400 seconds or more after
      the first. */
  lemma ResentExact(b: Book, n: Night, again: Night, k: Key)
    requires k in Sent(b, n) && again.today == n.today && k.schema !in again.unreachable
    ensures k in Sent(AfterNight(b, n), again) <==> again.now >= n.now + 86_400
  {
    NightCounts(b, n, k);
  }

  lemma IdleNight(b: Book, n: Night)
    requires Sent(b, n) == {} && Trials(b.tenants, n.today) == {} && Paid(b.tenants, n.today) == {}
    ensures AfterNight(b, n) == b
  {
    assert Noted(b.cache, {}, n.now + DAY_TTL) == b.cache;
    assert Suspend(b.tenants, {}) == b.tenants;
  }

  lemma NobodyLapsesTwice(b: Book, n: Night, again: Night)
    requires again.today == n.today
    ensures Trials(AfterNight(b, n).tenants, again.today) == {} && Paid(AfterNight(b, n).tenants, again.today) == {}
  {
  }

  lemma OwedBefore(b: Book, n: Night, again: Night, k: Key)
    requires again.today == n.today && Owed(AfterNight(b, n).tenants, again, k) && k.schema !in n.unreachable
    ensures Owed(b.tenants, n, k)
  {
  }

  ghost predicate AllSentToday(b: Book, steps: seq<Step>, again: Night) {
    forall k :: Owed(Run(b, steps).tenants, again, k) ==> EverOwed(b, steps, k)
  }

  /** Repeating the job on the same date changes nothing at all if and only if every warning the repeat
      owes had been owed, and so sent, by a run of that date before; in particular if it reaches nobody
      whom the first run missed. */
  lemma RepeatExact(b: Book, steps: seq<Step>, n: Night, again: Night)
    requires Fresh(b) && ShortDays(steps + [Nightly(n)] + [Nightly(again)]) && again.today == n.today
    ensures var all := steps + [Nightly(n)];
            && (AfterNight(Run(b, all), again) == Run(b, all) <==> AllSentToday(b, all, again))
            && (n.unreachable <= again.unreachable ==> AllSentToday(b, all, again))
  {
    var all := steps + [Nightly(n)];
    assert all[..|all| - 1] == steps;
    var r, once := Run(b, steps), Run(b, all);
    assert once == AfterNight(r, n);
    ShortBefore(all, Nightly(again));
    forall k ensures k in Sent(once, again) <==> Owed(once.tenants, again, k) && !EverOwed(b, all, k) {
      SentIfNew(b, all, again, k);
    }
    NobodyLapsesTwice(r, n, again);
    if AllSentToday(b, all, again) {
      assert Sent(once, again) == {};
      IdleNight(once, again);
    } else {
      var k :| k in Sent(once, again);
      NightCounts(once, again, k);
    }
    if n.unreachable <= again.unreachable {
      forall k | Owed(once.tenants, again, k) ensures EverOwed(b, all, k) { OwedBefore(r, n, again, k); }
    }
  }

  lemma SentIfNew(b: Book, steps: seq<Step>, n: Night, k: Key)
    requires Fresh(b) && ShortDays(steps) && ShortDays(steps + [Nightly(n)])
    ensures k in Sent(Run(b, steps), n) <==> Owed(Run(b, steps).tenants, n, k) && !EverOwed(b, steps, k)
  {
    LedgerHolds(b, steps, k);
    if Owed(Run(b, steps).tenants, n, k) && EverOwed(b, steps, k) {
      RememberedIsLive(steps, n, Run(b, steps).cache, k);
    }
  }

  /** A trial that ends today is warned at midnight and, on a day of 25 hours, once more at its end. */
  lemma LongDayResends() returns (b: Book, n: Night, again: Night, k: Key)
    ensures Fresh(b) && again.today == n.today && again.now == n.now + 25 * 3600 - 600
    ensures AfterNight(AfterNight(b, n), again).outbox[k] == 2
  {
    b := Book(map["shop" := Tenant(Trial, 7, Never, true, false)], map[], multiset{}, multiset{});
    n, again := Night(300, 7, {}, true, true), Night(300 + 25 * 3600 - 600, 7, {}, true, true);
    k := Key("shop", 0, 7);
    assert k in Sent(b, n);
    ResentExact(b, n, again, k);
    NightCounts(b, n, k);
    NightCounts(AfterNight(b, n), again, k);
  }

  // ---------- the life of one tenant ----------

  /** Nobody but the job touches the tenant. */
  predicate Steady(b: Book, steps: seq<Step>, id: string) {
    steps == [] ||
    var before, s := steps[..|steps| - 1], steps[|steps| - 1];
    && Steady(b, before, id)
    && (s.Edit? ==> id in s.tenants && id in Run(b, before).tenants && s.tenants[id] == Run(b, before).tenants[id])
  }

  predicate Billed(id: string, t: Tenant) {
    id != PUBLIC && t.enabled && (t.status == Trial || (t.status == Active && t.paidUntil.On?))
  }

  function EndOf(t: Tenant): int
    requires t.status == Trial || (t.status == Active && t.paidUntil.On?)
  {
    if t.status == Trial then t.trialEnd else t.paidUntil.day
  }

  /** The last day the tenant may work: a trial has no grace. */
  function LastDay(t: Tenant): int
    requires t.status == Trial || (t.status == Active && t.paidUntil.On?)
  {
    EndOf(t) + if t.status == Trial then 0 else 3
  }

  predicate RanAfter(steps: seq<Step>, day: int) {
    exists i :: 0 <= i < |steps| && steps[i].Nightly? && steps[i].n.today > day
  }

  predicate Reached(steps: seq<Step>, id: string, day: int) {
    exists i :: 0 <= i < |steps| && steps[i].Nightly? && steps[i].n.today == day && id !in steps[i].n.unreachable
  }

  predicate Forward(steps: seq<Step>) {
    forall i, j :: 0 <= i < j < |steps| && steps[i].Nightly? && steps[j].Nightly? ==>
      steps[i].n.today <= steps[j].n.today
  }

  predicate Logged(steps: seq<Step>) {
    forall i :: 0 <= i < |steps| && steps[i].Nightly? ==> steps[i].n.logsTrials && steps[i].n.logsPaid
  }

  lemma RanAfterStep(before: seq<Step>, s: Step, day: int)
    ensures RanAfter(before + [s], day) <==> RanAfter(before, day) || (s.Nightly? && s.n.today > day)
  {
    var all := before + [s];
    if i :| 0 <= i < |before| && before[i].Nightly? && before[i].n.today > day { assert all[i] == before[i]; }
    if s.Nightly? && s.n.today > day { assert all[|before|] == s; }
  }

  lemma ReachedStep(before: seq<Step>, s: Step, id: string, day: int)
    ensures Reached(before + [s], id, day) <==>
            Reached(before, id, day) || (s.Nightly? && s.n.today == day && id !in s.n.unreachable)
  {
    var all := before + [s];
    if i :| 0 <= i < |before| && before[i].Nightly? && before[i].n.today == day && id !in before[i].n.unreachable {
      assert all[i] == before[i];
    }
    if s.Nightly? && s.n.today == day && id !in s.n.unreachable { assert all[|before|] == s; }
  }

  /** The tenant is suspended by the first run after its last day, not before, and that once. */
  lemma {:induction false} SuspendedOnTime(b: Book, steps: seq<Step>, id: string)
    requires id in b.tenants && Billed(id, b.tenants[id]) && Steady(b, steps, id)
    ensures var t := b.tenants[id];
            && id in Run(b, steps).tenants
            && Run(b, steps).tenants[id] == (if RanAfter(steps, LastDay(t)) then t.(status := Suspended) else t)
            && (Logged(steps) ==> Run(b, steps).log[id] == b.log[id] + if RanAfter(steps, LastDay(t)) then 1 else 0)
  {
    if steps != [] {
      var before, s := steps[..|steps| - 1], steps[|steps| - 1];
      assert steps == before + [s];
      SuspendedOnTime(b, before, id);
      RanAfterStep(before, s, LastDay(b.tenants[id]));
      assert Logged(steps) ==> Logged(before);
      if s.Nightly? && Logged(steps) {
        assert steps[|steps| - 1] == s;
        NightLogsEachSuspension(Run(b, before), s.n, id);
      }
    }
  }

  lemma NotOverYet(before: seq<Step>, n: Night, day: int)
    requires Forward(before + [Nightly(n)]) && n.today <= day
    ensures !RanAfter(before, day)
  {
    var all := before + [Nightly(n)];
    forall i | 0 <= i < |before| && before[i].Nightly? ensures before[i].n.today <= day {
      assert all[i] == before[i] && all[|before|] == Nightly(n);
    }
  }

  lemma {:induction false} OwedInTime(b: Book, steps: seq<Step>, id: string, k: Key)
    requires id in b.tenants && Billed(id, b.tenants[id]) && Steady(b, steps, id) && Forward(steps)
    requires k.schema == id
    ensures EverOwed(b, steps, k) <==>
            k.left in {3, 1, 0} && k.day == EndOf(b.tenants[id]) - k.left && Reached(steps, id, k.day)
  {
    if steps != [] {
      var before, s := steps[..|steps| - 1], steps[|steps| - 1];
      var t := b.tenants[id];
      assert steps == before + [s];
      assert forall i :: 0 <= i < |before| ==> before[i] == steps[i];
      OwedInTime(b, before, id, k);
      SuspendedOnTime(b, before, id);
      ReachedStep(before, s, id, k.day);
      if s.Nightly? && s.n.today <= LastDay(t) { NotOverYet(before, s.n, LastDay(t)); }
    }
  }

  /** A tenant that nobody edits gets its warning 3 days, 1 day and 0 days before the end, each exactly
      once if the job reached it on that date, and no other warning ever. */
  lemma WarningsOfOneTenant(b: Book, steps: seq<Step>, id: string, k: Key)
    requires Fresh(b) && ShortDays(steps) && Forward(steps)
    requires id in b.tenants && Billed(id, b.tenants[id]) && Steady(b, steps, id)
    requires k.schema == id
    ensures Run(b, steps).outbox[k] ==
            if k.left in {3, 1, 0} && k.day == EndOf(b.tenants[id]) - k.left && Reached(steps, id, k.day) then 1 else 0
  {
    WarnedOnce(b, steps, k);
    OwedInTime(b, steps, id, k);
  }
}
