/** Replay protection of the OBD devices: the models of clients/obd_device_models.py, the checks of
    `_auth_device` in workshop/api_obd.py, and the purge task of clients/tasks.py.

    The clock counts microseconds, as the database stamps do; the timestamp check truncates it to
    whole seconds.  A request is checked first and its nonce recorded later, and a purge may come
    in between. */
module ObdReplay {

  const SECOND: int := 1_000_000

  datatype Status = Active | Suspended | Revoked

  datatype Device = Device(secret: nat, generation: nat, status: Status, window: nat)

  datatype Message = Message(device: nat, timestamp: int, nonce: string, body: string)

  /** HMAC as an injective keyed function: one value per secret and message. */
  datatype Signature = Hmac(secret: nat, timestamp: int, nonce: string, body: string)

  datatype Request = Request(message: Message, signature: Signature)

  datatype Verdict = Passed | BadNonce | Unauthorized | StaleTimestamp | BadSignature

  type Nonces = map<(nat, string), int>

  function Sign(secret: nat, m: Message): Signature {
    Hmac(secret, m.timestamp, m.nonce, m.body)
  }

  predicate InWindow(now: int, timestamp: int, window: nat) {
    var age := now / SECOND - timestamp;
    (if age < 0 then -age else age) <= window
  }

  // ---------- the operations, as functions of the tables ----------

  function CheckRequest(devices: map<nat, Device>, now: int, r: Request): Verdict {
    var m := r.message;
    if |m.nonce| < 16 || |m.nonce| > 64 then BadNonce
    else if m.device !in devices || devices[m.device].status != Active then Unauthorized
    else if !InWindow(now, m.timestamp, devices[m.device].window) then StaleTimestamp
    else if r.signature != Sign(devices[m.device].secret, m) then BadSignature
    else Passed
  }

  /** The (device, nonce) row is inserted unless the uniqueness constraint forbids it. */
  function AfterRecord(nonces: Nonces, now: int, m: Message): Nonces {
    if (m.device, m.nonce) in nonces then nonces else nonces[(m.device, m.nonce) := now]
  }

  function AfterPurge(nonces: Nonces, now: int, retention: nat): Nonces {
    map k | k in nonces && !(nonces[k] < now - retention * SECOND) :: nonces[k]
  }

  function AfterRotation(d: Device, secret: nat): Device {
    d.(secret := secret, generation := d.generation + 1)
  }

  /** The two tables and the code that works on them. */
  class ObdGate {
    var devices: map<nat, Device>
    var nonces: Nonces

    constructor (devices: map<nat, Device>)
      ensures this.devices == devices && nonces == map[]
    {
      this.devices := devices;
      nonces := map[];
    }

    method AuthDevice(now: int, r: Request) returns (v: Verdict)
      ensures v == CheckRequest(devices, now, r)
      ensures v == Passed ==> r.message.device in devices && devices[r.message.device].status == Active
    {
      var m := r.message;
      if |m.nonce| < 16 || |m.nonce| > 64 { return BadNonce; }
      if m.device !in devices { return Unauthorized; }
      var device := devices[m.device];
      if device.status != Active { return Unauthorized; }
      var age := now / SECOND - m.timestamp;
      if (if age < 0 then -age else age) > device.window { return StaleTimestamp; }
      if Sign(device.secret, m) != r.signature { return BadSignature; }
      return Passed;
    }

    method RecordNonce(now: int, m: Message) returns (fresh': bool)
      modifies this`nonces
      ensures fresh' <==> (m.device, m.nonce) !in old(nonces)
      ensures nonces == AfterRecord(old(nonces), now, m)
    {
      fresh' := (m.device, m.nonce) !in nonces;
      if fresh' {
        nonces := nonces[(m.device, m.nonce) := now];
      }
    }

    /** The rows seen before the cutoff go, and only they; `deleted` is their number. */
    method PurgeOlderThan(now: int, seconds: nat) returns (deleted: nat)
      modifies this`nonces
      ensures nonces == AfterPurge(old(nonces), now, seconds)
      ensures forall k :: k in old(nonces) ==> (k !in nonces <==> old(nonces)[k] < now - seconds * SECOND)
      ensures forall k :: k in nonces ==> k in old(nonces) && nonces[k] == old(nonces)[k]
      ensures deleted == |old(nonces).Keys - nonces.Keys| == |old(nonces)| - |nonces|
    {
      var cutoff := now - seconds * SECOND;
      var stale := set k | k in nonces && nonces[k] < cutoff;
      deleted := |stale|;
      SplitSize(nonces.Keys, stale);
      nonces := nonces - stale;
      assert nonces.Keys == old(nonces).Keys - stale;
      assert old(nonces).Keys - nonces.Keys == stale;
    }

    method RotateSecret(id: nat, secret: nat)
      requires id in devices
      modifies this`devices
      ensures devices == old(devices)[id := AfterRotation(old(devices)[id], secret)]
    {
      var d := devices[id];
      devices := devices[id := Device(secret, d.generation + 1, d.status, d.window)];
    }
  }

  lemma SplitSize<T>(all: set<T>, part: set<T>)
    requires part <= all
    ensures |all - part| == |all| - |part|
  {
    assert all == part + (all - part);
  }

  // ---------- runs ----------

  datatype Step =
    | Arrive(request: Request)                  // checked now, recorded later if it passes
    | Record(which: nat)                        // the nonce of pending request `which`
    | Purge
    | Rotate(device: nat, secret: nat)
    | SetStatus(device: nat, status: Status)

  datatype Event = Event(wait: nat, step: Step)

  /** `generation` is auxiliary: that of the secret the request was checked with. */
  datatype Checked = Checked(message: Message, at: int, generation: nat)

  /** `accepted` is auxiliary: the requests whose nonce was recorded, with the time of the check
      and of the recording. */
  datatype Accepted = Accepted(message: Message, checked: int, recorded: int, generation: nat)

  datatype System = System(
    clock: int, devices: map<nat, Device>, nonces: Nonces, pending: seq<Checked>, accepted: seq<Accepted>)

  function Do(s0: System, e: Event, retention: nat): System {
    var s := s0.(clock := s0.clock + e.wait);
    var now := s.clock;
    match e.step
    case Arrive(r) =>
      if CheckRequest(s.devices, now, r) != Passed then s
      else s.(pending := s.pending + [Checked(r.message, now, s.devices[r.message.device].generation)])
    case Record(i) =>
      if i >= |s.pending| then s
      else
        var p := s.pending[i];
        var rest := s.pending[..i] + s.pending[i + 1..];
        if (p.message.device, p.message.nonce) in s.nonces then s.(pending := rest)
        else s.(pending := rest, nonces := AfterRecord(s.nonces, now, p.message),
                accepted := s.accepted + [Accepted(p.message, p.at, now, p.generation)])
    case Purge => s.(nonces := AfterPurge(s.nonces, now, retention))
    case Rotate(id, secret) =>
      if id !in s.devices then s
      else s.(devices := s.devices[id := AfterRotation(s.devices[id], secret)])
    case SetStatus(id, status) =>
      if id !in s.devices then s
      else s.(devices := s.devices[id := s.devices[id].(status := status)])
  }

  function Start(devices: map<nat, Device>): System {
    System(0, devices, map[], [], [])
  }

  function Run(devices: map<nat, Device>, events: seq<Event>, retention: nat): System {
    if events == [] then Start(devices)
    else Do(Run(devices, events[..|events| - 1], retention), events[|events| - 1], retention)
  }

  /** Every nonce is recorded at most `lag` microseconds after its request was checked. */
  predicate Prompt(s: System, lag: nat) {
    forall i :: 0 <= i < |s.accepted| ==> s.accepted[i].recorded <= s.accepted[i].checked + lag
  }

  /** The retention outlasts the two windows, the truncated second and the lag. */
  predicate Outlasts(retention: nat, window: nat, lag: nat) {
    retention * SECOND >= 2 * window * SECOND + SECOND - 1 + lag
  }

  // ---------- what every run keeps ----------

  predicate CheckedOk(devices: map<nat, Device>, m: Message, at: int, now: int) {
    m.device in devices && at <= now && InWindow(at, m.timestamp, devices[m.device].window)
  }

  /** An accepted nonce is still on record, or so old that a purge could have removed it. */
  predicate OnRecord(s: System, a: Accepted, retention: nat) {
    var k := (a.message.device, a.message.nonce);
    (k in s.nonces && s.nonces[k] >= a.recorded) || s.clock > a.recorded + retention * SECOND
  }

  ghost predicate Inv(s: System, retention: nat) {
    && (forall i :: 0 <= i < |s.pending| ==>
          CheckedOk(s.devices, s.pending[i].message, s.pending[i].at, s.clock))
    && (forall i :: 0 <= i < |s.accepted| ==>
          && CheckedOk(s.devices, s.accepted[i].message, s.accepted[i].checked, s.clock)
          && s.accepted[i].checked <= s.accepted[i].recorded <= s.clock
          && OnRecord(s, s.accepted[i], retention))
  }

  predicate SameWindows(a: map<nat, Device>, b: map<nat, Device>) {
    forall d :: d in a ==> d in b && b[d].window == a[d].window
  }

  lemma RecordKeepsInv(s: System, e: Event, retention: nat)
    requires Inv(s, retention) && e.step.Record?
    ensures Inv(Do(s, e, retention), retention)
  {
    var s', i := Do(s, e, retention), e.step.which;
    if i < |s.pending| {
      assert CheckedOk(s.devices, s.pending[i].message, s.pending[i].at, s.clock);
      assert forall j :: 0 <= j < |s'.pending| ==> s'.pending[j] == s.pending[if j < i then j else j + 1];
    }
    forall j | 0 <= j < |s.accepted| ensures OnRecord(s', s.accepted[j], retention) {
      assert OnRecord(s, s.accepted[j], retention);
    }
  }

  lemma StepKeepsInv(s: System, e: Event, retention: nat)
    requires Inv(s, retention)
    ensures Inv(Do(s, e, retention), retention)
  {
    if e.step.Record? {
      RecordKeepsInv(s, e, retention);
    } else {
      var s' := Do(s, e, retention);
      forall i | 0 <= i < |s.accepted| ensures OnRecord(s', s.accepted[i], retention) {
        assert OnRecord(s, s.accepted[i], retention);
      }
    }
  }

  lemma {:induction false} RunKeepsInv(devices: map<nat, Device>, events: seq<Event>, retention: nat)
    ensures var s := Run(devices, events, retention);
      Inv(s, retention) && SameWindows(devices, s.devices)
  {
    if events != [] {
      var before := events[..|events| - 1];
      RunKeepsInv(devices, before, retention);
      StepKeepsInv(Run(devices, before, retention), events[|events| - 1], retention);
    }
  }

  /** No two accepted requests of device `d` carry the same message. */
  ghost predicate NoReplay(accepted: seq<Accepted>, d: nat) {
    forall i, j :: 0 <= i < j < |accepted| && accepted[i].message.device == d ==>
      accepted[i].message != accepted[j].message
  }

  /** A message of device `d` that was accepted before is not accepted by this step. */
  lemma StepRefusesReplay(s: System, e: Event, retention: nat, d: nat, lag: nat)
    requires Inv(s, retention) && d in s.devices && Outlasts(retention, s.devices[d].window, lag)
    requires Prompt(Do(s, e, retention), lag) && NoReplay(s.accepted, d)
    ensures NoReplay(Do(s, e, retention).accepted, d)
  {
    var s' := Do(s, e, retention);
    if s'.accepted != s.accepted {
      var n := |s.accepted|;
      var p, now := s.pending[e.step.which], s'.clock;
      assert CheckedOk(s.devices, p.message, p.at, s.clock);
      assert s'.accepted[n] == Accepted(p.message, p.at, now, p.generation) && now <= p.at + lag;
      forall i | 0 <= i < n && s.accepted[i].message == p.message && p.message.device == d ensures false {
        var a := s.accepted[i];
        assert OnRecord(s, a, retention) && CheckedOk(s.devices, a.message, a.checked, s.clock);
        WindowSpan(a.checked, p.at, p.message.timestamp, s.devices[d].window);
      }
    }
  }

  /** Two instants in the window of one timestamp are less than two windows and a second apart. */
  lemma WindowSpan(a: int, b: int, timestamp: int, window: nat)
    requires InWindow(a, timestamp, window) && InWindow(b, timestamp, window)
    ensures b - a <= 2 * window * SECOND + SECOND - 1
  {
  }

  lemma {:induction false} RunRefusesReplay(
      devices: map<nat, Device>, events: seq<Event>, retention: nat, d: nat, lag: nat)
    requires d in devices && Outlasts(retention, devices[d].window, lag)
    requires Prompt(Run(devices, events, retention), lag)
    ensures NoReplay(Run(devices, events, retention).accepted, d)
  {
    if events != [] {
      var before, e := events[..|events| - 1], events[|events| - 1];
      var s := Run(devices, before, retention);
      var s' := Do(s, e, retention);
      assert s.accepted <= s'.accepted;
      assert Prompt(s, lag) by {
        assert forall i :: 0 <= i < |s.accepted| ==> s.accepted[i] == s'.accepted[i];
      }
      RunKeepsInv(devices, before, retention);
      RunRefusesReplay(devices, before, retention, d, lag);
      StepRefusesReplay(s, e, retention, d, lag);
    }
  }

  function Sample(window: nat): Message {
    Message(0, window, "0123456789abcdef", "{}")
  }

  function SampleDevices(window: nat): map<nat, Device> {
    map[0 := Device(7, 1, Active, window)]
  }

  /** A message checked and recorded at the earliest instant of its window. */
  lemma AcceptedOnce(window: nat, retention: nat) returns (events: seq<Event>)
    ensures var m := Sample(window);
      Run(SampleDevices(window), events, retention)
      == System(0, SampleDevices(window), map[(0, m.nonce) := 0], [], [Accepted(m, 0, 0, 1)])
  {
    var devices, m := SampleDevices(window), Sample(window);
    var arrive, record := Event(0, Arrive(Request(m, Sign(7, m)))), Event(0, Record(0));
    RunSnoc(devices, [], arrive, retention);
    assert Run(devices, [] + [arrive], retention) == System(0, devices, map[], [Checked(m, 0, 1)], []);
    RunSnoc(devices, [] + [arrive], record, retention);
    events := [] + [arrive] + [record];
  }

  /** Checked again at the last instant of its window. */
  lemma CheckedTwice(window: nat, retention: nat) returns (events: seq<Event>)
    ensures var m, later := Sample(window), 2 * window * SECOND + SECOND - 1;
      Run(SampleDevices(window), events, retention)
      == System(later, SampleDevices(window), map[(0, m.nonce) := 0], [Checked(m, later, 1)], [Accepted(m, 0, 0, 1)])
  {
    var devices, m := SampleDevices(window), Sample(window);
    var later := 2 * window * SECOND + SECOND - 1;
    assert later / SECOND == 2 * window;
    var again := Event(later, Arrive(Request(m, Sign(7, m))));
    var once := AcceptedOnce(window, retention);
    RunSnoc(devices, once, again, retention);
    events := once + [again];
  }

  /** Then a purge, `lag` later, that takes the nonce away. */
  lemma Purged(window: nat, retention: nat, lag: nat) returns (events: seq<Event>)
    requires !Outlasts(retention, window, lag)
    ensures var m, later := Sample(window), 2 * window * SECOND + SECOND - 1;
      Run(SampleDevices(window), events, retention)
      == System(later + lag, SampleDevices(window), map[], [Checked(m, later, 1)], [Accepted(m, 0, 0, 1)])
  {
    var devices := SampleDevices(window);
    var twice := CheckedTwice(window, retention);
    RunSnoc(devices, twice, Event(lag, Purge), retention);
    events := twice + [Event(lag, Purge)];
    assert Run(devices, events, retention).nonces == map[];
  }

  /** The last request waiting is recorded: nothing knows its nonce any more. */
  lemma LastRecorded(s: System, m: Message, checked: int, generation: nat, retention: nat)
    requires s.pending == [Checked(m, checked, generation)] && s.nonces == map[]
    ensures Do(s, Event(0, Record(0)), retention).accepted ==
            s.accepted + [Accepted(m, checked, s.clock, generation)]
  {
  }

  lemma TwiceAccepted(s: System, m: Message, later: int, lag: nat)
    requires s.accepted == [Accepted(m, 0, 0, 1), Accepted(m, later, later + lag, 1)] && m.device == 0
    ensures Prompt(s, lag) && !NoReplay(s.accepted, 0)
  {
    assert s.accepted[0].message == s.accepted[1].message;
  }

  /** If the retention does not outlast the windows, one message is accepted twice: it is checked
      again at the last instant of its window, and a purge comes just before it is recorded. */
  lemma ReplayHappens(window: nat, retention: nat, lag: nat) returns (events: seq<Event>)
    requires !Outlasts(retention, window, lag)
    ensures var s := Run(SampleDevices(window), events, retention);
      Prompt(s, lag) && !NoReplay(s.accepted, 0)
  {
    var devices, m := SampleDevices(window), Sample(window);
    var later := 2 * window * SECOND + SECOND - 1;
    var purged := Purged(window, retention, lag);
    RunSnoc(devices, purged, Event(0, Record(0)), retention);
    events := purged + [Event(0, Record(0))];
    LastRecorded(Run(devices, purged, retention), m, later, 1, retention);
    TwiceAccepted(Run(devices, events, retention), m, later, lag);
  }

  lemma RunSnoc(devices: map<nat, Device>, events: seq<Event>, e: Event, retention: nat)
    ensures Run(devices, events + [e], retention) == Do(Run(devices, events, retention), e, retention)
  {
    assert (events + [e])[..|events|] == events;
  }

  /** The exact condition: no run of submissions, purges, rotations and status changes accepts a
      message of a device twice if and only if the retention outlasts its window. */
  lemma ReplayProtectionExact(window: nat, retention: nat, lag: nat)
    ensures Outlasts(retention, window, lag) <==>
      forall devices: map<nat, Device>, events: seq<Event>, d: nat ::
        d in devices && devices[d].window == window && Prompt(Run(devices, events, retention), lag)
        ==> NoReplay(Run(devices, events, retention).accepted, d)
  {
    if Outlasts(retention, window, lag) {
      forall devices: map<nat, Device>, events: seq<Event>, d: nat |
        d in devices && devices[d].window == window && Prompt(Run(devices, events, retention), lag)
        ensures NoReplay(Run(devices, events, retention).accepted, d)
      {
        RunRefusesReplay(devices, events, retention, d, lag);
      }
    } else {
      var events := ReplayHappens(window, retention, lag);
      var devices := SampleDevices(window);
      assert devices[0].window == window;
      assert !NoReplay(Run(devices, events, retention).accepted, 0);
    }
  }

  /** With prompt recording the condition is that the retention exceeds two windows; the defaults,
      300 s and 900 s, leave almost 300 s for the lag. */
  lemma DefaultsOutlast(window: nat, retention: nat)
    ensures Outlasts(retention, window, 0) <==> 2 * window < retention
    ensures Outlasts(900, 300, 299 * SECOND)
  {
  }

  /** A signature made with another secret never passes. */
  lemma RotationInvalidates(devices: map<nat, Device>, d: nat, secret: nat, now: int, m: Message)
    requires d in devices && secret != devices[d].secret && m.device == d
    ensures CheckRequest(devices[d := AfterRotation(devices[d], secret)], now,
                         Request(m, Sign(devices[d].secret, m))) != Passed
  {
  }

  // ---------- rotations in a run ----------

  function RunFrom(s: System, events: seq<Event>, retention: nat): System {
    if events == [] then s
    else Do(RunFrom(s, events[..|events| - 1], retention), events[|events| - 1], retention)
  }

  /** Requests in flight were checked with a secret of the device's past or present, and no nonce is from
      the future. */
  predicate Dated(s: System) {
    && (forall i :: 0 <= i < |s.pending| ==>
          var p := s.pending[i];
          p.message.device in s.devices && p.generation <= s.devices[p.message.device].generation)
    && (forall k :: k in s.nonces ==> s.nonces[k] <= s.clock)
  }

  lemma GenerationsGrow(s: System, e: Event, retention: nat)
    ensures forall d :: d in s.devices ==>
      d in Do(s, e, retention).devices && s.devices[d].generation <= Do(s, e, retention).devices[d].generation
  {
  }

  lemma NoncesPast(s: System, e: Event, retention: nat)
    requires forall k :: k in s.nonces ==> s.nonces[k] <= s.clock
    ensures var s' := Do(s, e, retention);
      forall k :: k in s'.nonces ==> s'.nonces[k] <= s'.clock
  {
  }

  lemma StepDated(s: System, e: Event, retention: nat)
    requires Dated(s)
    ensures Dated(Do(s, e, retention))
  {
    var s' := Do(s, e, retention);
    GenerationsGrow(s, e, retention);
    NoncesPast(s, e, retention);
    forall i | 0 <= i < |s'.pending|
      ensures var p := s'.pending[i];
        p.message.device in s'.devices && p.generation <= s'.devices[p.message.device].generation
    {
      if e.step.Record? && e.step.which < |s.pending| {
        assert s'.pending[i] == s.pending[if i < e.step.which then i else i + 1];
      } else if i < |s.pending| {
        assert s'.pending[i] == s.pending[i];
      }
    }
  }

  lemma {:induction false} RunDated(devices: map<nat, Device>, events: seq<Event>, retention: nat)
    ensures Dated(Run(devices, events, retention))
  {
    if events != [] {
      RunDated(devices, events[..|events| - 1], retention);
      StepDated(Run(devices, events[..|events| - 1], retention), events[|events| - 1], retention);
    }
  }

  predicate Pending(s: System, m: Message) { exists i :: 0 <= i < |s.pending| && s.pending[i].message == m }

  /** Since `start`, the message was accepted on a check with a secret of generation `g` or older. */
  predicate AcceptedSince(start: System, s: System, m: Message, g: nat) {
    exists i :: |start.accepted| <= i < |s.accepted| && s.accepted[i].message == m && s.accepted[i].generation <= g
  }

  /** Whatever of device `d` was checked with generation `g` or older was in flight at `start`. */
  predicate FromStart(start: System, s: System, d: nat, g: nat) {
    && d in s.devices && s.devices[d].generation > g && |start.accepted| <= |s.accepted|
    && (forall i :: 0 <= i < |s.pending| && s.pending[i].message.device == d && s.pending[i].generation <= g ==>
          Pending(start, s.pending[i].message))
    && (forall i :: |start.accepted| <= i < |s.accepted| && OldOf(s.accepted[i], d, g) ==>
          Pending(start, s.accepted[i].message))
  }

  predicate OldOf(a: Accepted, d: nat, g: nat) { a.message.device == d && a.generation <= g }

  lemma StepFromStart(start: System, s: System, e: Event, retention: nat, d: nat, g: nat)
    requires FromStart(start, s, d, g)
    ensures FromStart(start, Do(s, e, retention), d, g)
  {
    var s' := Do(s, e, retention);
    forall i | 0 <= i < |s'.pending| && s'.pending[i].message.device == d && s'.pending[i].generation <= g
      ensures Pending(start, s'.pending[i].message)
    {
      if e.step.Record? && e.step.which < |s.pending| {
        assert s'.pending[i] == s.pending[if i < e.step.which then i else i + 1];
      } else {
        assert s'.pending[i] == s.pending[i];
      }
    }
  }

  lemma {:induction false} RunFromStart(start: System, events: seq<Event>, retention: nat, d: nat, g: nat)
    requires FromStart(start, start, d, g)
    ensures FromStart(start, RunFrom(start, events, retention), d, g)
  {
    if events != [] {
      RunFromStart(start, events[..|events| - 1], retention, d, g);
      StepFromStart(start, RunFrom(start, events[..|events| - 1], retention), events[|events| - 1], retention, d, g);
    }
  }

  /** A request in flight can always be accepted: when its nonce is on record, a purge makes room. */
  lemma PendingAccepted(s: System, i: nat, retention: nat, g: nat) returns (events: seq<Event>)
    requires Dated(s) && i < |s.pending| && s.pending[i].generation <= g
    ensures AcceptedSince(s, RunFrom(s, events, retention), s.pending[i].message, g)
    ensures forall k :: 0 <= k < |events| ==> events[k].step.Purge? || events[k].step.Record?
  {
    var purge, record := Event(retention * SECOND + 1, Purge), Event(0, Record(i));
    events := [purge, record];
    assert events[..1] == [purge] && [purge][..0] == [];
    var purged := Do(s, purge, retention);
    assert RunFrom(s, [purge], retention) == purged;
    assert purged.nonces == map[];
    var after := Do(purged, record, retention);
    assert RunFrom(s, events, retention) == after;
    assert after.accepted[|s.accepted|].message == s.pending[i].message;
  }

  function Rotated(s: System, d: nat, secret: nat, retention: nat): System {
    Do(s, Event(0, Rotate(d, secret)), retention)
  }

  lemma RotationFacts(s: System, d: nat, secret: nat, retention: nat)
    requires Dated(s) && d in s.devices
    ensures var start := Rotated(s, d, secret, retention);
      && Dated(start) && start.pending == s.pending && start.accepted == s.accepted
      && FromStart(start, start, d, s.devices[d].generation)
  {
    var start := Rotated(s, d, secret, retention);
    StepDated(s, Event(0, Rotate(d, secret)), retention);
    assert start.devices == s.devices[d := AfterRotation(s.devices[d], secret)];
    forall i | 0 <= i < |start.pending| ensures Pending(start, start.pending[i].message) {
    }
  }

  ghost predicate OldSecretAccepted(start: System, m: Message, g: nat, retention: nat) {
    exists more :: AcceptedSince(start, RunFrom(start, more, retention), m, g)
  }

  /** Exactly which messages with an old secret can still be accepted after a rotation: those that had been
      checked and were waiting for their nonce to be recorded. */
  lemma RotationExact(s: System, d: nat, secret: nat, retention: nat, m: Message)
    requires Dated(s) && d in s.devices && m.device == d
    ensures OldSecretAccepted(Rotated(s, d, secret, retention), m, s.devices[d].generation, retention)
      <==> Pending(s, m)
  {
    var start, g := Rotated(s, d, secret, retention), s.devices[d].generation;
    RotationFacts(s, d, secret, retention);
    if i :| 0 <= i < |s.pending| && s.pending[i].message == m {
      var more := PendingAccepted(start, i, retention, g);
    }
    if OldSecretAccepted(start, m, g, retention) {
      var more :| AcceptedSince(start, RunFrom(start, more, retention), m, g);
      RunFromStart(start, more, retention, d, g);
      OldWasPending(start, RunFrom(start, more, retention), d, g, m);
    }
  }

  lemma OldWasPending(start: System, s: System, d: nat, g: nat, m: Message)
    requires FromStart(start, s, d, g) && AcceptedSince(start, s, m, g) && m.device == d
    ensures Pending(start, m)
  {
    var i :| |start.accepted| <= i < |s.accepted| && s.accepted[i].message == m && s.accepted[i].generation <= g;
    assert OldOf(s.accepted[i], d, g);
  }

  /** In every run. */
  lemma RotationInRun(devices: map<nat, Device>, events: seq<Event>, retention: nat, d: nat, secret: nat, m: Message)
    requires d in Run(devices, events, retention).devices && m.device == d
    ensures var s := Run(devices, events, retention);
      OldSecretAccepted(Rotated(s, d, secret, retention), m, s.devices[d].generation, retention) <==> Pending(s, m)
  {
    RunDated(devices, events, retention);
    RotationExact(Run(devices, events, retention), d, secret, retention, m);
  }
}
