/** Which requests the OBD gate lets in: what every accepted message must have been, and what a suspension
    still lets through. */
module ObdAcceptance {
  import opened ObdReplay

  // ---------- one check ----------

  /** The sender holds the device's secret of the moment, the device is active, the timestamp is within its
      window, and the nonce has 16 to 64 characters. */
  predicate Genuine(devices: map<nat, Device>, now: int, r: Request) {
    var m := r.message;
    && 16 <= |m.nonce| <= 64 && m.device in devices && devices[m.device].status == Active
    && m.timestamp - devices[m.device].window <= now / 1_000_000 <= m.timestamp + devices[m.device].window
    && r.signature == Hmac(devices[m.device].secret, m.timestamp, m.nonce, m.body)
  }

  /** The first thing wrong with a request, in the order nonce, device, timestamp, signature, is what it is
      refused for; one with nothing wrong passes. */
  lemma VerdictExact(devices: map<nat, Device>, now: int, r: Request)
    ensures var v, m := CheckRequest(devices, now, r), r.message;
      && (v == Passed <==> Genuine(devices, now, r))
      && (v == BadNonce <==> !(16 <= |m.nonce| <= 64))
      && (v in {Passed, StaleTimestamp, BadSignature} <==>
            16 <= |m.nonce| <= 64 && m.device in devices && devices[m.device].status == Active)
      && (v == BadSignature ==> InWindow(now, m.timestamp, devices[m.device].window))
      && (v == StaleTimestamp ==> !InWindow(now, m.timestamp, devices[m.device].window))
  {
  }

  /** A request waits to be recorded after its arrival if and only if it is genuine at that moment. */
  lemma ArrivalExact(s: System, wait: nat, r: Request, retention: nat)
    ensures var n, now := Do(s, Event(wait, Arrive(r)), retention), s.clock + wait;
      && (Genuine(s.devices, now, r) ==>
            n.pending == s.pending + [Checked(r.message, now, s.devices[r.message.device].generation)])
      && (!Genuine(s.devices, now, r) ==> n.pending == s.pending)
      && n.accepted == s.accepted && n.nonces == s.nonces && n.devices == s.devices && n.clock == now
  {
    VerdictExact(s.devices, s.clock + wait, r);
  }

  // ---------- every run ----------

  /** Step `i` of the run was the arrival of this message at this time, and it was genuine then. */
  predicate CheckedAt(devices: map<nat, Device>, events: seq<Event>, retention: nat, i: nat, m: Message, at: int)
    requires i < |events|
  {
    var s := Run(devices, events[..i], retention);
    && events[i].step.Arrive? && events[i].step.request.message == m && s.clock + events[i].wait == at
    && Genuine(s.devices, at, events[i].step.request)
  }

  ghost predicate WasChecked(devices: map<nat, Device>, events: seq<Event>, retention: nat, m: Message, at: int) {
    exists i :: 0 <= i < |events| && CheckedAt(devices, events, retention, i, m, at)
  }

  ghost predicate AllChecked(devices: map<nat, Device>, events: seq<Event>, retention: nat) {
    var s := Run(devices, events, retention);
    && (forall j :: 0 <= j < |s.pending| ==>
          WasChecked(devices, events, retention, s.pending[j].message, s.pending[j].at))
    && (forall j :: 0 <= j < |s.accepted| ==>
          WasChecked(devices, events, retention, s.accepted[j].message, s.accepted[j].checked))
  }

  lemma CheckedStays(devices: map<nat, Device>, before: seq<Event>, e: Event, retention: nat, m: Message, at: int)
    requires WasChecked(devices, before, retention, m, at)
    ensures WasChecked(devices, before + [e], retention, m, at)
  {
    var i :| 0 <= i < |before| && CheckedAt(devices, before, retention, i, m, at);
    var all := before + [e];
    assert all[..i] == before[..i] && all[i] == before[i];
    assert CheckedAt(devices, all, retention, i, m, at);
  }

  lemma ArrivalChecked(devices: map<nat, Device>, before: seq<Event>, e: Event, retention: nat)
    requires e.step.Arrive?
    requires var s := Run(devices, before, retention); Genuine(s.devices, s.clock + e.wait, e.step.request)
    ensures var s := Run(devices, before, retention);
      WasChecked(devices, before + [e], retention, e.step.request.message, s.clock + e.wait)
  {
    var all := before + [e];
    assert all[..|before|] == before;
    assert CheckedAt(devices, all, retention, |before|, e.step.request.message,
                     Run(devices, before, retention).clock + e.wait);
  }

  /** What waits or is accepted after a step did so before, or has just arrived. */
  lemma WhereFrom(s: System, e: Event, retention: nat)
    ensures var n := Do(s, e, retention);
      && (forall j :: 0 <= j < |n.pending| ==>
            n.pending[j] in s.pending ||
            (e.step.Arrive? && Genuine(s.devices, s.clock + e.wait, e.step.request) &&
             n.pending[j].message == e.step.request.message && n.pending[j].at == s.clock + e.wait))
      && (forall j :: 0 <= j < |n.accepted| ==>
            n.accepted[j] in s.accepted ||
            exists p :: p in s.pending && p.message == n.accepted[j].message && p.at == n.accepted[j].checked)
  {
    if e.step.Arrive? { ArrivalExact(s, e.wait, e.step.request, retention); }
    if e.step.Record? && e.step.which < |s.pending| { assert s.pending[e.step.which] in s.pending; }
  }

  lemma StepChecked(devices: map<nat, Device>, before: seq<Event>, e: Event, retention: nat)
    requires AllChecked(devices, before, retention)
    ensures AllChecked(devices, before + [e], retention)
  {
    var s, all := Run(devices, before, retention), before + [e];
    var n := Run(devices, all, retention);
    RunSnoc(devices, before, e, retention);
    WhereFrom(s, e, retention);
    forall p | p in s.pending ensures WasChecked(devices, all, retention, p.message, p.at) {
      CheckedStays(devices, before, e, retention, p.message, p.at);
    }
    forall j | 0 <= j < |n.pending|
      ensures WasChecked(devices, all, retention, n.pending[j].message, n.pending[j].at)
    {
      if n.pending[j] !in s.pending { ArrivalChecked(devices, before, e, retention); }
    }
    forall j | 0 <= j < |n.accepted|
      ensures WasChecked(devices, all, retention, n.accepted[j].message, n.accepted[j].checked)
    {
      if n.accepted[j] in s.accepted {
        CheckedStays(devices, before, e, retention, n.accepted[j].message, n.accepted[j].checked);
      }
    }
  }

  lemma {:induction false} RunChecked(devices: map<nat, Device>, events: seq<Event>, retention: nat)
    ensures AllChecked(devices, events, retention)
  {
    if events != [] {
      RunChecked(devices, events[..|events| - 1], retention);
      assert events == events[..|events| - 1] + [events[|events| - 1]];
      StepChecked(devices, events[..|events| - 1], events[|events| - 1], retention);
    }
  }

  /** Over every run an accepted message arrived, at the time it was checked, from an active device, with a
      nonce of 16 to 64 characters, within the window, and signed with the secret of that moment. */
  lemma AcceptedWasGenuine(devices: map<nat, Device>, events: seq<Event>, retention: nat, j: nat) returns (i: nat)
    requires j < |Run(devices, events, retention).accepted|
    ensures var a := Run(devices, events, retention).accepted[j];
      i < |events| && CheckedAt(devices, events, retention, i, a.message, a.checked)
  {
    RunChecked(devices, events, retention);
    var a := Run(devices, events, retention).accepted[j];
    i :| 0 <= i < |events| && CheckedAt(devices, events, retention, i, a.message, a.checked);
  }

  // ---------- suspension ----------

  /** Nothing in the run makes the device active. */
  predicate NotReactivated(events: seq<Event>, d: nat) {
    forall i :: 0 <= i < |events| ==> events[i].step != SetStatus(d, Active)
  }

  /** Since `start`, the message has been accepted. */
  predicate AcceptedAfter(start: System, s: System, m: Message) {
    exists i :: |start.accepted| <= i < |s.accepted| && s.accepted[i].message == m
  }

  /** The device is still out of service, and whatever of it waits, or has been accepted since, waited then. */
  predicate OutOfService(start: System, s: System, d: nat) {
    && (d in s.devices ==> s.devices[d].status != Active) && |start.accepted| <= |s.accepted|
    && (forall i :: 0 <= i < |s.pending| && s.pending[i].message.device == d ==> Pending(start, s.pending[i].message))
    && (forall i :: |start.accepted| <= i < |s.accepted| && s.accepted[i].message.device == d ==>
          Pending(start, s.accepted[i].message))
  }

  lemma StepOutOfService(start: System, s: System, e: Event, retention: nat, d: nat)
    requires OutOfService(start, s, d) && e.step != SetStatus(d, Active)
    ensures OutOfService(start, Do(s, e, retention), d)
  {
    var n := Do(s, e, retention);
    if e.step.Arrive? { ArrivalExact(s, e.wait, e.step.request, retention); }
    forall i | 0 <= i < |n.pending| && n.pending[i].message.device == d
      ensures Pending(start, n.pending[i].message)
    {
      if e.step.Record? && e.step.which < |s.pending| {
        assert n.pending[i] == s.pending[if i < e.step.which then i else i + 1];
      } else {
        assert n.pending[i] == s.pending[i];
      }
    }
  }

  lemma {:induction false} StaysOutOfService(start: System, events: seq<Event>, retention: nat, d: nat)
    requires OutOfService(start, start, d) && NotReactivated(events, d)
    ensures OutOfService(start, RunFrom(start, events, retention), d)
  {
    if events != [] {
      StaysOutOfService(start, events[..|events| - 1], retention, d);
      StepOutOfService(start, RunFrom(start, events[..|events| - 1], retention), events[|events| - 1], retention, d);
    }
  }

  ghost predicate LetIn(start: System, d: nat, m: Message, retention: nat) {
    exists more :: NotReactivated(more, d) && AcceptedAfter(start, RunFrom(start, more, retention), m)
  }

  lemma PendingLetIn(s: System, d: nat, i: nat, retention: nat)
    requires Dated(s) && i < |s.pending|
    ensures LetIn(s, d, s.pending[i].message, retention)
  {
    var more := PendingAccepted(s, i, retention, s.pending[i].generation);
    var n, m := RunFrom(s, more, retention), s.pending[i].message;
    var k :| |s.accepted| <= k < |n.accepted| && n.accepted[k].message == m &&
             n.accepted[k].generation <= s.pending[i].generation;
    assert AcceptedAfter(s, n, m) && NotReactivated(more, d);
  }

  function Suspended(s: System, d: nat, status: Status, retention: nat): System {
    Do(s, Event(0, SetStatus(d, status)), retention)
  }

  /** Exactly what a suspended or revoked device can still get accepted before it is made active again: the
      messages that had been checked and were waiting for their nonce to be recorded. */
  lemma SuspensionExact(s: System, d: nat, status: Status, retention: nat, m: Message)
    requires Dated(s) && d in s.devices && status != Active && m.device == d
    ensures LetIn(Suspended(s, d, status, retention), d, m, retention) <==> Pending(s, m)
  {
    var start := Suspended(s, d, status, retention);
    StepDated(s, Event(0, SetStatus(d, status)), retention);
    assert start.pending == s.pending && start.accepted == s.accepted;
    if i :| 0 <= i < |s.pending| && s.pending[i].message == m {
      PendingLetIn(start, d, i, retention);
    }
    if LetIn(start, d, m, retention) {
      var more :| NotReactivated(more, d) && AcceptedAfter(start, RunFrom(start, more, retention), m);
      var n := RunFrom(start, more, retention);
      assert OutOfService(start, start, d);
      StaysOutOfService(start, more, retention, d);
      var k :| |start.accepted| <= k < |n.accepted| && n.accepted[k].message == m;
      assert n.accepted[k].message.device == d;
    }
  }

  /** In every run. */
  lemma SuspensionInRun(
      devices: map<nat, Device>, events: seq<Event>, retention: nat, d: nat, status: Status, m: Message)
    requires d in Run(devices, events, retention).devices && status != Active && m.device == d
    ensures var s := Run(devices, events, retention);
      LetIn(Suspended(s, d, status, retention), d, m, retention) <==> Pending(s, m)
  {
    RunDated(devices, events, retention);
    SuspensionExact(Run(devices, events, retention), d, status, retention, m);
  }
}
