/** A transmitter's legal airtime, metered over a sliding hour. */
module Airtime {
  import opened Basics

  const DUTY_CYCLE_BUDGET_MS: u64 := 36_000
  const DUTY_CYCLE_WINDOW_MS: u64 := 3_600_000

  /** One transmission: when it went out, and how long it took. */
  datatype Sent = Sent(at: u64, air: u64)

  datatype Meter = Meter(sent: seq<Sent>, total: u64)

  predicate DutyCycleOk(used: u64, next: u64) {
    SaturatingAdd(used, next) <= DUTY_CYCLE_BUDGET_MS
  }

  /** The oldest moment the hour ending now reaches back to. */
  function Horizon(now: u64): u64 {
    SaturatingSub(now, DUTY_CYCLE_WINDOW_MS)
  }

  function Evicted(m: Meter, now: u64): Meter
    decreases |m.sent|
  {
    if m.sent == [] || m.sent[0].at >= Horizon(now) then m
    else Evicted(Meter(m.sent[1..], SaturatingSub(m.total, m.sent[0].air)), now)
  }

  function Charged(m: Meter, now: u64, air: u64): Meter {
    Meter(m.sent + [Sent(now, air)], SaturatingAdd(m.total, air))
  }

  function Transmitted(m: Meter, now: u64, air: u64): (Meter, bool) {
    var e := Evicted(m, now);
    if DutyCycleOk(e.total, air) then (Charged(e, now, air), true) else (e, false)
  }

  function Primed(prior: u64): Meter {
    if prior > 0 then Charged(Meter([], 0), 0, prior) else Meter([], 0)
  }

  class AirtimeBudget {
    var sent: seq<Sent>
    var total: u64

    function Model(): Meter
      reads this
    {
      Meter(sent, total)
    }

    constructor WithPrior(prior: u64)
      ensures Model() == Primed(prior)
    {
      sent, total := [], 0;
      new;
      if prior > 0 {
        Charge(0, prior);
      }
    }

    method Charge(now: u64, air: u64)
      modifies this
      ensures Model() == Charged(old(Model()), now, air)
    {
      sent := sent + [Sent(now, air)];
      total := SaturatingAdd(total, air);
    }

    method Evict(now: u64)
      modifies this
      ensures Model() == Evicted(old(Model()), now)
    {
      var horizon := Horizon(now);
      while sent != []
        invariant Evicted(Model(), now) == Evicted(old(Model()), now)
        decreases |sent|
      {
        if sent[0].at >= horizon {
          break;
        }
        var air := sent[0].air;
        sent := sent[1..];
        total := SaturatingSub(total, air);
      }
    }

    method UsedMs(now: u64) returns (used: u64)
      modifies this
      ensures Model() == Evicted(old(Model()), now) && used == Model().total
    {
      Evict(now);
      return total;
    }

    method Allows(now: u64, air: u64) returns (ok: bool)
      modifies this
      ensures Model() == Evicted(old(Model()), now) && ok == DutyCycleOk(Model().total, air)
    {
      Evict(now);
      return DutyCycleOk(total, air);
    }

    method Transmit(now: u64, air: u64) returns (ok: bool)
      modifies this
      ensures (Model(), ok) == Transmitted(old(Model()), now, air)
    {
      ok := Allows(now, air);
      if ok {
        Charge(now, air);
      }
    }
  }

  // ---- airtime over the full history ----

  function Sum(h: seq<Sent>): nat {
    if h == [] then 0 else h[0].air + Sum(h[1..])
  }

  /** Airtime of everything sent between two moments, both included. */
  function SumBetween(h: seq<Sent>, from: nat, to: nat): nat {
    if h == [] then 0
    else
      var last := h[|h| - 1];
      SumBetween(h[..|h| - 1], from, to) + if from <= last.at <= to then last.air else 0
  }

  ghost predicate Sorted(h: seq<Sent>) {
    forall i, j :: 0 <= i < j < |h| ==> h[i].at <= h[j].at
  }

  ghost predicate NothingAfter(h: seq<Sent>, now: nat) {
    forall i :: 0 <= i < |h| ==> h[i].at <= now
  }

  /** The meter remembers the end of the history, forgot only what no later hour
      can reach, and its total is exact. */
  ghost predicate Tracks(m: Meter, h: seq<Sent>, now: u64) {
    Sorted(h) && NothingAfter(h, now) && m.total == Sum(m.sent) && |m.sent| <= |h|
    && m.sent == h[|h| - |m.sent|..]
    && forall i :: 0 <= i < |h| - |m.sent| ==> h[i].at < Horizon(now)
  }

  lemma {:induction false} EvictTracks(m: Meter, h: seq<Sent>, before: u64, now: u64)
    requires Tracks(m, h, before) && before <= now
    ensures Tracks(Evicted(m, now), h, now)
    ensures forall i :: 0 <= i < |Evicted(m, now).sent| ==> Evicted(m, now).sent[i].at >= Horizon(now)
    decreases |m.sent|
  {
    if m.sent != [] && m.sent[0].at < Horizon(now) {
      var next := Meter(m.sent[1..], SaturatingSub(m.total, m.sent[0].air));
      assert Tracks(next, h, now);
      EvictTracks(next, h, now, now);
    } else {
      SuffixStays(m, h, now);
    }
  }

  lemma SuffixStays(m: Meter, h: seq<Sent>, now: u64)
    requires Sorted(h) && |m.sent| <= |h| && m.sent == h[|h| - |m.sent|..]
    requires m.sent == [] || m.sent[0].at >= Horizon(now)
    ensures forall i :: 0 <= i < |m.sent| ==> m.sent[i].at >= Horizon(now)
  {
    forall i | 0 <= i < |m.sent|
      ensures m.sent[i].at >= Horizon(now)
    {
      var k := |h| - |m.sent|;
      assert m.sent[i] == h[k + i] && m.sent[0] == h[k];
    }
  }

  lemma {:induction false} SumSnoc(h: seq<Sent>, s: Sent)
    ensures Sum(h + [s]) == Sum(h) + s.air
  {
    if h == [] {
      assert ([s])[1..] == [];
    } else {
      assert (h + [s])[1..] == h[1..] + [s];
      SumSnoc(h[1..], s);
    }
  }

  /** Nothing of it lies within. */
  lemma {:induction false} SumOutside(h: seq<Sent>, from: nat, to: nat)
    requires forall i :: 0 <= i < |h| ==> h[i].at < from
    ensures SumBetween(h, from, to) == 0
  {
    if h != [] {
      SumOutside(h[..|h| - 1], from, to);
    }
  }

  /** What the meter still holds is what a naive sum over everything counts. */
  lemma {:induction false} SumOfSuffix(h: seq<Sent>, k: nat, from: nat, to: nat)
    requires k <= |h|
    requires forall i :: 0 <= i < k ==> h[i].at < from
    requires forall i :: k <= i < |h| ==> from <= h[i].at <= to
    ensures SumBetween(h, from, to) == Sum(h[k..])
    decreases |h|
  {
    if k == |h| {
      SumOutside(h, from, to);
    } else {
      var front, last := h[..|h| - 1], h[|h| - 1];
      SumOfSuffix(front, k, from, to);
      SumSnoc(front[k..], last);
      assert h[k..] == front[k..] + [last];
    }
  }

  /** The evicted total is the airtime of the closed hour ending now, over all
      that was ever sent. */
  lemma TotalIsTheHour(m: Meter, h: seq<Sent>, before: u64, now: u64)
    requires Tracks(m, h, before) && before <= now
    ensures Evicted(m, now).total == SumBetween(h, Horizon(now), now)
  {
    EvictTracks(m, h, before, now);
    var e := Evicted(m, now);
    var k := |h| - |e.sent|;
    forall i | k <= i < |h|
      ensures Horizon(now) <= h[i].at <= now
    {
      assert h[i] == e.sent[i - k];
    }
    SumOfSuffix(h, k, Horizon(now), now);
  }

  // ---- whole runs ----

  datatype Request = Request(now: u64, air: u64)

  ghost predicate Forward(requests: seq<Request>, from: u64) {
    (forall i :: 0 <= i < |requests| ==> from <= requests[i].now)
    && forall i, j :: 0 <= i < j < |requests| ==> requests[i].now <= requests[j].now
  }

  function After(h: seq<Sent>, r: Request, ok: bool): seq<Sent> {
    if ok then h + [Sent(r.now, r.air)] else h
  }

  /** The meter after a run of requests, and everything that went out. */
  function Run(m: Meter, h: seq<Sent>, requests: seq<Request>): (Meter, seq<Sent>)
    decreases |requests|
  {
    if requests == [] then (m, h)
    else
      var (next, ok) := Transmitted(m, requests[0].now, requests[0].air);
      Run(next, After(h, requests[0], ok), requests[1..])
  }

  /** A run goes on where the run before its last request ended. */
  lemma {:induction false} RunSnoc(m: Meter, h: seq<Sent>, requests: seq<Request>, r: Request)
    ensures var (before, sent) := Run(m, h, requests);
            var (next, ok) := Transmitted(before, r.now, r.air);
            Run(m, h, requests + [r]) == (next, After(sent, r, ok))
    decreases |requests|
  {
    var all := requests + [r];
    if requests == [] {
      assert all == [r] && all[1..] == [];
    } else {
      var (next, ok) := Transmitted(m, requests[0].now, requests[0].air);
      assert all[0] == requests[0] && all[1..] == requests[1..] + [r];
      RunSnoc(next, After(h, requests[0], ok), requests[1..], r);
    }
  }

  /** Each transmission, when it went out, kept the hour ending then within the
      budget. */
  ghost predicate Legal(h: seq<Sent>) {
    h == []
    || (Legal(h[..|h| - 1])
        && SumBetween(h, Horizon(h[|h| - 1].at), h[|h| - 1].at) <= DUTY_CYCLE_BUDGET_MS)
  }

  lemma ChargedTracks(m: Meter, h: seq<Sent>, now: u64, air: u64)
    requires Tracks(m, h, now) && m.total + air <= U64_MAX
    ensures Tracks(Charged(m, now, air), h + [Sent(now, air)], now)
  {
    SumSnoc(m.sent, Sent(now, air));
    var longer := h + [Sent(now, air)];
    assert m.sent + [Sent(now, air)] == longer[|longer| - (|m.sent| + 1)..];
  }

  /** A frame goes out exactly if, over everything ever sent, the closed hour
      ending now has room for it. */
  lemma RefusedOnlyWhenOver(m: Meter, h: seq<Sent>, before: u64, now: u64, air: u64)
    requires Tracks(m, h, before) && before <= now
    ensures Transmitted(m, now, air).1
       <==> SumBetween(h, Horizon(now), now) + air <= DUTY_CYCLE_BUDGET_MS
  {
    TotalIsTheHour(m, h, before, now);
  }

  lemma TransmitKeeps(m: Meter, h: seq<Sent>, before: u64, r: Request)
    requires Tracks(m, h, before) && before <= r.now && Legal(h)
    ensures Tracks(Transmitted(m, r.now, r.air).0, After(h, r, Transmitted(m, r.now, r.air).1), r.now)
    ensures Legal(After(h, r, Transmitted(m, r.now, r.air).1))
  {
    EvictTracks(m, h, before, r.now);
    RefusedOnlyWhenOver(m, h, before, r.now, r.air);
    if Transmitted(m, r.now, r.air).1 {
      ChargedTracks(Evicted(m, r.now), h, r.now, r.air);
      LegalSnoc(h, Sent(r.now, r.air));
    }
  }

  lemma LegalSnoc(h: seq<Sent>, s: Sent)
    requires Legal(h) && SumBetween(h, Horizon(s.at), s.at) + s.air <= DUTY_CYCLE_BUDGET_MS
    ensures Legal(h + [s])
  {
    var after := h + [s];
    assert after[..|after| - 1] == h;
  }

  ghost predicate Kept(m: Meter, h: seq<Sent>) {
    Legal(h) && exists last :: Tracks(m, h, last)
  }

  lemma ForwardRest(requests: seq<Request>, from: u64)
    requires requests != [] && Forward(requests, from)
    ensures from <= requests[0].now && Forward(requests[1..], requests[0].now)
  {
  }

  lemma {:induction false} RunKeeps(m: Meter, h: seq<Sent>, before: u64, requests: seq<Request>)
    requires Tracks(m, h, before) && Legal(h) && Forward(requests, before)
    ensures Kept(Run(m, h, requests).0, Run(m, h, requests).1)
    decreases |requests|
  {
    if requests != [] {
      var r := requests[0];
      ForwardRest(requests, before);
      TransmitKeeps(m, h, before, r);
      var (next, ok) := Transmitted(m, r.now, r.air);
      RunKeeps(next, After(h, r, ok), r.now, requests[1..]);
    }
  }

  lemma {:induction false} NarrowerIsLess(h: seq<Sent>, from: nat, to: nat, wideFrom: nat, wideTo: nat)
    requires forall i :: 0 <= i < |h| && from <= h[i].at <= to ==> wideFrom <= h[i].at <= wideTo
    ensures SumBetween(h, from, to) <= SumBetween(h, wideFrom, wideTo)
  {
    if h != [] {
      NarrowerIsLess(h[..|h| - 1], from, to, wideFrom, wideTo);
    }
  }

  /** If every transmission was within budget when it was sent, every closed hour
      whatever is. */
  lemma {:induction false} EveryHourIsLegal(h: seq<Sent>, t: nat)
    requires Sorted(h) && Legal(h)
    ensures SumBetween(h, t, t + DUTY_CYCLE_WINDOW_MS) <= DUTY_CYCLE_BUDGET_MS
  {
    if h != [] {
      var last := h[|h| - 1];
      if t <= last.at <= t + DUTY_CYCLE_WINDOW_MS {
        NarrowerIsLess(h, t, t + DUTY_CYCLE_WINDOW_MS, Horizon(last.at), last.at);
      } else {
        EveryHourIsLegal(h[..|h| - 1], t);
      }
    }
  }

  function PriorHistory(prior: u64): seq<Sent> {
    if prior > 0 then [Sent(0, prior)] else []
  }

  lemma NothingTracks()
    ensures Tracks(Meter([], 0), [], 0)
  {
  }

  lemma BeginsTracking(m: Meter, h: seq<Sent>, prior: u64)
    requires Tracks(m, h, 0) && h == [] && m.total == 0
    ensures Tracks(Charged(m, 0, prior), [Sent(0, prior)], 0)
  {
    ChargedTracks(m, h, 0, prior);
    assert h + [Sent(0, prior)] == [Sent(0, prior)];
  }

  lemma PriorTracks(prior: u64)
    ensures Tracks(Primed(prior), PriorHistory(prior), 0)
  {
    NothingTracks();
    BeginsTracking(Meter([], 0), [], prior);
  }

  lemma PriorLegal(prior: u64)
    requires prior <= DUTY_CYCLE_BUDGET_MS
    ensures Legal(PriorHistory(prior))
  {
    if prior > 0 {
      LegalSnoc([], Sent(0, prior));
      assert [] + [Sent(0, prior)] == [Sent(0, prior)];
    }
  }

  /** Over every run with time never going back, from a budget at or under the
      cap: whatever closed hour is looked at, no more than the budget went out in
      it. */
  lemma EveryRunIsLegal(prior: u64, requests: seq<Request>, t: nat)
    requires prior <= DUTY_CYCLE_BUDGET_MS && Forward(requests, 0)
    ensures SumBetween(Run(Primed(prior), PriorHistory(prior), requests).1,
                       t, t + DUTY_CYCLE_WINDOW_MS) <= DUTY_CYCLE_BUDGET_MS
  {
    PriorTracks(prior);
    PriorLegal(prior);
    RunKeeps(Primed(prior), PriorHistory(prior), 0, requests);
    EveryHourIsLegal(Run(Primed(prior), PriorHistory(prior), requests).1, t);
  }
}
