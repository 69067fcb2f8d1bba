/** The request limiter: one fixed window of a minute for each key, restarted by the first request after it. */
module RateLimit {
  import opened Sequences

  const MINUTE := 60_000_000_000
  const LIMIT := 600

  /** `started` is zero for a key that has made no request. */
  datatype Window = Window(started: int, count: nat)

  const NONE := Window(0, 0)

  /** A request: its key and the clock reading in nanoseconds. */
  datatype Request = Request(key: string, now: int)

  function Roll(v: Window, now: int): Window {
    var w := if v.started == 0 || now - v.started >= MINUTE then Window(now, 0) else v;
    w.(count := w.count + 1)
  }

  function Lookup(rate: map<string, Window>, key: string): Window {
    if key in rate then rate[key] else NONE
  }

  class Server {
    var rate: map<string, Window>

    constructor ()
      ensures rate == map[]
    {
      rate := map[];
    }

    method Allow(key: string, now: int) returns (ok: bool)
      modifies this
      ensures rate == old(rate)[key := Roll(Lookup(old(rate), key), now)]
      ensures ok <==> rate[key].count <= LIMIT
      ensures if key !in old(rate) || old(rate)[key].started == 0 || now - old(rate)[key].started >= 60_000_000_000
        then rate == old(rate)[key := Window(now, 1)] && ok
        else
          && rate == old(rate)[key := Window(old(rate)[key].started, old(rate)[key].count + 1)]
          && (ok <==> old(rate)[key].count < 600)
    {
      var v := if key in rate then rate[key] else Window(0, 0);
      if v.started == 0 || now - v.started >= MINUTE {
        v := Window(now, 0);
      }
      v := v.(count := v.count + 1);
      rate := rate[key := v];
      return v.count <= LIMIT;
    }
  }

  // --- Runs ------------------------------------------------------------------------------------

  /** The windows after a run. */
  function After(run: seq<Request>): map<string, Window> {
    if run == [] then map[]
    else
      var r := run[|run| - 1];
      var rate := After(run[..|run| - 1]);
      rate[r.key := Roll(Lookup(rate, r.key), r.now)]
  }

  /** The answer to the last request of a run. */
  predicate Allowed(run: seq<Request>)
    requires run != []
  {
    var r := run[|run| - 1];
    After(run)[r.key].count <= LIMIT
  }

  /** The clock never runs backwards and is never the zero time. */
  ghost predicate Clocked(run: seq<Request>) {
    && (forall i :: 0 <= i < |run| ==> 0 < run[i].now)
    && (forall i, j :: 0 <= i < j < |run| ==> run[i].now <= run[j].now)
  }

  /** How many requests of the key with a reading in [from, to) are admitted. */
  function Admitted(run: seq<Request>, key: string, from: int, to: int): nat {
    if run == [] then 0
    else
      var n := |run| - 1;
      Admitted(run[..n], key, from, to) + if run[n].key == key && from <= run[n].now < to && Allowed(run) then 1 else 0
  }

  // --- Keys are independent --------------------------------------------------------------------

  function OfKey(key: string): Request -> bool { (r: Request) => r.key == key }

  /** A key's window depends on that key's own requests only. */
  lemma {:induction false} WindowDependsOnOwnRequests(run: seq<Request>, key: string)
    ensures Lookup(After(run), key) == Lookup(After(Filter(OfKey(key), run)), key)
  {
    if run != [] {
      var n := |run| - 1;
      WindowDependsOnOwnRequests(run[..n], key);
      var own := Filter(OfKey(key), run[..n]);
      if run[n].key == key {
        assert Filter(OfKey(key), run) == own + [run[n]];
        assert (own + [run[n]])[..|own|] == own;
      } else {
        assert Filter(OfKey(key), run) == own;
      }
    }
  }

  /** So the answer to a request is the one it would get if no other key existed. */
  lemma KeysDoNotAffectEachOther(run: seq<Request>)
    requires run != []
    ensures var key := run[|run| - 1].key; var own := Filter(OfKey(key), run);
      own != [] && (Allowed(run) <==> Allowed(own))
  {
    var n := |run| - 1;
    var key := run[n].key;
    WindowDependsOnOwnRequests(run, key);
    var before := Filter(OfKey(key), run[..n]);
    assert Filter(OfKey(key), run) == before + [run[n]];
    assert (before + [run[n]])[|before|] == run[n];
  }

  // --- The sliding bound -----------------------------------------------------------------------

  lemma {:induction false} WindowStarts(run: seq<Request>, key: string)
    requires Clocked(run)
    ensures Lookup(After(run), key) != NONE ==>
      run != [] && 0 < Lookup(After(run), key).started <= run[|run| - 1].now && 1 <= Lookup(After(run), key).count
  {
    if run != [] {
      WindowStarts(run[..|run| - 1], key);
    }
  }

  lemma {:induction false} NoneBefore(run: seq<Request>, key: string, from: int, to: int)
    requires forall i :: 0 <= i < |run| ==> run[i].now < from
    ensures Admitted(run, key, from, to) == 0
  {
    if run != [] {
      NoneBefore(run[..|run| - 1], key, from, to);
    }
  }

  function Capped(n: nat): nat {
    if n < LIMIT then n else LIMIT
  }

  /**
   A window that opened before the interval has spent its first request outside it. A window that
   opened inside is the last one, and at most one window was open before it.
   */
  ghost predicate Bound(run: seq<Request>, key: string, from: int) {
    var w, admitted := Lookup(After(run), key), Admitted(run, key, from, from + MINUTE);
    if w == NONE then admitted == 0
    else if w.started < from then admitted <= Capped(w.count) - 1
    else admitted <= LIMIT - 1 + Capped(w.count)
  }

  lemma {:induction false} BoundHolds(run: seq<Request>, key: string, from: int)
    requires Clocked(run)
    requires forall i :: 0 <= i < |run| ==> run[i].now < from + MINUTE
    ensures Bound(run, key, from)
  {
    if run != [] {
      var n := |run| - 1;
      BoundHolds(run[..n], key, from);
      WindowStarts(run[..n], key);
      WindowStarts(run, key);
      if run[n].now < from {
        NoneBefore(run, key, from, from + MINUTE);
      }
    }
  }

  /**
   In every run, every interval shorter than a minute admits at most 1199 requests of a key, although
   the limit is 600.
   */
  lemma {:induction false} SlidingBound(run: seq<Request>, key: string, from: int)
    requires Clocked(run)
    ensures Admitted(run, key, from, from + 60_000_000_000) <= 1199
  {
    if run != [] {
      var n := |run| - 1;
      if run[n].now < from + MINUTE {
        BoundHolds(run, key, from);
      } else {
        SlidingBound(run[..n], key, from);
      }
    }
  }

  // --- The bound is reached --------------------------------------------------------------------

  function Repeat(r: Request, times: nat): seq<Request> {
    if times == 0 then [] else Repeat(r, times - 1) + [r]
  }

  /** Requests at one moment in a window that stays open. */
  lemma {:induction false} Burst(run: seq<Request>, key: string, now: int, from: int, to: int, times: nat)
    requires Lookup(After(run), key).started != 0 && now - Lookup(After(run), key).started < MINUTE
    requires from <= now < to && Lookup(After(run), key).count + times <= LIMIT
    ensures var w := Lookup(After(run), key); var longer := run + Repeat(Request(key, now), times);
      && Lookup(After(longer), key) == Window(w.started, w.count + times)
      && Admitted(longer, key, from, to) == Admitted(run, key, from, to) + times
  {
    var r := Request(key, now);
    if times == 0 {
      assert run + Repeat(r, 0) == run;
    } else {
      Burst(run, key, now, from, to, times - 1);
      RepeatNext(run, r, times);
      OneMore(run + Repeat(r, times - 1), r, from, to);
    }
  }

  lemma RepeatNext(run: seq<Request>, r: Request, times: nat)
    requires times > 0
    ensures run + Repeat(r, times) == run + Repeat(r, times - 1) + [r]
  {
  }

  lemma OneMore(run: seq<Request>, r: Request, from: int, to: int)
    ensures var w := Roll(Lookup(After(run), r.key), r.now);
      && Lookup(After(run + [r]), r.key) == w
      && Admitted(run + [r], r.key, from, to)
         == Admitted(run, r.key, from, to) + if from <= r.now < to && w.count <= LIMIT then 1 else 0
  {
    assert (run + [r])[..|run|] == run;
  }

  /** A request that opens a window. */
  lemma Opening(run: seq<Request>, key: string, now: int, from: int, to: int)
    requires Lookup(After(run), key) == NONE || now - Lookup(After(run), key).started >= MINUTE
    requires now != 0
    ensures Lookup(After(run + [Request(key, now)]), key) == Window(now, 1)
    ensures Admitted(run + [Request(key, now)], key, from, to)
         == Admitted(run, key, from, to) + if from <= now < to then 1 else 0
  {
    OneMore(run, Request(key, now), from, to);
  }

  lemma {:induction false} RepeatAll(r: Request, times: nat)
    ensures |Repeat(r, times)| == times && forall i :: 0 <= i < times ==> Repeat(r, times)[i] == r
  {
    if times > 0 { RepeatAll(r, times - 1); }
  }

  /** One request, 599 more just before the minute is over, and 600 when it is: 1199 within two nanoseconds. */
  function Straddle(key: string): seq<Request> {
    [Request(key, 1)] + Repeat(Request(key, MINUTE), LIMIT - 1) + [Request(key, MINUTE + 1)]
      + Repeat(Request(key, MINUTE + 1), LIMIT - 1)
  }

  lemma SlidingBoundIsReached(key: string)
    ensures Clocked(Straddle(key)) && Admitted(Straddle(key), key, 2, 2 + 60_000_000_000) == 1199
  {
    var from, to := 2, 2 + MINUTE;
    RepeatAll(Request(key, MINUTE), LIMIT - 1);
    RepeatAll(Request(key, MINUTE + 1), LIMIT - 1);
    var first := [] + [Request(key, 1)];
    Opening([], key, 1, from, to);
    Burst(first, key, MINUTE, from, to, LIMIT - 1);
    var second := first + Repeat(Request(key, MINUTE), LIMIT - 1);
    Opening(second, key, MINUTE + 1, from, to);
    var third := second + [Request(key, MINUTE + 1)];
    Burst(third, key, MINUTE + 1, from, to, LIMIT - 1);
    assert Straddle(key) == third + Repeat(Request(key, MINUTE + 1), LIMIT - 1);
  }

  // --- The next minute from a given state --------------------------------------------------------

  predicate Open(w: Window, from: int) {
    w.started != 0 && from - w.started < MINUTE
  }

  /** What an open window has left. */
  function Left(w: Window, from: int): nat {
    if Open(w, from) then LIMIT - Capped(w.count) else 0
  }

  /** What the next minute can admit: a full window, and what an open one has left. */
  function Allowance(w: Window, from: int): nat {
    LIMIT + Left(w, from)
  }

  /** `more` continues the run from a moment on. */
  ghost predicate Continues(run: seq<Request>, more: seq<Request>, from: int) {
    && Clocked(run + more)
    && (forall i :: 0 <= i < |run| ==> run[i].now < from)
    && (forall i :: 0 <= i < |more| ==> from <= more[i].now)
  }

  ghost predicate WithinAllowance(v: Window, w: Window, admitted: nat, from: int) {
    if v.started < from then
      && v.started == w.started && w.count <= v.count && admitted <= Capped(v.count) - Capped(w.count)
      && (Open(w, from) || v.count == w.count)
    else admitted <= Capped(v.count) + Left(w, from)
  }

  lemma {:induction false} StaysWithinAllowance(run: seq<Request>, more: seq<Request>, key: string, from: int)
    requires Continues(run, more, from) && 0 < from
    requires forall i :: 0 <= i < |more| ==> more[i].now < from + MINUTE
    ensures WithinAllowance(Lookup(After(run + more), key), Lookup(After(run), key),
      Admitted(run + more, key, from, from + MINUTE), from)
  {
    if more == [] {
      assert run + more == run;
      NoneBefore(run, key, from, from + MINUTE);
      WindowStarts(run, key);
    } else {
      var n := |more| - 1;
      assert run + more == (run + more[..n]) + [more[n]];
      assert Clocked(run + more[..n]) by {
        assert forall i :: 0 <= i < |run + more[..n]| ==> (run + more[..n])[i] == (run + more)[i];
      }
      StaysWithinAllowance(run, more[..n], key, from);
      AllowanceStep(run + more[..n], more[n], Lookup(After(run), key), key, from);
    }
  }

  lemma AllowanceStep(run: seq<Request>, r: Request, w: Window, key: string, from: int)
    requires WithinAllowance(Lookup(After(run), key), w, Admitted(run, key, from, from + MINUTE), from)
    requires 0 < from <= r.now < from + MINUTE
    ensures WithinAllowance(Lookup(After(run + [r]), key), w, Admitted(run + [r], key, from, from + MINUTE), from)
  {
    OneMore(run, r, from, from + MINUTE);
    assert (run + [r])[..|run|] == run;
    if r.key != key {
      assert Lookup(After(run + [r]), key) == Lookup(After(run), key);
      assert Admitted(run + [r], key, from, from + MINUTE) == Admitted(run, key, from, from + MINUTE);
    }
  }

  /** No continuation admits more than the allowance in the next minute. */
  lemma {:induction false} AllowanceBounds(run: seq<Request>, more: seq<Request>, key: string, from: int)
    requires Continues(run, more, from) && 0 < from
    ensures Admitted(run + more, key, from, from + MINUTE) <= Allowance(Lookup(After(run), key), from)
  {
    if more != [] && more[|more| - 1].now >= from + MINUTE {
      var n := |more| - 1;
      assert run + more == (run + more[..n]) + [more[n]];
      assert Clocked(run + more[..n]) by {
        assert forall i :: 0 <= i < |run + more[..n]| ==> (run + more[..n])[i] == (run + more)[i];
      }
      AllowanceBounds(run, more[..n], key, from);
      assert (run + more)[..|run + more| - 1] == run + more[..n];
    } else {
      forall i | 0 <= i < |more| ensures more[i].now < from + MINUTE {
        assert (run + more)[|run| + i].now <= (run + more)[|run + more| - 1].now;
      }
      StaysWithinAllowance(run, more, key, from);
    }
  }

  /**
   The continuation that uses the allowance up: the rest of an open window, then a full one as soon as
   it can open.
   */
  function Exhaust(w: Window, key: string, from: int): seq<Request> {
    var moment := if Open(w, from) then w.started + MINUTE else from;
    Repeat(Request(key, from), Left(w, from)) + ([Request(key, moment)] + Repeat(Request(key, moment), LIMIT - 1))
  }

  lemma WindowAdmits(run: seq<Request>, key: string, moment: int, further: nat, from: int)
    requires !Open(Lookup(After(run), key), moment) && moment != 0 && from <= moment < from + MINUTE && further < LIMIT
    requires Lookup(After(run), key).started == 0 ==> Lookup(After(run), key) == NONE
    ensures Admitted(run + ([Request(key, moment)] + Repeat(Request(key, moment), further)), key, from, from + MINUTE)
         == Admitted(run, key, from, from + MINUTE) + 1 + further
  {
    var begun := run + [Request(key, moment)];
    Opening(run, key, moment, from, from + MINUTE);
    Burst(begun, key, moment, from, from + MINUTE, further);
    assert begun + Repeat(Request(key, moment), further)
      == run + ([Request(key, moment)] + Repeat(Request(key, moment), further));
  }

  lemma TwoBurstsAdmit(run: seq<Request>, key: string, from: int, times: nat, moment: int, further: nat)
    requires var w := Lookup(After(run), key);
      && (w.started == 0 ==> w == NONE) && !Open(w, moment) && further < LIMIT
      && (times > 0 ==> Open(w, from) && w.count + times <= LIMIT)
    requires 0 < from <= moment < from + MINUTE
    ensures Admitted(run + (Repeat(Request(key, from), times)
                            + ([Request(key, moment)] + Repeat(Request(key, moment), further))),
                     key, from, from + MINUTE)
         == Admitted(run, key, from, from + MINUTE) + times + 1 + further
  {
    var mid := run + Repeat(Request(key, from), times);
    FirstBurst(run, key, from, times);
    WindowAdmits(mid, key, moment, further, from);
    Regroup(run, Repeat(Request(key, from), times), [Request(key, moment)] + Repeat(Request(key, moment), further));
  }

  lemma FirstBurst(run: seq<Request>, key: string, from: int, times: nat)
    requires var w := Lookup(After(run), key); times > 0 ==> Open(w, from) && w.count + times <= LIMIT
    ensures var w := Lookup(After(run), key); var longer := run + Repeat(Request(key, from), times);
      && Lookup(After(longer), key) == Window(w.started, w.count + times)
      && Admitted(longer, key, from, from + MINUTE) == Admitted(run, key, from, from + MINUTE) + times
  {
    if times > 0 {
      Burst(run, key, from, from, from + MINUTE, times);
    } else {
      assert run + Repeat(Request(key, from), times) == run;
    }
  }

  lemma Regroup(s: seq<Request>, t: seq<Request>, u: seq<Request>)
    ensures s + (t + u) == s + t + u
  {
  }

  lemma ExhaustContinues(run: seq<Request>, key: string, from: int)
    requires Clocked(run) && 0 < from && forall i :: 0 <= i < |run| ==> run[i].now < from
    ensures Continues(run, Exhaust(Lookup(After(run), key), key, from), from)
  {
    var w := Lookup(After(run), key);
    WindowStarts(run, key);
    var moment := if Open(w, from) then w.started + MINUTE else from;
    TwoBursts(run, Request(key, from), Left(w, from), Request(key, moment), LIMIT - 1, from);
  }

  lemma TwoBursts(run: seq<Request>, r: Request, times: nat, last: Request, further: nat, from: int)
    requires Clocked(run) && 0 < from <= r.now <= last.now && forall i :: 0 <= i < |run| ==> run[i].now < from
    ensures Continues(run, Repeat(r, times) + ([last] + Repeat(last, further)), from)
  {
    assert run + [] == run;
    ContinuesAppend(run, [], r, times, from);
    assert [] + Repeat(r, times) == Repeat(r, times);
    ContinuesAppend(run, Repeat(r, times), last, further + 1, from);
    RepeatFront(last, further);
  }

  lemma RepeatFront(r: Request, times: nat)
    ensures [r] + Repeat(r, times) == Repeat(r, times + 1)
  {
    RepeatAll(r, times);
    RepeatAll(r, times + 1);
  }

  lemma ContinuesAppend(run: seq<Request>, more: seq<Request>, r: Request, times: nat, from: int)
    requires Continues(run, more, from) && 0 < from <= r.now && forall i :: 0 <= i < |more| ==> more[i].now <= r.now
    ensures Continues(run, more + Repeat(r, times), from)
    ensures forall i :: 0 <= i < |more + Repeat(r, times)| ==> (more + Repeat(r, times))[i].now <= r.now
  {
    RepeatAll(r, times);
    var tail := Repeat(r, times);
    forall i | 0 <= i < |run + more| ensures 0 < (run + more)[i].now <= r.now {
      assert i >= |run| ==> (run + more)[i] == more[i - |run|];
    }
    assert run + (more + tail) == (run + more) + tail;
  }

  /** It is reached from every state. */
  lemma AllowanceIsReached(run: seq<Request>, key: string, from: int)
    requires Clocked(run) && 0 < from && forall i :: 0 <= i < |run| ==> run[i].now < from
    ensures var w := Lookup(After(run), key); var more := Exhaust(w, key, from);
      Continues(run, more, from) && Admitted(run + more, key, from, from + MINUTE) == Allowance(w, from)
  {
    var w, to := Lookup(After(run), key), from + MINUTE;
    ExhaustContinues(run, key, from);
    WindowStarts(run, key);
    NoneBefore(run, key, from, to);
    TwoBurstsAdmit(run, key, from, Left(w, from), if Open(w, from) then w.started + MINUTE else from, LIMIT - 1);
  }

  /**
   The limit of 600 holds for the next minute, whatever comes, exactly when no window of the key is
   open or the open one is exhausted.
   */
  lemma LimitHoldsForTheNextMinuteExactly(run: seq<Request>, key: string, from: int)
    requires Clocked(run) && 0 < from && forall i :: 0 <= i < |run| ==> run[i].now < from
    ensures var w := Lookup(After(run), key);
      (forall more :: Continues(run, more, from) ==> Admitted(run + more, key, from, from + MINUTE) <= LIMIT)
      <==> !Open(w, from) || w.count >= LIMIT
  {
    var w := Lookup(After(run), key);
    AllowanceIsReached(run, key, from);
    if !Open(w, from) || w.count >= LIMIT {
      forall more | Continues(run, more, from) ensures Admitted(run + more, key, from, from + MINUTE) <= LIMIT {
        AllowanceBounds(run, more, key, from);
      }
    } else {
      var more := Exhaust(w, key, from);
      assert Admitted(run + more, key, from, from + MINUTE) > LIMIT;
    }
  }
}
