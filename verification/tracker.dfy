/**
 * The transmission tracker of `process_line` (ysf-log_watcher.py:135-157) and
 * the line loop of `monitor_logfile` that feeds it (ysf-log_watcher.py:165-170).
 *
 * The two module-level dicts become the fields of a `TransmissionTracker`:
 * `active_tx` (callsign to the start timestamp text, kept with its insertion
 * order, as a Python dict iterates) and `last_activity` (callsign to the epoch of
 * its last long transmission end). Epochs are integer milliseconds, produced by
 * a conversion function given to the tracker; `None` from it stands for
 * `fromisoformat` raising, which escapes `process_line` and stops the watcher.
 * The ghost `attempts` log stands for the `fetch_user_info` + `send_telegram`
 * calls, one entry per notification attempt.
 */
module Tracker {
  import opened Wrappers
  import opened Text
  import opened LogParser

  const MillisPerSecond: int := 1000

  /** One notification attempt for `callsign`, whose transmission started at `startTs` and ended at `endEpoch`. */
  datatype Attempt = Attempt(callsign: Callsign, startTs: Timestamp, endEpoch: int)

  /**
   * `MIN_DURATION` and `TIMER_DURATION` in whole seconds, and the conversion
   * `datetime.fromisoformat(ts).timestamp()` in milliseconds.
   */
  datatype Config = Config(minDuration: int, timerDuration: int, toEpoch: Timestamp -> Option<int>)

  /** `active_tx` as a map plus its key order, and `last_activity`. */
  datatype TxState = TxState(active: map<Callsign, Timestamp>, order: seq<Callsign>, last: map<Callsign, int>)

  predicate NoDups(s: seq<Callsign>)
  {
    forall i, j :: 0 <= i < j < |s| ==> s[i] != s[j]
  }

  /** The order lists every key of `active` exactly once. */
  ghost predicate WellFormed(t: TxState)
  {
    NoDups(t.order) && forall c :: c in t.active <==> c in t.order
  }

  /** `last_activity.get(cs, 0)`. */
  function LastOr0(last: map<Callsign, int>, cs: Callsign): (r: int)
    ensures cs in last ==> r == last[cs]
    ensures cs !in last ==> r == 0
  {
    if cs in last then last[cs] else 0
  }

  /** `s` with every occurrence of `x` removed: what `dict.pop` does to the key order. */
  function Without(s: seq<Callsign>, x: Callsign): (r: seq<Callsign>)
    ensures forall y :: y in r <==> y in s && y != x
    ensures |r| <= |s|
  {
    if s == [] then []
    else if s[0] == x then Without(s[1..], x)
    else [s[0]] + Without(s[1..], x)
  }

  /** What the first loop of the end branch has done so far. */
  datatype Closing = Closing(last: map<Callsign, int>, attempts: seq<Attempt>, failed: bool)

  /** One pass of the loop body at ysf-log_watcher.py:147-154, once the start epoch is known. */
  function Visit(acc: Closing, cs: Callsign, startTs: Timestamp, startMs: int, endMs: int, cfg: Config): (r: Closing)
    ensures r.failed == acc.failed
    ensures r.last == acc.last || r.last == acc.last[cs := endMs]
    ensures r.attempts == acc.attempts
         || (r.attempts == acc.attempts + [Attempt(cs, startTs, endMs)] && r.last == acc.last[cs := endMs])
  {
    if endMs - startMs >= cfg.minDuration * MillisPerSecond then
      var attempts :=
        if endMs - LastOr0(acc.last, cs) >= cfg.timerDuration * MillisPerSecond
        then acc.attempts + [Attempt(cs, startTs, endMs)]
        else acc.attempts;
      Closing(acc.last[cs := endMs], attempts, acc.failed)
    else acc
  }

  /** The loop over `active_tx.items()` in order; a start timestamp that does not convert stops it. */
  function CloseEach(order: seq<Callsign>, active: map<Callsign, Timestamp>, endMs: int, cfg: Config, acc: Closing): (r: Closing)
    requires forall i :: 0 <= i < |order| ==> order[i] in active
    ensures acc.attempts <= r.attempts && |r.attempts| <= |acc.attempts| + |order|
    ensures acc.last.Keys <= r.last.Keys
    ensures acc.failed ==> r.failed
    decreases |order|
  {
    if order == [] then acc
    else
      var cs := order[0];
      match cfg.toEpoch(active[cs])
      case None => Closing(acc.last, acc.attempts, true)
      case Some(startMs) => CloseEach(order[1..], active, endMs, cfg, Visit(acc, cs, active[cs], startMs, endMs, cfg))
  }

  /** The tracker state after a line, the attempts the line made, and whether it raised. */
  datatype Outcome = Outcome(next: TxState, attempts: seq<Attempt>, crashed: bool)

  /** `active_tx[cs] = ts`: a new key goes last, an existing key keeps its place. */
  function StartTx(t: TxState, ts: Timestamp, cs: Callsign): (r: TxState)
    requires WellFormed(t)
    ensures WellFormed(r)
  {
    var order := if cs in t.active then t.order else t.order + [cs];
    assert forall c :: c in order <==> c in t.order || c == cs;
    TxState(t.active[cs := ts], order, t.last)
  }

  /**
   * The end branch, ysf-log_watcher.py:143-157. On success every open
   * transmission is closed; if a conversion raises, `active_tx` keeps all its
   * entries (the pops come after the loop) while the loop's earlier effects stay.
   */
  function EndTx(t: TxState, ts: Timestamp, cfg: Config): (o: Outcome)
    requires WellFormed(t)
    ensures WellFormed(o.next)
    ensures o.next.active == map[] || o.crashed
  {
    match cfg.toEpoch(ts)
    case None => Outcome(t, [], true)
    case Some(endMs) =>
      var c := CloseEach(t.order, t.active, endMs, cfg, Closing(t.last, [], false));
      if c.failed then Outcome(TxState(t.active, t.order, c.last), c.attempts, true)
      else Outcome(TxState(map[], [], c.last), c.attempts, false)
  }

  /** `process_line` on one line. */
  function ApplyLine(t: TxState, line: string, cfg: Config): (o: Outcome)
    requires WellFormed(t)
    ensures WellFormed(o.next)
  {
    match Parse(line)
    case Start(ts, cs) => Outcome(StartTx(t, ts, cs), [], false)
    case End(ts) => EndTx(t, ts, cfg)
    case Unrecognized => Outcome(t, [], false)
  }

  /** The loop of `monitor_logfile` over the lines read: strip, process, and stop at an exception. */
  function ApplyLines(t: TxState, lines: seq<string>, cfg: Config): (o: Outcome)
    requires WellFormed(t)
    ensures WellFormed(o.next)
    decreases |lines|
  {
    if lines == [] then Outcome(t, [], false)
    else
      var o := ApplyLine(t, Strip(lines[0]), cfg);
      if o.crashed then o
      else
        var r := ApplyLines(o.next, lines[1..], cfg);
        Outcome(r.next, o.attempts + r.attempts, r.crashed)
  }

  lemma WithoutAbsent(s: seq<Callsign>, x: Callsign)
    requires x !in s
    ensures Without(s, x) == s
  {
    if s != [] {
      WithoutAbsent(s[1..], x);
    }
  }

  lemma AppendAssoc(a: seq<Attempt>, b: seq<Attempt>, c: seq<Attempt>)
    ensures (a + b) + c == a + (b + c)
  {
  }

  /** Running the loop on top of an existing attempt log only prefixes that log. */
  lemma {:induction false} CloseEachOnLog(order: seq<Callsign>, active: map<Callsign, Timestamp>, endMs: int, cfg: Config,
                                          last: map<Callsign, int>, log: seq<Attempt>, made: seq<Attempt>)
    requires forall i :: 0 <= i < |order| ==> order[i] in active
    ensures var c := CloseEach(order, active, endMs, cfg, Closing(last, made, false));
      CloseEach(order, active, endMs, cfg, Closing(last, log + made, false))
        == Closing(c.last, log + c.attempts, c.failed)
    decreases |order|
  {
    if order != [] {
      var cs := order[0];
      match cfg.toEpoch(active[cs])
      case None =>
      case Some(startMs) =>
        var v := Visit(Closing(last, made, false), cs, active[cs], startMs, endMs, cfg);
        assert Visit(Closing(last, log + made, false), cs, active[cs], startMs, endMs, cfg)
            == Closing(v.last, log + v.attempts, false) by {
          if v.attempts != made {
            AppendAssoc(log, made, [Attempt(cs, active[cs], endMs)]);
          }
        }
        CloseEachOnLog(order[1..], active, endMs, cfg, v.last, log, v.attempts);
    }
  }

  /** One iteration of `CloseEach`, seen from position `i` of the order. */
  lemma CloseEachStep(order: seq<Callsign>, i: nat, active: map<Callsign, Timestamp>, endMs: int, cfg: Config, acc: Closing)
    requires i < |order| && forall k :: 0 <= k < |order| ==> order[k] in active
    ensures CloseEach(order[i..], active, endMs, cfg, acc) ==
      match cfg.toEpoch(active[order[i]])
      case None => Closing(acc.last, acc.attempts, true)
      case Some(startMs) =>
        CloseEach(order[i + 1..], active, endMs, cfg, Visit(acc, order[i], active[order[i]], startMs, endMs, cfg))
  {
    assert order[i..][0] == order[i] && order[i..][1..] == order[i + 1..];
  }

  /** One iteration of `ApplyLines`, seen from position `i` of the lines. */
  lemma ApplyLinesStep(t: TxState, lines: seq<string>, i: nat, cfg: Config)
    requires i < |lines| && WellFormed(t)
    ensures ApplyLines(t, lines[i..], cfg) ==
      var o := ApplyLine(t, Strip(lines[i]), cfg);
      if o.crashed then o
      else
        var r := ApplyLines(o.next, lines[i + 1..], cfg);
        Outcome(r.next, o.attempts + r.attempts, r.crashed)
  {
    assert lines[i..][0] == lines[i] && lines[i..][1..] == lines[i + 1..];
  }

  /** Popping the first key of a duplicate-free order leaves the rest of it. */
  lemma PopFront(s: seq<Callsign>, j: nat)
    requires j < |s| && NoDups(s)
    ensures Without(s[j..], s[j]) == s[j + 1..]
  {
    assert s[j..] == [s[j]] + s[j + 1..];
    assert s[j] !in s[j + 1..];
    WithoutAbsent(s[j + 1..], s[j]);
  }

  /** The state `process_line` works on, as an object whose two dicts it updates in place. */
  class TransmissionTracker {
    var activeTx: map<Callsign, Timestamp>
    var txOrder: seq<Callsign>
    var lastActivity: map<Callsign, int>
    ghost var attempts: seq<Attempt>

    const minDuration: int
    const timerDuration: int
    const toEpoch: Timestamp -> Option<int>

    function Cfg(): Config
    {
      Config(minDuration, timerDuration, toEpoch)
    }

    function State(): TxState
      reads this
    {
      TxState(activeTx, txOrder, lastActivity)
    }

    ghost predicate Valid()
      reads this
    {
      WellFormed(State())
    }

    /** Both dicts start empty (ysf-log_watcher.py:53-54). */
    constructor (minDuration: int, timerDuration: int, toEpoch: Timestamp -> Option<int>)
      ensures Valid()
      ensures State() == TxState(map[], [], map[]) && attempts == []
      ensures this.minDuration == minDuration && this.timerDuration == timerDuration
      ensures this.toEpoch == toEpoch
    {
      activeTx, txOrder, lastActivity := map[], [], map[];
      attempts := [];
      this.minDuration, this.timerDuration, this.toEpoch := minDuration, timerDuration, toEpoch;
    }

    /** `process_line(line)`; `crashed` is true when it raised. */
    method ProcessLine(line: string) returns (crashed: bool)
      requires Valid()
      modifies this
      ensures Valid()
      ensures var o := ApplyLine(old(State()), line, Cfg());
        State() == o.next && attempts == old(attempts) + o.attempts && crashed == o.crashed
    {
      match Parse(line)
      case Start(ts, cs) =>
        if cs !in activeTx {
          txOrder := txOrder + [cs];
        }
        activeTx := activeTx[cs := ts];
        crashed := false;
      case End(ts) =>
        crashed := CloseAll(ts);
      case Unrecognized =>
        crashed := false;
    }

    /** The end branch: decide for every open transmission, then pop them all. */
    method CloseAll(ts: Timestamp) returns (crashed: bool)
      requires Valid()
      modifies this
      ensures Valid()
      ensures var o := EndTx(old(State()), ts, Cfg());
        State() == o.next && attempts == old(attempts) + o.attempts && crashed == o.crashed
    {
      var endOpt := toEpoch(ts);
      if endOpt.None? {
        return true;
      }
      var endMs := endOpt.value;
      assert attempts + [] == attempts;
      CloseEachOnLog(txOrder, activeTx, endMs, Cfg(), lastActivity, attempts, []);
      var toDel;
      crashed, toDel := DecideEach(endMs);
      if !crashed {
        PopAll(toDel);
      }
    }

    /**
     * The first loop of the end branch (ysf-log_watcher.py:146-154): for each open
     * transmission in `active_tx` order, refresh `last_activity` when it was long
     * enough and attempt a notification when the debounce window has also passed.
     */
    method DecideEach(endMs: int) returns (crashed: bool, toDel: seq<Callsign>)
      requires forall k :: 0 <= k < |txOrder| ==> txOrder[k] in activeTx
      modifies this`lastActivity, this`attempts
      ensures var c := CloseEach(txOrder, activeTx, endMs, Cfg(), Closing(old(lastActivity), old(attempts), false));
        lastActivity == c.last && attempts == c.attempts && crashed == c.failed
      ensures !crashed ==> toDel == txOrder
    {
      var order, active := txOrder, activeTx;
      ghost var cfg := Cfg();
      ghost var total := CloseEach(order, active, endMs, cfg, Closing(lastActivity, attempts, false));
      toDel := [];
      var i := 0;
      while i < |order|
        invariant 0 <= i <= |order|
        invariant toDel == order[..i]
        invariant CloseEach(order[i..], active, endMs, cfg, Closing(lastActivity, attempts, false)) == total
      {
        var cs := order[i];
        var startTs := active[cs];
        CloseEachStep(order, i, active, endMs, cfg, Closing(lastActivity, attempts, false));
        var startOpt := toEpoch(startTs);
        if startOpt.None? {
          return true, toDel;
        }
        VisitOne(cs, startTs, startOpt.value, endMs);
        toDel := toDel + [cs];
        i := i + 1;
      }
      assert toDel == order;
      crashed := false;
    }

    /** The body of that loop for one callsign whose start epoch is `startMs` (ysf-log_watcher.py:147-153). */
    method VisitOne(cs: Callsign, startTs: Timestamp, startMs: int, endMs: int)
      modifies this`lastActivity, this`attempts
      ensures Closing(lastActivity, attempts, false)
           == Visit(Closing(old(lastActivity), old(attempts), false), cs, startTs, startMs, endMs, Cfg())
    {
      var dur := endMs - startMs;
      if dur >= minDuration * MillisPerSecond {
        if endMs - LastOr0(lastActivity, cs) >= timerDuration * MillisPerSecond {
          // fetch_user_info(session, cs) and send_telegram(..., start_ts, ...)
          attempts := attempts + [Attempt(cs, startTs, endMs)];
        }
        lastActivity := lastActivity[cs := endMs];
      }
    }

    /** The second loop of the end branch (ysf-log_watcher.py:155-156): `active_tx.pop(cs, None)` for each. */
    method PopAll(toDel: seq<Callsign>)
      requires Valid() && toDel == txOrder
      modifies this`activeTx, this`txOrder
      ensures activeTx == map[] && txOrder == []
    {
      var j := 0;
      while j < |toDel|
        invariant 0 <= j <= |toDel|
        invariant txOrder == toDel[j..]
        invariant forall c :: c in activeTx <==> c in toDel[j..]
      {
        var cs := toDel[j];
        if cs in activeTx {
          activeTx := activeTx - {cs};
          PopFront(toDel, j);
          txOrder := Without(txOrder, cs);
        }
        j := j + 1;
      }
      assert activeTx.Keys == {};
    }

    /**
     * The loop of `monitor_logfile` over lines already read from the log: each
     * line is stripped and processed; an exception ends the watcher. `consumed`
     * is the number of lines processed, the failing one included.
     */
    method Monitor(lines: seq<string>) returns (crashed: bool, consumed: nat)
      requires Valid()
      modifies this
      ensures Valid() && consumed <= |lines|
      ensures var o := ApplyLines(old(State()), lines, Cfg());
        State() == o.next && attempts == old(attempts) + o.attempts && crashed == o.crashed
      ensures !crashed ==> consumed == |lines|
    {
      ghost var total := ApplyLines(State(), lines, Cfg());
      crashed, consumed := false, 0;
      while consumed < |lines|
        invariant consumed <= |lines| && Valid()
        invariant var r := ApplyLines(State(), lines[consumed..], Cfg());
          r.next == total.next && attempts + r.attempts == old(attempts) + total.attempts
          && r.crashed == total.crashed
      {
        ApplyLinesStep(State(), lines, consumed, Cfg());
        ghost var o := ApplyLine(State(), Strip(lines[consumed]), Cfg());
        ghost var before := attempts;
        crashed := ProcessLine(Strip(lines[consumed]));
        consumed := consumed + 1;
        if crashed {
          return;
        }
        AppendAssoc(before, o.attempts, ApplyLines(State(), lines[consumed..], Cfg()).attempts);
      }
      assert attempts + [] == attempts;
    }
  }
}
