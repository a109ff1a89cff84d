/**
 * What `process_line` promises, stated against reference definitions that do
 * not follow the loop: which callsigns are notified for an end line, in which
 * order, what `last_activity` becomes, when the branch raises, and when the
 * debounce clock can and cannot go backwards.
 */
module TrackerProperties {
  import opened Wrappers
  import opened Text
  import opened LogParser
  import opened Tracker

  /** `cs` was open and its transmission lasted at least `MIN_DURATION` (ysf-log_watcher.py:147-148). */
  ghost predicate LongEnough(t: TxState, cs: Callsign, endMs: int, cfg: Config)
  {
    && cs in t.active
    && cfg.toEpoch(t.active[cs]).Some?
    && endMs - cfg.toEpoch(t.active[cs]).value >= cfg.minDuration * MillisPerSecond
  }

  /** Long enough, and at least `TIMER_DURATION` since the recorded last activity (ysf-log_watcher.py:149-150). */
  ghost predicate Due(t: TxState, cs: Callsign, endMs: int, cfg: Config)
  {
    LongEnough(t, cs, endMs, cfg) && endMs - LastOr0(t.last, cs) >= cfg.timerDuration * MillisPerSecond
  }

  /** Every open start timestamp converts to an epoch. */
  ghost predicate AllConvert(t: TxState, cfg: Config)
  {
    forall cs :: cs in t.active ==> cfg.toEpoch(t.active[cs]).Some?
  }

  /**
   * How many callsigns of `order` the loop over `active_tx` reaches before a
   * start timestamp that does not convert raises (ysf-log_watcher.py:146-147):
   * all of them when every start converts.
   */
  ghost function Converting(order: seq<Callsign>, active: map<Callsign, Timestamp>, cfg: Config): (n: nat)
    requires forall i :: 0 <= i < |order| ==> order[i] in active
    ensures n <= |order|
    ensures forall i :: 0 <= i < n ==> cfg.toEpoch(active[order[i]]).Some?
    ensures n < |order| ==> cfg.toEpoch(active[order[n]]).None?
    decreases |order|
  {
    if order == [] || cfg.toEpoch(active[order[0]]).None? then 0
    else
      var rest := order[1..];
      assert forall i :: 0 <= i < |rest| ==> rest[i] == order[i + 1];
      1 + Converting(rest, active, cfg)
  }

  /** The callsigns of `t.order` the end branch visits before it finishes or raises. */
  ghost function Visited(t: TxState, cfg: Config): (p: seq<Callsign>)
    requires WellFormed(t)
    ensures p <= t.order && NoDups(p)
    ensures forall i :: 0 <= i < |p| ==> p[i] in t.active
  {
    assert forall i :: 0 <= i < |t.order| ==> t.order[i] in t.active;
    t.order[..Converting(t.order, t.active, cfg)]
  }

  /** The attempt one callsign should get: one if it is due, none otherwise. */
  ghost function Here(cs: Callsign, t: TxState, endMs: int, cfg: Config): seq<Attempt>
    requires cs in t.active
  {
    if Due(t, cs, endMs, cfg) then [Attempt(cs, t.active[cs], endMs)] else []
  }

  /** The attempts an end line should make: the due callsigns of `order`, in that order. */
  ghost function Expected(order: seq<Callsign>, t: TxState, endMs: int, cfg: Config): seq<Attempt>
    requires forall i :: 0 <= i < |order| ==> order[i] in t.active
  {
    if order == [] then []
    else
      Here(order[0], t, endMs, cfg) + Expected(order[1..], t, endMs, cfg)
  }

  /** The `last_activity` entries an end line should set: every long-enough callsign of `order`. */
  ghost function Refreshed(order: seq<Callsign>, t: TxState, endMs: int, cfg: Config): map<Callsign, int>
  {
    map c | c in order && LongEnough(t, c, endMs, cfg) :: endMs
  }

  /** Number of attempts for `cs` in a log. */
  function CountFor(log: seq<Attempt>, cs: Callsign): nat
  {
    if log == [] then 0 else (if log[0].callsign == cs then 1 else 0) + CountFor(log[1..], cs)
  }

  /** Position of `c` in an order. */
  ghost function IndexOf(s: seq<Callsign>, c: Callsign): (k: nat)
    requires c in s
    ensures k < |s| && s[k] == c
    ensures forall j :: 0 <= j < k ==> s[j] != c
  {
    if s[0] == c then 0 else 1 + IndexOf(s[1..], c)
  }

  // ---------------------------------------------------------------------------
  // The loop over `active_tx`, against the reference definitions

  /** One pass of the loop body, for a callsign whose start converts and whose last activity is the original one. */
  lemma VisitMeaning(acc: Closing, t: TxState, cs: Callsign, endMs: int, cfg: Config)
    requires cs in t.active && cfg.toEpoch(t.active[cs]).Some?
    requires LastOr0(acc.last, cs) == LastOr0(t.last, cs)
    ensures var v := Visit(acc, cs, t.active[cs], cfg.toEpoch(t.active[cs]).value, endMs, cfg);
      && v.failed == acc.failed
      && v.attempts == acc.attempts + Here(cs, t, endMs, cfg)
      && v.last == (if LongEnough(t, cs, endMs, cfg) then acc.last[cs := endMs] else acc.last)
  {
    assert acc.attempts + [] == acc.attempts;
  }

  /** Peeling the first callsign off the refreshed entries. */
  lemma RefreshedStep(base: map<Callsign, int>, order: seq<Callsign>, t: TxState, endMs: int, cfg: Config)
    requires order != []
    ensures var cs := order[0];
      (if LongEnough(t, cs, endMs, cfg) then base[cs := endMs] else base) + Refreshed(order[1..], t, endMs, cfg)
        == base + Refreshed(order, t, endMs, cfg)
  {
    var cs, rest := order[0], order[1..];
    assert forall c :: c in order <==> c == cs || c in rest;
  }

  /**
   * The loop makes exactly the expected attempts and sets exactly the
   * refreshed entries of the callsigns it reaches, in order, and raises when it
   * does not reach them all; provided the callsigns still to be visited have
   * their original `last_activity`.
   */
  lemma CloseEachMeaning(order: seq<Callsign>, t: TxState, endMs: int, cfg: Config, acc: Closing)
    requires NoDups(order)
    requires forall i :: 0 <= i < |order| ==> order[i] in t.active
    requires forall i :: 0 <= i < |order| ==> LastOr0(acc.last, order[i]) == LastOr0(t.last, order[i])
    ensures var n := Converting(order, t.active, cfg); var r := CloseEach(order, t.active, endMs, cfg, acc);
      && r.failed == (acc.failed || n < |order|)
      && r.attempts == acc.attempts + Expected(order[..n], t, endMs, cfg)
      && r.last == acc.last + Refreshed(order[..n], t, endMs, cfg)
  {
    CloseEachReach(order, t.active, endMs, cfg, acc);
    CloseEachAttempts(order, t, endMs, cfg, acc);
    CloseEachRefreshes(order, t, endMs, cfg, acc);
  }

  /** The loop raises exactly when it stops before the end of the order. */
  lemma {:induction false} CloseEachReach(order: seq<Callsign>, active: map<Callsign, Timestamp>, endMs: int, cfg: Config, acc: Closing)
    requires forall i :: 0 <= i < |order| ==> order[i] in active
    ensures CloseEach(order, active, endMs, cfg, acc).failed == (acc.failed || Converting(order, active, cfg) < |order|)
    decreases |order|
  {
    if order != [] && cfg.toEpoch(active[order[0]]).Some? {
      var cs, rest := order[0], order[1..];
      assert forall i :: 0 <= i < |rest| ==> rest[i] == order[i + 1];
      ReachedStep(order, active, cfg);
      CloseEachReach(rest, active, endMs, cfg, Visit(acc, cs, active[cs], cfg.toEpoch(active[cs]).value, endMs, cfg));
    }
  }

  /** The attempts of the loop are the expected attempts of the callsigns it reaches. */
  lemma {:induction false} CloseEachAttempts(order: seq<Callsign>, t: TxState, endMs: int, cfg: Config, acc: Closing)
    requires NoDups(order)
    requires forall i :: 0 <= i < |order| ==> order[i] in t.active
    requires forall i :: 0 <= i < |order| ==> LastOr0(acc.last, order[i]) == LastOr0(t.last, order[i])
    ensures var n := Converting(order, t.active, cfg);
      CloseEach(order, t.active, endMs, cfg, acc).attempts == acc.attempts + Expected(order[..n], t, endMs, cfg)
    decreases |order|
  {
    var n := Converting(order, t.active, cfg);
    if n == 0 {
      assert order[..n] == [];
      assert acc.attempts + [] == acc.attempts;
    } else {
      var cs, rest := order[0], order[1..];
      var v := Visit(acc, cs, t.active[cs], cfg.toEpoch(t.active[cs]).value, endMs, cfg);
      VisitMeaning(acc, t, cs, endMs, cfg);
      RestOfOrder(order, t);
      RestUntouched(order, acc.last, v.last, t.last, endMs);
      CloseEachAttempts(rest, t, endMs, cfg, v);
      ReachedStep(order, t.active, cfg);
      var p := order[..n];
      assert Expected(p, t, endMs, cfg) == Here(cs, t, endMs, cfg) + Expected(rest[..n - 1], t, endMs, cfg);
      AppendAssoc(acc.attempts, Here(cs, t, endMs, cfg), Expected(rest[..n - 1], t, endMs, cfg));
    }
  }

  /** The `last_activity` of the loop is refreshed for the long-enough callsigns it reaches. */
  lemma {:induction false} CloseEachRefreshes(order: seq<Callsign>, t: TxState, endMs: int, cfg: Config, acc: Closing)
    requires NoDups(order)
    requires forall i :: 0 <= i < |order| ==> order[i] in t.active
    requires forall i :: 0 <= i < |order| ==> LastOr0(acc.last, order[i]) == LastOr0(t.last, order[i])
    ensures var n := Converting(order, t.active, cfg);
      CloseEach(order, t.active, endMs, cfg, acc).last == acc.last + Refreshed(order[..n], t, endMs, cfg)
    decreases |order|
  {
    var n := Converting(order, t.active, cfg);
    if n == 0 {
      assert order[..n] == [];
      assert Refreshed([], t, endMs, cfg) == map[];
      assert acc.last + map[] == acc.last;
    } else {
      var cs, rest := order[0], order[1..];
      var v := Visit(acc, cs, t.active[cs], cfg.toEpoch(t.active[cs]).value, endMs, cfg);
      VisitMeaning(acc, t, cs, endMs, cfg);
      RestOfOrder(order, t);
      RestUntouched(order, acc.last, v.last, t.last, endMs);
      CloseEachRefreshes(rest, t, endMs, cfg, v);
      ReachedStep(order, t.active, cfg);
      RefreshedStep(acc.last, order[..n], t, endMs, cfg);
    }
  }

  /** The callsigns after the first still have their original `last_activity` once the first is visited. */
  lemma RestUntouched(order: seq<Callsign>, before: map<Callsign, int>, after: map<Callsign, int>, orig: map<Callsign, int>, endMs: int)
    requires order != [] && NoDups(order)
    requires after == before || after == before[order[0] := endMs]
    requires forall i :: 0 <= i < |order| ==> LastOr0(before, order[i]) == LastOr0(orig, order[i])
    ensures forall i :: 0 <= i < |order[1..]| ==> LastOr0(after, order[1..][i]) == LastOr0(orig, order[1..][i])
  {
    assert forall i :: 0 <= i < |order[1..]| ==> order[1..][i] == order[i + 1] && order[i + 1] != order[0];
  }

  /** Reaching a first callsign whose start converts: one more than the rest reaches, and the prefix peels. */
  lemma ReachedStep(order: seq<Callsign>, active: map<Callsign, Timestamp>, cfg: Config)
    requires order != [] && forall i :: 0 <= i < |order| ==> order[i] in active
    requires cfg.toEpoch(active[order[0]]).Some?
    ensures var n := Converting(order, active, cfg);
      && n == 1 + Converting(order[1..], active, cfg)
      && order[..n][0] == order[0] && order[..n][1..] == order[1..][..n - 1]
  {
  }

  /** The loop raises exactly when some visited start timestamp does not convert. */
  lemma {:induction false} CloseEachFails(order: seq<Callsign>, active: map<Callsign, Timestamp>, endMs: int, cfg: Config, acc: Closing)
    requires forall i :: 0 <= i < |order| ==> order[i] in active
    requires !acc.failed
    ensures CloseEach(order, active, endMs, cfg, acc).failed
        <==> exists i :: 0 <= i < |order| && cfg.toEpoch(active[order[i]]).None?
    decreases |order|
  {
    if order != [] {
      var cs, rest := order[0], order[1..];
      assert forall i :: 0 <= i < |rest| ==> rest[i] == order[i + 1];
      match cfg.toEpoch(active[cs])
      case None =>
      case Some(startMs) =>
        CloseEachFails(rest, active, endMs, cfg, Visit(acc, cs, active[cs], startMs, endMs, cfg));
        if exists i :: 0 <= i < |order| && cfg.toEpoch(active[order[i]]).None? {
          var i :| 0 <= i < |order| && cfg.toEpoch(active[order[i]]).None?;
          assert rest[i - 1] == order[i];
        }
    }
  }

  /** Whatever happens, the loop only ever writes the end epoch into `last_activity` and removes nothing. */
  lemma {:induction false} CloseEachOnlyRefreshes(order: seq<Callsign>, active: map<Callsign, Timestamp>, endMs: int, cfg: Config, acc: Closing)
    requires forall i :: 0 <= i < |order| ==> order[i] in active
    ensures var r := CloseEach(order, active, endMs, cfg, acc);
      forall c :: (c in acc.last ==> c in r.last)
        && (c in r.last ==> r.last[c] == endMs || (c in acc.last && r.last[c] == acc.last[c]))
    decreases |order|
  {
    if order != [] {
      var cs, rest := order[0], order[1..];
      assert forall i :: 0 <= i < |rest| ==> rest[i] == order[i + 1];
      match cfg.toEpoch(active[cs])
      case None =>
      case Some(startMs) =>
        var v := Visit(acc, cs, active[cs], startMs, endMs, cfg);
        assert forall c :: ((c in acc.last ==> c in v.last)
          && (c in v.last ==> v.last[c] == endMs || (c in acc.last && v.last[c] == acc.last[c])));
        CloseEachOnlyRefreshes(rest, active, endMs, cfg, v);
    }
  }

  // ---------------------------------------------------------------------------
  // The reference definitions themselves

  lemma {:induction false} CountForAppend(a: seq<Attempt>, b: seq<Attempt>, cs: Callsign)
    ensures CountFor(a + b, cs) == CountFor(a, cs) + CountFor(b, cs)
    decreases |a|
  {
    if a == [] {
      assert a + b == b;
    } else {
      assert (a + b)[0] == a[0] && (a + b)[1..] == a[1..] + b;
      CountForAppend(a[1..], b, cs);
    }
  }

  /** Every expected attempt is for a due callsign of the order, with its own start and the end epoch. */
  lemma {:induction false} ExpectedFields(order: seq<Callsign>, t: TxState, endMs: int, cfg: Config, k: nat)
    requires forall i :: 0 <= i < |order| ==> order[i] in t.active
    requires k < |Expected(order, t, endMs, cfg)|
    ensures var a := Expected(order, t, endMs, cfg)[k];
      a.callsign in order && Due(t, a.callsign, endMs, cfg)
      && a.startTs == t.active[a.callsign] && a.endEpoch == endMs
    decreases |order|
  {
    var cs := order[0];
    var here := Here(cs, t, endMs, cfg);
    if k >= |here| {
      assert forall i :: 0 <= i < |order[1..]| ==> order[1..][i] in t.active;
      ExpectedFields(order[1..], t, endMs, cfg, k - |here|);
      assert Expected(order, t, endMs, cfg)[k] == Expected(order[1..], t, endMs, cfg)[k - |here|];
    }
  }

  /** Exactly one expected attempt for each due callsign of a duplicate-free order, none for any other. */
  lemma {:induction false} ExpectedOncePerCallsign(order: seq<Callsign>, t: TxState, endMs: int, cfg: Config, cs: Callsign)
    requires NoDups(order)
    requires forall i :: 0 <= i < |order| ==> order[i] in t.active
    ensures CountFor(Expected(order, t, endMs, cfg), cs) == if cs in order && Due(t, cs, endMs, cfg) then 1 else 0
    decreases |order|
  {
    if order != [] {
      var c0, rest := order[0], order[1..];
      var here := Here(c0, t, endMs, cfg);
      assert forall i :: 0 <= i < |rest| ==> rest[i] != c0 && rest[i] == order[i + 1];
      ExpectedOncePerCallsign(rest, t, endMs, cfg, cs);
      CountForAppend(here, Expected(rest, t, endMs, cfg), cs);
      assert CountFor(here, cs) == if c0 == cs && Due(t, c0, endMs, cfg) then 1 else 0;
      assert cs in order <==> cs == c0 || cs in rest;
    }
  }

  /** An expected attempt past the first callsign's own comes from the rest of the order. */
  lemma ExpectedTail(order: seq<Callsign>, t: TxState, endMs: int, cfg: Config, k: nat)
    requires NoDups(order) && order != []
    requires forall i :: 0 <= i < |order| ==> order[i] in t.active
    requires |Here(order[0], t, endMs, cfg)| <= k < |Expected(order, t, endMs, cfg)|
    ensures var e := Expected(order, t, endMs, cfg); var n := |Here(order[0], t, endMs, cfg)|;
      && e[k] == Expected(order[1..], t, endMs, cfg)[k - n]
      && e[k].callsign in order[1..] && e[k].callsign in order
      && IndexOf(order, e[k].callsign) == 1 + IndexOf(order[1..], e[k].callsign)
  {
    var rest := order[1..];
    assert forall i :: 0 <= i < |rest| ==> rest[i] != order[0] && rest[i] == order[i + 1];
    var n := |Here(order[0], t, endMs, cfg)|;
    ExpectedFields(rest, t, endMs, cfg, k - n);
    var e := Expected(order, t, endMs, cfg);
    assert e[k] == Expected(rest, t, endMs, cfg)[k - n];
    IndexAfterHead(order, e[k].callsign);
  }

  /** Expected attempts follow the order: an earlier attempt is for a callsign placed earlier. */
  lemma {:induction false} ExpectedFollowsOrder(order: seq<Callsign>, t: TxState, endMs: int, cfg: Config, i: nat, j: nat)
    requires NoDups(order)
    requires forall k :: 0 <= k < |order| ==> order[k] in t.active
    requires i < j < |Expected(order, t, endMs, cfg)|
    ensures var e := Expected(order, t, endMs, cfg);
      e[i].callsign in order && e[j].callsign in order
      && IndexOf(order, e[i].callsign) < IndexOf(order, e[j].callsign)
    decreases |order|
  {
    var n := |Here(order[0], t, endMs, cfg)|;
    var rest := order[1..];
    ExpectedSplit(order, t, endMs, cfg);
    ExpectedTail(order, t, endMs, cfg, j);
    if i < n {
      ExpectedHead(order, t, endMs, cfg, i);
    } else {
      ExpectedTail(order, t, endMs, cfg, i);
      RestOfOrder(order, t);
      ExpectedFollowsOrder(rest, t, endMs, cfg, i - n, j - n);
      var e, er := Expected(order, t, endMs, cfg), Expected(rest, t, endMs, cfg);
      assert e[i] == er[i - n] && e[j] == er[j - n];
      assert IndexOf(rest, er[i - n].callsign) < IndexOf(rest, er[j - n].callsign);
    }
  }

  /** The first callsign contributes at most one attempt, ahead of the rest's. */
  lemma ExpectedSplit(order: seq<Callsign>, t: TxState, endMs: int, cfg: Config)
    requires order != [] && forall k :: 0 <= k < |order| ==> order[k] in t.active
    ensures |Here(order[0], t, endMs, cfg)| <= 1
    ensures |Expected(order, t, endMs, cfg)| == |Here(order[0], t, endMs, cfg)| + |Expected(order[1..], t, endMs, cfg)|
  {
  }

  /** An expected attempt within the first callsign's own is for that callsign. */
  lemma ExpectedHead(order: seq<Callsign>, t: TxState, endMs: int, cfg: Config, i: nat)
    requires order != [] && forall k :: 0 <= k < |order| ==> order[k] in t.active
    requires i < |Here(order[0], t, endMs, cfg)|
    ensures i < |Expected(order, t, endMs, cfg)|
    ensures Expected(order, t, endMs, cfg)[i].callsign == order[0] && IndexOf(order, order[0]) == 0
  {
  }

  /** The rest of a duplicate-free order of open callsigns is one too. */
  lemma RestOfOrder(order: seq<Callsign>, t: TxState)
    requires order != [] && NoDups(order) && forall k :: 0 <= k < |order| ==> order[k] in t.active
    ensures NoDups(order[1..]) && forall k :: 0 <= k < |order[1..]| ==> order[1..][k] in t.active
  {
  }

  lemma IndexAfterHead(s: seq<Callsign>, c: Callsign)
    requires NoDups(s) && c in s && c != s[0]
    ensures c in s[1..] && IndexOf(s, c) == 1 + IndexOf(s[1..], c)
  {
  }

  // ---------------------------------------------------------------------------
  // One line of the log

  /**
   * A start line records the start under its callsign, overwriting an earlier
   * one; existing keys keep their positions and a new key goes last; nothing
   * else changes and nothing is attempted (ysf-log_watcher.py:138-141).
   */
  lemma StartLine(t: TxState, line: string, cfg: Config)
    requires WellFormed(t) && Parse(line).Start?
    ensures var o := ApplyLine(t, line, cfg); var cs := Parse(line).callsign;
      && o.next.active == t.active[cs := Parse(line).timestamp]
      && o.next.last == t.last
      && o.attempts == [] && !o.crashed
      && t.order <= o.next.order
      && |o.next.order| == |t.order| + (if cs in t.active then 0 else 1)
  {
  }

  /** A line neither pattern matches changes nothing and attempts nothing (ysf-log_watcher.py:138-142). */
  lemma UnrecognizedLine(t: TxState, line: string, cfg: Config)
    requires WellFormed(t) && Parse(line).Unrecognized?
    ensures ApplyLine(t, line, cfg) == Outcome(t, [], false)
  {
  }

  /** An end line is the end branch on its timestamp. */
  lemma EndLine(t: TxState, line: string, cfg: Config)
    requires WellFormed(t) && Parse(line).End?
    ensures ApplyLine(t, line, cfg) == EndTx(t, Parse(line).timestamp, cfg)
  {
  }

  /**
   * The end branch raises exactly when its own timestamp or an open start
   * timestamp does not convert. If it raises, `active_tx` is left as it was;
   * otherwise `active_tx` is empty afterwards (ysf-log_watcher.py:144-156).
   */
  lemma EndClosesAll(t: TxState, ts: Timestamp, cfg: Config)
    requires WellFormed(t)
    ensures var o := EndTx(t, ts, cfg);
      && (o.crashed <==> cfg.toEpoch(ts).None? || !AllConvert(t, cfg))
      && (o.crashed ==> o.next.active == t.active && o.next.order == t.order)
      && (!o.crashed ==> o.next.active == map[] && o.next.order == [])
  {
    if cfg.toEpoch(ts).Some? {
      var endMs := cfg.toEpoch(ts).value;
      CloseEachFails(t.order, t.active, endMs, cfg, Closing(t.last, [], false));
      if !AllConvert(t, cfg) {
        var cs :| cs in t.active && cfg.toEpoch(t.active[cs]).None?;
        var i := IndexOf(t.order, cs);
      }
    }
  }

  /** With nothing open, an end line whose timestamp converts changes nothing and attempts nothing. */
  lemma EndWithNothingOpen(t: TxState, ts: Timestamp, cfg: Config)
    requires WellFormed(t) && t.active == map[] && cfg.toEpoch(ts).Some?
    ensures EndTx(t, ts, cfg) == Outcome(t, [], false)
  {
    FirstIsOpen(t);
  }

  lemma FirstIsOpen(t: TxState)
    requires WellFormed(t)
    ensures |t.order| > 0 ==> t.order[0] in t.active
  {
  }

  /**
   * What an end line whose timestamp converts does, whether or not a start
   * raises: the attempts are exactly the due callsigns the loop reached, in
   * `active_tx` order, `last_activity` gains the end epoch for exactly the
   * long-enough ones among them, and the line raises exactly when the loop
   * did not reach every callsign (ysf-log_watcher.py:146-153).
   */
  lemma EndReached(t: TxState, ts: Timestamp, cfg: Config, endMs: int)
    requires WellFormed(t) && cfg.toEpoch(ts) == Some(endMs)
    ensures var o := EndTx(t, ts, cfg); var p := Visited(t, cfg);
      && (o.crashed <==> |p| < |t.order|)
      && o.attempts == Expected(p, t, endMs, cfg)
      && o.next.last == t.last + Refreshed(p, t, endMs, cfg)
  {
    assert forall i :: 0 <= i < |t.order| ==> t.order[i] in t.active;
    CloseEachMeaning(t.order, t, endMs, cfg, Closing(t.last, [], false));
    var p := Visited(t, cfg);
    assert [] + Expected(p, t, endMs, cfg) == Expected(p, t, endMs, cfg);
  }

  /** The loop reaches every open callsign exactly when every open start converts. */
  lemma AllConvertVisitsAll(t: TxState, cfg: Config)
    requires WellFormed(t)
    ensures AllConvert(t, cfg) <==> Visited(t, cfg) == t.order
  {
    assert forall i :: 0 <= i < |t.order| ==> t.order[i] in t.active;
    if Visited(t, cfg) == t.order {
      forall cs | cs in t.active
        ensures cfg.toEpoch(t.active[cs]).Some?
      {
        var i :| 0 <= i < |t.order| && t.order[i] == cs;
      }
    }
  }

  /**
   * The decision rule of the end branch when nothing raises: the attempts are
   * exactly the due callsigns, in `active_tx` order, and `last_activity` gains
   * the end epoch for exactly the long-enough callsigns (ysf-log_watcher.py:146-153).
   */
  lemma EndDecides(t: TxState, ts: Timestamp, cfg: Config, endMs: int)
    requires WellFormed(t) && AllConvert(t, cfg) && cfg.toEpoch(ts) == Some(endMs)
    ensures var o := EndTx(t, ts, cfg);
      && !o.crashed
      && o.attempts == Expected(t.order, t, endMs, cfg)
      && o.next.last == t.last + Refreshed(t.order, t, endMs, cfg)
  {
    EndReached(t, ts, cfg, endMs);
    AllConvertVisitsAll(t, cfg);
  }

  /**
   * For one end line, `cs` gets exactly one attempt when the loop reached it,
   * it lasted at least `MIN_DURATION` and it is at least `TIMER_DURATION` past
   * its last activity, and none otherwise; when every start converts, the loop
   * reaches every open callsign. Each attempt is for an open callsign and
   * carries its start and the end epoch, also when the line raises.
   */
  lemma EndAttempts(t: TxState, ts: Timestamp, cfg: Config, endMs: int, cs: Callsign)
    requires WellFormed(t) && cfg.toEpoch(ts) == Some(endMs)
    ensures var a := EndTx(t, ts, cfg).attempts;
      && CountFor(a, cs) == (if cs in Visited(t, cfg) && Due(t, cs, endMs, cfg) then 1 else 0)
      && (AllConvert(t, cfg) ==> CountFor(a, cs) == (if Due(t, cs, endMs, cfg) then 1 else 0))
      && forall k :: 0 <= k < |a| ==>
           a[k].callsign in t.active && a[k].startTs == t.active[a[k].callsign] && a[k].endEpoch == endMs
  {
    EndReached(t, ts, cfg, endMs);
    AllConvertVisitsAll(t, cfg);
    var p := Visited(t, cfg);
    var e := Expected(p, t, endMs, cfg);
    ExpectedOncePerCallsign(p, t, endMs, cfg, cs);
    forall k | 0 <= k < |e|
      ensures e[k].callsign in t.active && e[k].startTs == t.active[e[k].callsign] && e[k].endEpoch == endMs
    {
      ExpectedFields(p, t, endMs, cfg, k);
    }
  }

  /**
   * Attempts for one end line are made in `active_tx` insertion order
   * (ysf-log_watcher.py:146), also when the line raises: of two attempts, the
   * earlier is for the callsign that was inserted first.
   */
  lemma EndAttemptOrder(t: TxState, ts: Timestamp, cfg: Config, endMs: int, i: nat, j: nat)
    requires WellFormed(t) && cfg.toEpoch(ts) == Some(endMs)
    requires i < j < |EndTx(t, ts, cfg).attempts|
    ensures var a := EndTx(t, ts, cfg).attempts;
      a[i].callsign in t.order && a[j].callsign in t.order
      && IndexOf(t.order, a[i].callsign) < IndexOf(t.order, a[j].callsign)
  {
    EndReached(t, ts, cfg, endMs);
    var p := Visited(t, cfg);
    var a := EndTx(t, ts, cfg).attempts;
    ExpectedFollowsOrder(p, t, endMs, cfg, i, j);
    IndexOfPrefix(t.order, p, a[i].callsign);
    IndexOfPrefix(t.order, p, a[j].callsign);
  }

  /** A callsign of a prefix sits at the same position in the whole order. */
  lemma IndexOfPrefix(s: seq<Callsign>, p: seq<Callsign>, c: Callsign)
    requires p <= s && c in p
    ensures c in s && IndexOf(s, c) == IndexOf(p, c)
  {
    var k := IndexOf(p, c);
    assert s[k] == c;
  }

  /**
   * `last_activity` after an end line: the end epoch for every callsign the
   * loop reached that lasted at least `MIN_DURATION`, whether notified or
   * suppressed; the old entry, or none, for every other callsign, also when
   * the line raises (ysf-log_watcher.py:148-153).
   */
  lemma EndLastActivity(t: TxState, ts: Timestamp, cfg: Config, endMs: int, cs: Callsign)
    requires WellFormed(t) && cfg.toEpoch(ts) == Some(endMs)
    ensures var last := EndTx(t, ts, cfg).next.last; var reached := cs in Visited(t, cfg) && LongEnough(t, cs, endMs, cfg);
      && (reached ==> cs in last && last[cs] == endMs)
      && (!reached ==> (cs in last <==> cs in t.last) && (cs in t.last ==> last[cs] == t.last[cs]))
  {
    EndReached(t, ts, cfg, endMs);
  }

  /**
   * The sliding window: a long-enough transmission that the loop reaches and
   * that ends within `TIMER_DURATION` of the callsign's last activity is not
   * notified, yet moves that last activity to its own end.
   */
  lemma SuppressedStillRefreshes(t: TxState, ts: Timestamp, cfg: Config, endMs: int, cs: Callsign)
    requires WellFormed(t) && cfg.toEpoch(ts) == Some(endMs) && cs in Visited(t, cfg)
    requires LongEnough(t, cs, endMs, cfg)
    requires endMs - LastOr0(t.last, cs) < cfg.timerDuration * MillisPerSecond
    ensures var o := EndTx(t, ts, cfg);
      CountFor(o.attempts, cs) == 0 && cs in o.next.last && o.next.last[cs] == endMs
  {
    EndAttempts(t, ts, cfg, endMs, cs);
    EndLastActivity(t, ts, cfg, endMs, cs);
  }

  /**
   * A transmission shorter than `MIN_DURATION` is never notified and leaves
   * its last activity alone, whether or not the end line raises.
   */
  lemma ShortIsIgnored(t: TxState, ts: Timestamp, cfg: Config, endMs: int, cs: Callsign, startMs: int)
    requires WellFormed(t) && cfg.toEpoch(ts) == Some(endMs)
    requires cs in t.active && cfg.toEpoch(t.active[cs]) == Some(startMs)
    requires endMs - startMs < cfg.minDuration * MillisPerSecond
    ensures var o := EndTx(t, ts, cfg);
      && CountFor(o.attempts, cs) == 0
      && (cs in o.next.last <==> cs in t.last)
      && (cs in t.last ==> o.next.last[cs] == t.last[cs])
  {
    EndAttempts(t, ts, cfg, endMs, cs);
    EndLastActivity(t, ts, cfg, endMs, cs);
  }

  // ---------------------------------------------------------------------------
  // `last_activity` over time

  /**
   * `last_activity` is assigned, not maxed: an end line never lowers an entry
   * when its epoch is at least every recorded one, and then every entry stays
   * at most that epoch, whether or not the branch raised.
   */
  lemma EndNeverLowers(t: TxState, ts: Timestamp, cfg: Config, endMs: int)
    requires WellFormed(t) && cfg.toEpoch(ts) == Some(endMs)
    requires forall c :: c in t.last ==> t.last[c] <= endMs
    ensures var last := EndTx(t, ts, cfg).next.last;
      && (forall c :: c in t.last ==> c in last && t.last[c] <= last[c])
      && (forall c :: c in last ==> last[c] <= endMs)
  {
    CloseEachOnlyRefreshes(t.order, t.active, endMs, cfg, Closing(t.last, [], false));
  }

  /** An end line with an earlier epoch than a recorded one moves that callsign's last activity back. */
  lemma LastActivityCanGoBack()
    ensures var cfg := Config(4, 900, (ts: Timestamp) => if ts == "late" then Some(5000) else Some(0));
      var t := TxState(map["N0CALL" := "early"], ["N0CALL"], map["N0CALL" := 10000]);
      var last := EndTx(t, "late", cfg).next.last;
      "N0CALL" in last && last["N0CALL"] == 5000 < t.last["N0CALL"]
  {
    var cfg := Config(4, 900, (ts: Timestamp) => if ts == "late" then Some(5000) else Some(0));
    var t := TxState(map["N0CALL" := "early"], ["N0CALL"], map["N0CALL" := 10000]);
    assert "early" != "late";
    assert t.order[1..] == [];
  }

  /** The end epochs of the lines, each at least `floor` and at least the one before. */
  ghost predicate EndsNotBefore(lines: seq<string>, floor: int, cfg: Config)
    decreases |lines|
  {
    lines == [] ||
    match Parse(Strip(lines[0]))
    case End(ts) =>
      (match cfg.toEpoch(ts)
       case Some(e) => floor <= e && EndsNotBefore(lines[1..], e, cfg)
       case None => true)
    case _ => EndsNotBefore(lines[1..], floor, cfg)
  }

  /**
   * Over a run of lines whose end epochs never go backwards (and start no
   * earlier than any recorded activity), no `last_activity` entry ever decreases.
   */
  lemma {:induction false} RunNeverLowers(t: TxState, lines: seq<string>, cfg: Config, floor: int)
    requires WellFormed(t) && EndsNotBefore(lines, floor, cfg)
    requires forall c :: c in t.last ==> t.last[c] <= floor
    ensures var last := ApplyLines(t, lines, cfg).next.last;
      forall c :: c in t.last ==> c in last && t.last[c] <= last[c]
    decreases |lines|
  {
    if lines != [] {
      var line := Strip(lines[0]);
      var o := ApplyLine(t, line, cfg);
      var next := floor;
      var ev := Parse(line);
      if ev.End? {
        if cfg.toEpoch(ev.timestamp).Some? {
          next := cfg.toEpoch(ev.timestamp).value;
          EndNeverLowers(t, ev.timestamp, cfg, next);
        }
      } else if ev.Start? {
        StartLine(t, line, cfg);
      } else {
        UnrecognizedLine(t, line, cfg);
      }
      if !o.crashed {
        RunNeverLowers(o.next, lines[1..], cfg, next);
      }
    }
  }

  // ---------------------------------------------------------------------------
  // Whole runs

  /**
   * Processing a log in two pieces is processing it at once: lines read in
   * one poll and lines read in the next are handled as one stream.
   */
  lemma {:induction false} ApplyLinesAppend(t: TxState, a: seq<string>, b: seq<string>, cfg: Config)
    requires WellFormed(t)
    ensures var o := ApplyLines(t, a, cfg);
      ApplyLines(t, a + b, cfg) ==
        if o.crashed then o
        else var r := ApplyLines(o.next, b, cfg); Outcome(r.next, o.attempts + r.attempts, r.crashed)
    decreases |a|
  {
    if a == [] {
      assert a + b == b;
      assert [] + ApplyLines(t, b, cfg).attempts == ApplyLines(t, b, cfg).attempts;
    } else {
      assert (a + b)[0] == a[0] && (a + b)[1..] == a[1..] + b;
      var o1 := ApplyLine(t, Strip(a[0]), cfg);
      if !o1.crashed {
        ApplyLinesAppend(o1.next, a[1..], b, cfg);
        var o := ApplyLines(o1.next, a[1..], cfg);
        if !o.crashed {
          AppendAssoc(o1.attempts, o.attempts, ApplyLines(o.next, b, cfg).attempts);
        }
      }
    }
  }

  /** Two lines, the first of which does not raise. */
  lemma ApplyTwo(t: TxState, a: string, b: string, cfg: Config)
    requires WellFormed(t) && !ApplyLine(t, Strip(a), cfg).crashed
    ensures var o1 := ApplyLine(t, Strip(a), cfg); var o2 := ApplyLine(o1.next, Strip(b), cfg);
      ApplyLines(t, [a, b], cfg) == Outcome(o2.next, o1.attempts + o2.attempts, o2.crashed)
  {
    var o1 := ApplyLine(t, Strip(a), cfg);
    var o2 := ApplyLine(o1.next, Strip(b), cfg);
    assert [a, b][0] == a && [a, b][1..] == [b];
    assert [b][0] == b && [b][1..] == [];
    assert o2.attempts + [] == o2.attempts;
    assert ApplyLines(o1.next, [b], cfg) == if o2.crashed then o2 else Outcome(o2.next, o2.attempts, false);
  }

  /** The end branch with exactly one open transmission. */
  lemma CloseOne(cs: Callsign, ts0: Timestamp, last: map<Callsign, int>, ts1: Timestamp, cfg: Config, s: int, e: int)
    requires cfg.toEpoch(ts0) == Some(s) && cfg.toEpoch(ts1) == Some(e)
    ensures var long := e - s >= cfg.minDuration * MillisPerSecond;
      EndTx(TxState(map[cs := ts0], [cs], last), ts1, cfg) == Outcome(
        TxState(map[], [], if long then last[cs := e] else last),
        if long && e - LastOr0(last, cs) >= cfg.timerDuration * MillisPerSecond then [Attempt(cs, ts0, e)] else [],
        false)
  {
    var active := map[cs := ts0];
    var acc := Closing(last, [], false);
    assert [cs][0] == cs && [cs][1..] == [];
    assert [] + [Attempt(cs, ts0, e)] == [Attempt(cs, ts0, e)];
    assert CloseEach([cs], active, e, cfg, acc) == Visit(acc, cs, ts0, s, e, cfg);
  }

  /**
   * One station alone: with nothing open, a start line and an end line close
   * that one transmission, notify when it was long enough and the window has
   * passed, and refresh its last activity when it was long enough.
   */
  lemma LoneTransmission(t: TxState, start: string, end: string, cfg: Config, ts0: Timestamp, cs: Callsign, ts1: Timestamp, s: int, e: int)
    requires WellFormed(t) && t.active == map[]
    requires Parse(Strip(start)) == Start(ts0, cs) && Parse(Strip(end)) == End(ts1)
    requires cfg.toEpoch(ts0) == Some(s) && cfg.toEpoch(ts1) == Some(e)
    ensures var long := e - s >= cfg.minDuration * MillisPerSecond;
      ApplyLines(t, [start, end], cfg) == Outcome(
        TxState(map[], [], if long then t.last[cs := e] else t.last),
        if long && e - LastOr0(t.last, cs) >= cfg.timerDuration * MillisPerSecond then [Attempt(cs, ts0, e)] else [],
        false)
  {
    var t1 := TxState(map[cs := ts0], [cs], t.last);
    StartFromNothing(t, Strip(start), cfg, ts0, cs);
    ApplyTwo(t, start, end, cfg);
    EndLine(t1, Strip(end), cfg);
    CloseOne(cs, ts0, t.last, ts1, cfg, s, e);
    assert [] + EndTx(t1, ts1, cfg).attempts == EndTx(t1, ts1, cfg).attempts;
  }

  /** A start line with nothing open opens exactly that transmission. */
  lemma StartFromNothing(t: TxState, line: string, cfg: Config, ts0: Timestamp, cs: Callsign)
    requires WellFormed(t) && t.active == map[] && Parse(line) == Start(ts0, cs)
    ensures ApplyLine(t, line, cfg) == Outcome(TxState(map[cs := ts0], [cs], t.last), [], false)
  {
    FirstIsOpen(t);
  }

  /** A start line and an end line as the reflector writes them. */
  function StartText(day: string, time: string, cs: Callsign): string
  {
    Marker + day + " " + time + DataFrom + cs + "\n"
  }

  function EndText(day: string, time: string): string
  {
    Marker + day + " " + time + EndOfTx + "\n"
  }

  /** One transmission of `cs` from `t0` to `t1` on `day`, as two log lines. */
  function Transmission(day: string, t0: string, t1: string, cs: Callsign): seq<string>
  {
    [StartText(day, t0, cs), EndText(day, t1)]
  }

  /** A transmission written as two log lines, processed from a state with nothing open. */
  lemma TransmissionRun(t: TxState, day: string, t0: string, t1: string, cs: Callsign, cfg: Config, s: int, e: int)
    requires WellFormed(t) && t.active == map[]
    requires IsToken(day) && IsToken(t0) && IsToken(t1) && IsToken(cs)
    requires cfg.toEpoch(day + " " + t0) == Some(s) && cfg.toEpoch(day + " " + t1) == Some(e)
    ensures var long := e - s >= cfg.minDuration * MillisPerSecond;
      ApplyLines(t, Transmission(day, t0, t1, cs), cfg) == Outcome(
        TxState(map[], [], if long then t.last[cs := e] else t.last),
        if long && e - LastOr0(t.last, cs) >= cfg.timerDuration * MillisPerSecond then [Attempt(cs, day + " " + t0, e)] else [],
        false)
  {
    assert AllSpace("\n");
    StartLineRead(day, t0, cs, "\n");
    EndLineRead(day, t1, "\n");
    LoneTransmission(t, StartText(day, t0, cs), EndText(day, t1), cfg, day + " " + t0, cs, day + " " + t1, s, e);
  }

  /** The four epoch values of one transmission's two timestamps. */
  ghost predicate Clock(cfg: Config, day: string, t0: string, t1: string, s: int, e: int)
  {
    cfg.toEpoch(day + " " + t0) == Some(s) && cfg.toEpoch(day + " " + t1) == Some(e)
  }

  /**
   * An example run with `MIN_DURATION` 4 and `TIMER_DURATION` 900, for any
   * date, callsign and eight times of day the clock reads as below: the
   * station talks for 10 s (notified), for 3 s (too short), for 30 s only
   * 380 s after its last activity (suppressed, but the window moves), and for
   * 10 s 1110 s after that (notified again).
   */
  lemma ExampleRun(cfg: Config, day: string, cs: Callsign, t: seq<string>)
    requires cfg.minDuration == 4 && cfg.timerDuration == 900
    requires IsToken(day) && IsToken(cs) && |t| == 8 && forall i :: 0 <= i < 8 ==> IsToken(t[i])
    requires Clock(cfg, day, t[0], t[1], 1704103200000, 1704103210000)
    requires Clock(cfg, day, t[2], t[3], 1704103500000, 1704103503000)
    requires Clock(cfg, day, t[4], t[5], 1704103560000, 1704103590000)
    requires Clock(cfg, day, t[6], t[7], 1704104700000, 1704104710000)
    ensures var log :=
        (Transmission(day, t[0], t[1], cs) + Transmission(day, t[2], t[3], cs))
      + (Transmission(day, t[4], t[5], cs) + Transmission(day, t[6], t[7], cs));
      ApplyLines(TxState(map[], [], map[]), log, cfg) == Outcome(
        TxState(map[], [], map[cs := 1704104710000]),
        [Attempt(cs, day + " " + t[0], 1704103210000), Attempt(cs, day + " " + t[6], 1704104710000)],
        false)
  {
    var first := Transmission(day, t[0], t[1], cs) + Transmission(day, t[2], t[3], cs);
    var second := Transmission(day, t[4], t[5], cs) + Transmission(day, t[6], t[7], cs);
    var s0 := TxState(map[], [], map[]);
    ExampleFirstHalf(cfg, day, cs, t[0], t[1], t[2], t[3]);
    ExampleSecondHalf(cfg, day, cs, t[4], t[5], t[6], t[7]);
    ApplyLinesAppend(s0, first, second, cfg);
  }

  /** The first two transmissions of the example run: notified, then too short. */
  lemma ExampleFirstHalf(cfg: Config, day: string, cs: Callsign, a: string, b: string, c: string, d: string)
    requires cfg.minDuration == 4 && cfg.timerDuration == 900
    requires IsToken(day) && IsToken(cs) && IsToken(a) && IsToken(b) && IsToken(c) && IsToken(d)
    requires Clock(cfg, day, a, b, 1704103200000, 1704103210000)
    requires Clock(cfg, day, c, d, 1704103500000, 1704103503000)
    ensures ApplyLines(TxState(map[], [], map[]), Transmission(day, a, b, cs) + Transmission(day, c, d, cs), cfg)
      == Outcome(TxState(map[], [], map[cs := 1704103210000]), [Attempt(cs, day + " " + a, 1704103210000)], false)
  {
    var s0 := TxState(map[], [], map[]);
    var s1 := TxState(map[], [], map[cs := 1704103210000]);
    TransmissionRun(s0, day, a, b, cs, cfg, 1704103200000, 1704103210000);
    TransmissionRun(s1, day, c, d, cs, cfg, 1704103500000, 1704103503000);
    ApplyLinesAppend(s0, Transmission(day, a, b, cs), Transmission(day, c, d, cs), cfg);
    assert [Attempt(cs, day + " " + a, 1704103210000)] + [] == [Attempt(cs, day + " " + a, 1704103210000)];
  }

  lemma Overwrite(m: map<Callsign, int>, cs: Callsign, x: int, y: int)
    ensures m[cs := x][cs := y] == m[cs := y]
  {
  }

  /** The last two transmissions of the example run: suppressed but refreshing, then notified. */
  lemma ExampleSecondHalf(cfg: Config, day: string, cs: Callsign, a: string, b: string, c: string, d: string)
    requires cfg.minDuration == 4 && cfg.timerDuration == 900
    requires IsToken(day) && IsToken(cs) && IsToken(a) && IsToken(b) && IsToken(c) && IsToken(d)
    requires Clock(cfg, day, a, b, 1704103560000, 1704103590000)
    requires Clock(cfg, day, c, d, 1704104700000, 1704104710000)
    ensures ApplyLines(TxState(map[], [], map[cs := 1704103210000]), Transmission(day, a, b, cs) + Transmission(day, c, d, cs), cfg)
      == Outcome(TxState(map[], [], map[cs := 1704104710000]), [Attempt(cs, day + " " + c, 1704104710000)], false)
  {
    var s1 := TxState(map[], [], map[cs := 1704103210000]);
    var s2 := TxState(map[], [], map[cs := 1704103590000]);
    TransmissionRun(s1, day, a, b, cs, cfg, 1704103560000, 1704103590000);
    Overwrite(map[], cs, 1704103210000, 1704103590000);
    TransmissionRun(s2, day, c, d, cs, cfg, 1704104700000, 1704104710000);
    Overwrite(map[], cs, 1704103590000, 1704104710000);
    ApplyLinesAppend(s1, Transmission(day, a, b, cs), Transmission(day, c, d, cs), cfg);
    assert [] + [Attempt(cs, day + " " + c, 1704104710000)] == [Attempt(cs, day + " " + c, 1704104710000)];
  }
}
