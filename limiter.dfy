/**
 * The rate-limiting aspect: policy resolution, the bypass conditions, the
 * cache key, lazy creation of a per-key buffer and the admission rule.  The
 * pure function `DecideOn` describes one call against a snapshot of the cache;
 * class `Limiter` performs the same call on real buffers and is proved to
 * follow it.
 */
module LimiterAspect {
  import opened Common
  import Rings
  import CircularBuffers
  import IpUtils
  import SW = SlidingWindow

  /** The exceptions the aspect can let escape, other than the rejection itself. */
  datatype Failure = BufferFailure(fault: Rings.Fault) | NegativeArraySize | HeaderIndexOutOfBounds

  /**
   * `Admit` and `Bypass` both let the protected method run; `Bypass` is the
   * path that skips the limiter.  `Reject` is `LimiterException`.
   */
  datatype Decision = Admit | Reject | Bypass | Fault(failure: Failure)

  /** The configured defaults `limiter.rate` and `limiter.time`. */
  datatype Settings = Settings(rate: int, time: int)

  /** One intercepted call: client address, target, annotation values and the clock. */
  datatype Call = Call(ip: Option<string>, className: string, methodName: string, annRate: int, annTime: int, now: int)

  /** `Character.isWhitespace`. */
  predicate JavaWhitespace(c: char)
  {
    var n := c as int;
    (0x09 <= n <= 0x0D) || (0x1C <= n <= 0x20) || n == 0x1680 || (0x2000 <= n <= 0x2006)
    || (0x2008 <= n <= 0x200A) || n == 0x2028 || n == 0x2029 || n == 0x205F || n == 0x3000
  }

  /** `StringUtils.hasText`: not null and not only whitespace. */
  predicate HasText(s: Option<string>)
  {
    s.Some? && exists i :: 0 <= i < |s.value| && !JavaWhitespace(s.value[i])
  }

  /** An annotation value wins when it is nonzero. */
  function Resolve(annotated: int, configured: int): int
  {
    if annotated != 0 then annotated else configured
  }

  /** The window in milliseconds: `time * 1000L * 60L`, `time` being minutes. */
  function WindowMillis(time: int): int
  {
    time * 1000 * 60
  }

  function CacheKey(ip: string, className: string, methodName: string): string
  {
    ip + "_" + className + "_" + methodName
  }

  /** The cache key a call would use, if its address has text. */
  function KeyOf(c: Call): Option<string>
  {
    if HasText(c.ip) then Some(CacheKey(c.ip.value, c.className, c.methodName)) else None
  }

  /** A decision and the buffer fields it leaves behind. */
  datatype Verdict = Verdict(decision: Decision, ring: Rings.Ring)

  function FromOutcome(o: Rings.Outcome): Decision
  {
    if o.Done? then Admit else Fault(BufferFailure(o.fault))
  }

  /** The admission rule applied to one key's buffer. */
  function Admission(rule: SW.Rule, b: Rings.Ring, rate: int, time: int, now: int): (v: Verdict)
    requires Rings.Sound(b)
    ensures Rings.Sound(v.ring) && v.ring.capacity == b.capacity
    ensures v.decision != Bypass
    ensures rule == SW.DeleteThenAdd && v.decision == Reject ==> v.ring == b
  {
    if b.size == 0 || b.size < rate then
      var s := Rings.Add(b, now);
      Verdict(FromOutcome(s.outcome), s.ring)
    else
      match Rings.Peek(b)
      case Failure(f) => Verdict(Fault(BufferFailure(f)), b)
      case Success(first) =>
        match rule
        case DeleteThenAdd =>
          if now - first > WindowMillis(time) then
            var d := Rings.Delete(b);
            if d.outcome.Failed? then Verdict(FromOutcome(d.outcome), d.ring)
            else
              var s := Rings.Add(d.ring, now);
              Verdict(FromOutcome(s.outcome), s.ring)
          else Verdict(Reject, b)
        case ReplaceThenCompare =>
          var s := Rings.ReplaceFirst(b, now);
          if s.outcome.Failed? then Verdict(FromOutcome(s.outcome), s.ring)
          else Verdict(if now - first > WindowMillis(time) then Admit else Reject, s.ring)
  }

  /** The decision of one call and the cache snapshot afterwards. */
  datatype Effect = Effect(decision: Decision, cache: map<string, Rings.Ring>)

  predicate SoundCache(cache: map<string, Rings.Ring>)
  {
    forall k :: k in cache ==> Rings.Sound(cache[k])
  }

  /** `limitMe` for one call, given the address it resolved. */
  function DecideOn(cache: map<string, Rings.Ring>, s: Settings, c: Call, rule: SW.Rule): (e: Effect)
    requires SoundCache(cache)
    ensures SoundCache(e.cache)
  {
    if !HasText(c.ip) then Effect(Bypass, cache)
    else
      var rate := Resolve(c.annRate, s.rate);
      var time := Resolve(c.annTime, s.time);
      if rate == 0 || time == 0 then Effect(Bypass, cache)
      else
        var key := CacheKey(c.ip.value, c.className, c.methodName);
        if key !in cache && rate < 0 then Effect(Fault(NegativeArraySize), cache)
        else
          var b := if key in cache then cache[key] else Rings.New(rate);
          var v := Admission(rule, b, rate, time, c.now);
          Effect(v.decision, cache[key := v.ring])
  }

  /** An enabled call whose buffer exists or can be created is decided by the admission rule on that buffer. */
  lemma DecideOnEnabled(cache: map<string, Rings.Ring>, s: Settings, c: Call, rule: SW.Rule)
    requires SoundCache(cache) && HasText(c.ip)
    requires Resolve(c.annRate, s.rate) != 0 && Resolve(c.annTime, s.time) != 0
    requires CacheKey(c.ip.value, c.className, c.methodName) in cache || Resolve(c.annRate, s.rate) > 0
    ensures var rate, key := Resolve(c.annRate, s.rate), CacheKey(c.ip.value, c.className, c.methodName);
      var v := Admission(rule, if key in cache then cache[key] else Rings.New(rate), rate, Resolve(c.annTime, s.time), c.now);
      DecideOn(cache, s, c, rule) == Effect(v.decision, cache[key := v.ring])
  {
  }

  /**
   * The limiter is bypassed exactly when the address has no text or the
   * resolved rate or time is 0; a bypassed call reads and changes no buffer.
   */
  lemma BypassExactly(cache: map<string, Rings.Ring>, s: Settings, c: Call, rule: SW.Rule)
    requires SoundCache(cache)
    ensures var e := DecideOn(cache, s, c, rule);
      && (e.decision == Bypass <==> !HasText(c.ip) || Resolve(c.annRate, s.rate) == 0 || Resolve(c.annTime, s.time) == 0)
      && (e.decision == Bypass ==> e.cache == cache)
  {
  }

  /**
   * The first call under a key creates a buffer whose capacity is the
   * resolved rate (the annotation's when nonzero, else the setting's), holding
   * just this call's time; a negative rate makes the array allocation throw
   * and creates nothing.
   */
  lemma FirstCallCreatesBuffer(cache: map<string, Rings.Ring>, s: Settings, c: Call, rule: SW.Rule)
    requires SoundCache(cache)
    requires HasText(c.ip) && Resolve(c.annRate, s.rate) != 0 && Resolve(c.annTime, s.time) != 0
    requires CacheKey(c.ip.value, c.className, c.methodName) !in cache
    ensures var e := DecideOn(cache, s, c, rule);
      var key, rate := CacheKey(c.ip.value, c.className, c.methodName), if c.annRate != 0 then c.annRate else s.rate;
      if rate < 0 then e == Effect(Fault(NegativeArraySize), cache)
      else
        && e.decision == Admit
        && key in e.cache && e.cache == cache[key := e.cache[key]]
        && e.cache[key].capacity == rate
        && Rings.WellFormed(e.cache[key]) && Rings.Contents(e.cache[key]) == [c.now]
  {
    var rate := Resolve(c.annRate, s.rate);
    if rate > 0 {
      Rings.AddAppends(Rings.New(rate), c.now);
    }
  }

  /** A later call reuses the key's buffer, whose capacity stays what it was even if the rate changed. */
  lemma BufferReused(cache: map<string, Rings.Ring>, s: Settings, c: Call, rule: SW.Rule)
    requires SoundCache(cache)
    requires KeyOf(c).Some? && KeyOf(c).value in cache
    ensures var e := DecideOn(cache, s, c, rule);
      e.cache.Keys == cache.Keys && e.cache[KeyOf(c).value].capacity == cache[KeyOf(c).value].capacity
  {
  }

  /** A call changes no entry but its own key's. */
  lemma OtherKeysUntouched(cache: map<string, Rings.Ring>, s: Settings, c: Call, rule: SW.Rule, k: string)
    requires SoundCache(cache) && KeyOf(c) != Some(k)
    ensures var e := DecideOn(cache, s, c, rule);
      (k in e.cache <==> k in cache) && (k in cache ==> e.cache[k] == cache[k])
  {
  }

  /** Two caches that hold the same entry (or none) for a key. */
  predicate AgreeOn(c1: map<string, Rings.Ring>, c2: map<string, Rings.Ring>, k: string)
  {
    (k in c1 <==> k in c2) && (k in c1 ==> c1[k] == c2[k])
  }

  /** The decision for a call depends only on the entry of the call's own key. */
  lemma DecisionIsLocal(c1: map<string, Rings.Ring>, c2: map<string, Rings.Ring>, s: Settings, c: Call, rule: SW.Rule)
    requires SoundCache(c1) && SoundCache(c2)
    requires KeyOf(c).Some? && AgreeOn(c1, c2, KeyOf(c).value)
    ensures var e1, e2 := DecideOn(c1, s, c, rule), DecideOn(c2, s, c, rule);
      e1.decision == e2.decision && AgreeOn(e1.cache, e2.cache, KeyOf(c).value)
  {
  }

  function ToDecision(admitted: bool): Decision
  {
    if admitted then Admit else Reject
  }

  /**
   * On a well-formed buffer whose capacity is the rate, the admission rule is
   * the log-level rule of `SlidingWindow` on the buffer's contents: while
   * fewer than `rate` timestamps are held the call is admitted and appended;
   * on a full buffer the comparison with the oldest timestamp decides, and as
   * written a rejected call leaves the buffer unchanged.
   */
  lemma AdmissionFollowsLog(rule: SW.Rule, b: Rings.Ring, rate: int, time: int, now: int)
    requires Rings.WellFormed(b) && b.capacity == rate && rate > 0
    ensures var v := Admission(rule, b, rate, time, now);
      var w := SW.Step(rule, Rings.Contents(b), rate, WindowMillis(time), now);
      && Rings.WellFormed(v.ring) && v.ring.capacity == rate
      && v.decision == ToDecision(w.admitted)
      && Rings.Contents(v.ring) == w.log
  {
    if b.size < rate {
      Rings.AddAppends(b, now);
    } else {
      Rings.PeekOldest(b);
      match rule
      case DeleteThenAdd =>
        Rings.DeleteDropsOldest(b);
        Rings.AddAppends(Rings.Delete(b).ring, now);
      case ReplaceThenCompare =>
        Rings.ReplaceFirstRotates(b, now);
    }
  }

  /** The decisions and the final snapshot of a sequence of calls. */
  datatype Trace = Trace(decisions: seq<Decision>, cache: map<string, Rings.Ring>)

  function RunCalls(cache: map<string, Rings.Ring>, s: Settings, calls: seq<Call>, rule: SW.Rule): (t: Trace)
    requires SoundCache(cache)
    ensures SoundCache(t.cache) && |t.decisions| == |calls|
    decreases |calls|
  {
    if calls == [] then Trace([], cache)
    else
      var prev := RunCalls(cache, s, calls[..|calls| - 1], rule);
      var e := DecideOn(prev.cache, s, calls[|calls| - 1], rule);
      Trace(prev.decisions + [e.decision], e.cache)
  }

  /** The calls made under key `k`, in order. */
  function OnlyKey(calls: seq<Call>, k: string): seq<Call>
    decreases |calls|
  {
    if calls == [] then []
    else OnlyKey(calls[..|calls| - 1], k) + if KeyOf(calls[|calls| - 1]) == Some(k) then [calls[|calls| - 1]] else []
  }

  /** The decisions of the calls made under key `k`, in order. */
  function DecisionsFor(calls: seq<Call>, ds: seq<Decision>, k: string): seq<Decision>
    requires |ds| == |calls|
    decreases |calls|
  {
    if calls == [] then []
    else
      DecisionsFor(calls[..|calls| - 1], ds[..|ds| - 1], k)
      + if KeyOf(calls[|calls| - 1]) == Some(k) then [ds[|ds| - 1]] else []
  }

  /**
   * Key independence: interleaving calls under other keys changes none of
   * the decisions for key `k`; they are those of the calls under `k` alone.
   */
  lemma {:induction false} KeysAreIndependent(c1: map<string, Rings.Ring>, c2: map<string, Rings.Ring>, s: Settings, calls: seq<Call>, rule: SW.Rule, k: string)
    requires SoundCache(c1) && SoundCache(c2) && AgreeOn(c1, c2, k)
    ensures var t1, t2 := RunCalls(c1, s, calls, rule), RunCalls(c2, s, OnlyKey(calls, k), rule);
      DecisionsFor(calls, t1.decisions, k) == t2.decisions && AgreeOn(t1.cache, t2.cache, k)
    decreases |calls|
  {
    if calls != [] {
      var init, last := calls[..|calls| - 1], calls[|calls| - 1];
      KeysAreIndependent(c1, c2, s, init, rule, k);
      var p1, p2 := RunCalls(c1, s, init, rule), RunCalls(c2, s, OnlyKey(init, k), rule);
      var t1 := RunCalls(c1, s, calls, rule);
      assert t1.decisions[..|t1.decisions| - 1] == p1.decisions;
      if KeyOf(last) == Some(k) {
        var only := OnlyKey(init, k) + [last];
        assert OnlyKey(calls, k) == only;
        assert only[..|only| - 1] == OnlyKey(init, k);
        DecisionIsLocal(p1.cache, p2.cache, s, last, rule);
      } else {
        assert OnlyKey(calls, k) == OnlyKey(init, k);
        OtherKeysUntouched(p1.cache, s, last, rule, k);
      }
    }
  }

  /** The times of the admitted calls. */
  function AdmittedTimes(calls: seq<Call>, ds: seq<Decision>): seq<int>
    requires |ds| == |calls|
    decreases |calls|
  {
    if calls == [] then []
    else AdmittedTimes(calls[..|calls| - 1], ds[..|ds| - 1]) + if ds[|ds| - 1] == Admit then [calls[|calls| - 1].now] else []
  }

  function Times(calls: seq<Call>): (ts: seq<int>)
    ensures |ts| == |calls| && forall i :: 0 <= i < |calls| ==> ts[i] == calls[i].now
  {
    seq(|calls|, i requires 0 <= i < |calls| => calls[i].now)
  }

  /** Calls under one key with one policy, differing only in their times. */
  predicate SamePolicy(calls: seq<Call>, c: Call)
  {
    forall i :: 0 <= i < |calls| ==> calls[i] == c.(now := calls[i].now)
  }

  /** The entry for `key` is a well-formed buffer of capacity `rate` holding `log`, or absent with `log` empty. */
  predicate HoldsLog(cache: map<string, Rings.Ring>, key: string, rate: int, log: seq<int>)
  {
    if key in cache then Rings.WellFormed(cache[key]) && cache[key].capacity == rate && Rings.Contents(cache[key]) == log
    else log == []
  }

  /** One call under an enabled policy does to the key's entry what the log-level rule does to its log. */
  lemma CallFollowsLog(cache: map<string, Rings.Ring>, s: Settings, c: Call, rule: SW.Rule, log: seq<int>)
    requires SoundCache(cache) && HasText(c.ip)
    requires Resolve(c.annRate, s.rate) > 0 && Resolve(c.annTime, s.time) != 0
    requires HoldsLog(cache, CacheKey(c.ip.value, c.className, c.methodName), Resolve(c.annRate, s.rate), log)
    ensures var rate, window := Resolve(c.annRate, s.rate), WindowMillis(Resolve(c.annTime, s.time));
      var e, w := DecideOn(cache, s, c, rule), SW.Step(rule, log, rate, window, c.now);
      e.decision == ToDecision(w.admitted)
      && HoldsLog(e.cache, CacheKey(c.ip.value, c.className, c.methodName), rate, w.log)
  {
    var rate, time := Resolve(c.annRate, s.rate), Resolve(c.annTime, s.time);
    var key := CacheKey(c.ip.value, c.className, c.methodName);
    var b := if key in cache then cache[key] else Rings.New(rate);
    AdmissionFollowsLog(rule, b, rate, time, c.now);
  }

  /**
   * For calls under one key with one enabled, positive-rate policy, starting
   * from a cache without that key, the aspect decides exactly as the
   * log-level rule does on the calls' times, and admits the same calls.
   */
  lemma {:induction false} SingleKeyFollowsLog(cache: map<string, Rings.Ring>, s: Settings, c: Call, calls: seq<Call>, rule: SW.Rule)
    requires SoundCache(cache) && SamePolicy(calls, c) && HasText(c.ip)
    requires Resolve(c.annRate, s.rate) > 0 && Resolve(c.annTime, s.time) != 0
    requires CacheKey(c.ip.value, c.className, c.methodName) !in cache
    ensures var rate, window := Resolve(c.annRate, s.rate), WindowMillis(Resolve(c.annTime, s.time));
      var t, h := RunCalls(cache, s, calls, rule), SW.Replay(rule, Times(calls), rate, window);
      && (forall i :: 0 <= i < |calls| ==> t.decisions[i] == ToDecision(h.decisions[i]))
      && AdmittedTimes(calls, t.decisions) == h.admitted
      && HoldsLog(t.cache, CacheKey(c.ip.value, c.className, c.methodName), rate, h.log)
    decreases |calls|
  {
    var rate, window := Resolve(c.annRate, s.rate), WindowMillis(Resolve(c.annTime, s.time));
    SingleKeyDecisions(cache, s, c, calls, rule);
    AdmittedTimesAgree(calls, RunCalls(cache, s, calls, rule).decisions, rule, rate, window);
  }

  /**
   * The calls' decisions are those of the log-level replay on their times, and
   * the key's entry holds the replay's log.
   */
  predicate AgreesWithReplay(cache: map<string, Rings.Ring>, s: Settings, c: Call, calls: seq<Call>, rule: SW.Rule)
    requires SoundCache(cache) && HasText(c.ip) && Resolve(c.annRate, s.rate) > 0
  {
    var rate, window := Resolve(c.annRate, s.rate), WindowMillis(Resolve(c.annTime, s.time));
    var t, h := RunCalls(cache, s, calls, rule), SW.Replay(rule, Times(calls), rate, window);
    && (forall i :: 0 <= i < |calls| ==> t.decisions[i] == ToDecision(h.decisions[i]))
    && HoldsLog(t.cache, CacheKey(c.ip.value, c.className, c.methodName), rate, h.log)
  }

  /** The decisions and the key's entry in `SingleKeyFollowsLog`, by induction on the calls. */
  lemma {:induction false} SingleKeyDecisions(cache: map<string, Rings.Ring>, s: Settings, c: Call, calls: seq<Call>, rule: SW.Rule)
    requires SoundCache(cache) && SamePolicy(calls, c) && HasText(c.ip)
    requires Resolve(c.annRate, s.rate) > 0 && Resolve(c.annTime, s.time) != 0
    requires CacheKey(c.ip.value, c.className, c.methodName) !in cache
    ensures AgreesWithReplay(cache, s, c, calls, rule)
    decreases |calls|
  {
    if calls != [] {
      var init := calls[..|calls| - 1];
      assert SamePolicy(init, c);
      SingleKeyDecisions(cache, s, c, init, rule);
      SingleKeyExtend(cache, s, c, calls, rule);
    }
  }

  /** One more call under the key keeps the aspect in agreement with the replay. */
  lemma SingleKeyExtend(cache: map<string, Rings.Ring>, s: Settings, c: Call, calls: seq<Call>, rule: SW.Rule)
    requires SoundCache(cache) && SamePolicy(calls, c) && HasText(c.ip)
    requires Resolve(c.annRate, s.rate) > 0 && Resolve(c.annTime, s.time) != 0
    requires calls != [] && AgreesWithReplay(cache, s, c, calls[..|calls| - 1], rule)
    ensures AgreesWithReplay(cache, s, c, calls, rule)
  {
    var rate, window := Resolve(c.annRate, s.rate), WindowMillis(Resolve(c.annTime, s.time));
    var init, last := calls[..|calls| - 1], calls[|calls| - 1];
    var prev := RunCalls(cache, s, init, rule);
    var hp := SW.Replay(rule, Times(init), rate, window);
    assert Times(calls)[..|calls| - 1] == Times(init);
    assert last == c.(now := last.now);
    CallFollowsLog(prev.cache, s, last, rule, hp.log);
    var e := DecideOn(prev.cache, s, last, rule);
    var w := SW.Step(rule, hp.log, rate, window, last.now);
    var t := RunCalls(cache, s, calls, rule);
    var h := SW.Replay(rule, Times(calls), rate, window);
    assert t == Trace(prev.decisions + [e.decision], e.cache);
    assert h.decisions == hp.decisions + [w.admitted];
    AgreeAppend(prev.decisions, hp.decisions, e.decision, w.admitted);
  }

  /** Decision lists that agree pointwise still agree after one more agreeing decision each. */
  lemma AgreeAppend(ds: seq<Decision>, bs: seq<bool>, d: Decision, b: bool)
    requires |ds| == |bs| && d == ToDecision(b)
    requires forall i :: 0 <= i < |ds| ==> ds[i] == ToDecision(bs[i])
    ensures forall i :: 0 <= i < |ds| + 1 ==> (ds + [d])[i] == ToDecision((bs + [b])[i])
  {
  }

  /** Decisions that agree with the log-level rule's admit exactly the calls it admits. */
  lemma {:induction false} AdmittedTimesAgree(calls: seq<Call>, ds: seq<Decision>, rule: SW.Rule, rate: int, window: int)
    requires rate > 0 && |ds| == |calls|
    requires forall i :: 0 <= i < |calls| ==> ds[i] == ToDecision(SW.Replay(rule, Times(calls), rate, window).decisions[i])
    ensures AdmittedTimes(calls, ds) == SW.Replay(rule, Times(calls), rate, window).admitted
    decreases |calls|
  {
    if calls != [] {
      var init := calls[..|calls| - 1];
      var h, hp := SW.Replay(rule, Times(calls), rate, window), SW.Replay(rule, Times(init), rate, window);
      assert Times(calls)[..|calls| - 1] == Times(init);
      forall i | 0 <= i < |init|
        ensures ds[..|ds| - 1][i] == ToDecision(hp.decisions[i])
      {
        assert h.decisions[i] == hp.decisions[i];
      }
      AdmittedTimesAgree(init, ds[..|ds| - 1], rule, rate, window);
      assert h.decisions[|calls| - 1] == h.decisions[|h.decisions| - 1];
    }
  }

  /**
   * The sliding-window guarantee at the level of the aspect as written: for
   * calls under one key with one enabled policy, made in time order, among any
   * `rate + 1` admitted calls the first and the last are more than `time`
   * minutes apart.
   */
  lemma KeyAdmissionBound(cache: map<string, Rings.Ring>, s: Settings, c: Call, calls: seq<Call>)
    requires SoundCache(cache) && SamePolicy(calls, c) && HasText(c.ip)
    requires Resolve(c.annRate, s.rate) > 0 && Resolve(c.annTime, s.time) != 0
    requires CacheKey(c.ip.value, c.className, c.methodName) !in cache
    requires forall i, j :: 0 <= i <= j < |calls| ==> calls[i].now <= calls[j].now
    ensures var rate, window := Resolve(c.annRate, s.rate), WindowMillis(Resolve(c.annTime, s.time));
      var a := AdmittedTimes(calls, RunCalls(cache, s, calls, SW.DeleteThenAdd).decisions);
      forall i, j :: 0 <= i && i + rate <= j < |a| ==> a[j] - a[i] > window
  {
    var rate, window := Resolve(c.annRate, s.rate), WindowMillis(Resolve(c.annTime, s.time));
    SingleKeyFollowsLog(cache, s, c, calls, SW.DeleteThenAdd);
    SW.AdmissionBound(Times(calls), rate, window);
  }

  /**
   * Calls under one key with one enabled policy that all come within the
   * window of the first: as written, the first `rate` are admitted and every
   * later one is rejected.
   */
  lemma KeyBurst(cache: map<string, Rings.Ring>, s: Settings, c: Call, calls: seq<Call>)
    requires SoundCache(cache) && SamePolicy(calls, c) && HasText(c.ip)
    requires Resolve(c.annRate, s.rate) > 0 && Resolve(c.annTime, s.time) != 0
    requires CacheKey(c.ip.value, c.className, c.methodName) !in cache
    requires forall j :: 0 <= j < |calls| ==> calls[j].now - calls[0].now <= WindowMillis(Resolve(c.annTime, s.time))
    ensures var rate, t := Resolve(c.annRate, s.rate), RunCalls(cache, s, calls, SW.DeleteThenAdd);
      && (forall j :: 0 <= j < |calls| ==> t.decisions[j] == if j < rate then Admit else Reject)
      && AdmittedTimes(calls, t.decisions) == Times(calls)[..if |calls| < rate then |calls| else rate]
  {
    var rate, window := Resolve(c.annRate, s.rate), WindowMillis(Resolve(c.annTime, s.time));
    SingleKeyFollowsLog(cache, s, c, calls, SW.DeleteThenAdd);
    SW.BurstDecisions(Times(calls), rate, window);
  }

  /**
   * The sequential reading of the concurrent tests: whatever calls under other
   * keys are interleaved, the calls under key `k` that come within the window
   * of the first of them are admitted for the first `rate` and rejected after.
   */
  lemma InterleavedBurst(cache: map<string, Rings.Ring>, s: Settings, c: Call, calls: seq<Call>)
    requires SoundCache(cache) && HasText(c.ip)
    requires Resolve(c.annRate, s.rate) > 0 && Resolve(c.annTime, s.time) != 0
    requires CacheKey(c.ip.value, c.className, c.methodName) !in cache
    requires var own := OnlyKey(calls, CacheKey(c.ip.value, c.className, c.methodName));
      && SamePolicy(own, c)
      && forall j :: 0 <= j < |own| ==> own[j].now - own[0].now <= WindowMillis(Resolve(c.annTime, s.time))
    ensures var k, rate := CacheKey(c.ip.value, c.className, c.methodName), Resolve(c.annRate, s.rate);
      var ds := DecisionsFor(calls, RunCalls(cache, s, calls, SW.DeleteThenAdd).decisions, k);
      && |ds| == |OnlyKey(calls, k)|
      && forall j :: 0 <= j < |ds| ==> ds[j] == if j < rate then Admit else Reject
  {
    var k := CacheKey(c.ip.value, c.className, c.methodName);
    KeysAreIndependent(cache, cache, s, calls, SW.DeleteThenAdd, k);
    KeyBurst(cache, s, c, OnlyKey(calls, k));
  }

  /** Keys built from addresses and class names without `_` identify their parts. */
  lemma CacheKeyInjective(ip1: string, class1: string, method1: string, ip2: string, class2: string, method2: string)
    requires '_' !in ip1 && '_' !in ip2 && '_' !in class1 && '_' !in class2
    requires CacheKey(ip1, class1, method1) == CacheKey(ip2, class2, method2)
    ensures ip1 == ip2 && class1 == class2 && method1 == method2
  {
    assert CacheKey(ip1, class1, method1) == ip1 + "_" + (class1 + "_" + method1);
    assert CacheKey(ip2, class2, method2) == ip2 + "_" + (class2 + "_" + method2);
    SplitAtSeparator(ip1, class1 + "_" + method1, ip2, class2 + "_" + method2);
    SplitAtSeparator(class1, method1, class2, method2);
  }

  /** The position of the first `_` in `s` (`|s|` if there is none). */
  function SeparatorIndex(s: string): nat
  {
    if s == [] || s[0] == '_' then 0 else 1 + SeparatorIndex(s[1..])
  }

  lemma {:induction false} SeparatorAfter(a: string, x: string)
    requires '_' !in a
    ensures SeparatorIndex(a + "_" + x) == |a|
  {
    if a != [] {
      assert (a + "_" + x)[1..] == a[1..] + "_" + x;
      SeparatorAfter(a[1..], x);
    }
  }

  /** Splitting at the first `_` recovers both sides. */
  lemma SplitAtSeparator(a: string, x: string, b: string, y: string)
    requires '_' !in a && '_' !in b && a + "_" + x == b + "_" + y
    ensures a == b && x == y
  {
    var l := a + "_" + x;
    SeparatorAfter(a, x);
    SeparatorAfter(b, y);
    assert a == l[..|a|] == b;
    assert x == l[|a| + 1..] == y;
  }

  /**
   * The aspect's state: the configured defaults and the cache of per-key
   * buffers, created once per key and never replaced.
   */
  class Limiter {
    const settingRate: int
    const settingTime: int
    var cache: map<string, CircularBuffers.CircularBuffer>
    /** The key under which each cached buffer and each of their arrays is stored. */
    ghost var Owner: map<object, string>

    /**
     * Every buffer is sound, and each buffer and its array belong to the one
     * key they are cached under, so distinct keys share neither.
     */
    ghost predicate Valid()
      reads this, Owner.Keys
    {
      && this !in Owner
      && forall k :: k in cache ==>
        && cache[k] in Owner && Owner[cache[k]] == k
        && cache[k].slots in Owner && Owner[cache[k].slots] == k
        && cache[k].Sound()
    }

    /** The fields of every cached buffer. */
    ghost function Snapshot(): map<string, Rings.Ring>
      requires Valid()
      reads this, Owner.Keys
    {
      map k | k in cache :: cache[k].State()
    }

    /** `@Value("${limiter.rate:0}")` and `@Value("${limiter.time:0}")`: a missing setting is 0. */
    constructor (configuredRate: Option<int>, configuredTime: Option<int>)
      ensures settingRate == (if configuredRate.Some? then configuredRate.value else 0)
      ensures settingTime == (if configuredTime.Some? then configuredTime.value else 0)
      ensures Valid() && cache == map[] && Owner == map[]
    {
      settingRate := if configuredRate.Some? then configuredRate.value else 0;
      settingTime := if configuredTime.Some? then configuredTime.value else 0;
      cache := map[];
      Owner := map[];
    }

    /** `limitMe` as written, for a client address already resolved. */
    method Decide(ip: Option<string>, className: string, methodName: string, annRate: int, annTime: int, now: int) returns (d: Decision)
      requires Valid()
      modifies this, Owner.Keys
      ensures Valid() && fresh(Owner.Keys - old(Owner.Keys))
      ensures Effect(d, Snapshot()) == DecideOn(old(Snapshot()), Settings(settingRate, settingTime), Call(ip, className, methodName, annRate, annTime, now), SW.DeleteThenAdd)
      ensures forall k :: k in old(cache) ==> k in cache && cache[k] == old(cache)[k]
    {
      d := Limit(Call(ip, className, methodName, annRate, annTime, now), SW.DeleteThenAdd);
    }

    /** The variant that replaces the oldest timestamp on every call of a full buffer before comparing. */
    method DecideReplacing(ip: Option<string>, className: string, methodName: string, annRate: int, annTime: int, now: int) returns (d: Decision)
      requires Valid()
      modifies this, Owner.Keys
      ensures Valid() && fresh(Owner.Keys - old(Owner.Keys))
      ensures Effect(d, Snapshot()) == DecideOn(old(Snapshot()), Settings(settingRate, settingTime), Call(ip, className, methodName, annRate, annTime, now), SW.ReplaceThenCompare)
      ensures forall k :: k in old(cache) ==> k in cache && cache[k] == old(cache)[k]
    {
      d := Limit(Call(ip, className, methodName, annRate, annTime, now), SW.ReplaceThenCompare);
    }

    /** `limitMe` with the client address resolution in front of it. */
    method LimitMe(request: Option<IpUtils.Request>, className: string, methodName: string, annRate: int, annTime: int, now: int) returns (d: Decision)
      requires Valid()
      modifies this, Owner.Keys
      ensures Valid() && fresh(Owner.Keys - old(Owner.Keys))
      ensures match IpUtils.ClientIpAddress(request)
        case Failure(_) => d == Fault(HeaderIndexOutOfBounds) && Snapshot() == old(Snapshot())
        case Success(ip) => Effect(d, Snapshot()) == DecideOn(old(Snapshot()), Settings(settingRate, settingTime), Call(ip, className, methodName, annRate, annTime, now), SW.DeleteThenAdd)
    {
      var ip := IpUtils.GetClientIpAddress(request);
      if ip.Failure? {
        return Fault(HeaderIndexOutOfBounds);
      }
      d := Limit(Call(ip.value, className, methodName, annRate, annTime, now), SW.DeleteThenAdd);
    }

    /** The body of `limitMe` under either rule. */
    method Limit(c: Call, rule: SW.Rule) returns (d: Decision)
      requires Valid()
      modifies this, Owner.Keys
      ensures Valid() && fresh(Owner.Keys - old(Owner.Keys))
      ensures Effect(d, Snapshot()) == DecideOn(old(Snapshot()), Settings(settingRate, settingTime), c, rule)
      ensures forall k :: k in old(cache) ==> k in cache && cache[k] == old(cache)[k]
    {
      if !HasText(c.ip) {
        return Bypass;
      }
      var rate := Resolve(c.annRate, settingRate);
      var time := Resolve(c.annTime, settingTime);
      if rate == 0 || time == 0 {
        return Bypass;
      }
      var key := CacheKey(c.ip.value, c.className, c.methodName);
      ghost var start := Snapshot();
      assert key in cache <==> key in start;
      if key !in cache && rate < 0 {
        return Fault(NegativeArraySize);
      }
      d := LimitKey(key, rate, time, c.now, rule);
      DecideOnEnabled(start, Settings(settingRate, settingTime), c, rule);
    }

    /** The admission rule on the buffer under `key`, created first if there is none. */
    method LimitKey(key: string, rate: int, time: int, now: int, rule: SW.Rule) returns (d: Decision)
      requires Valid() && (key in cache || rate > 0)
      modifies this, Owner.Keys
      ensures Valid() && fresh(Owner.Keys - old(Owner.Keys))
      ensures var start := old(Snapshot());
        var v := Admission(rule, if key in start then start[key] else Rings.New(rate), rate, time, now);
        Effect(d, Snapshot()) == Effect(v.decision, start[key := v.ring])
      ensures key in cache && cache == old(cache)[key := cache[key]]
      ensures key in old(cache) ==> cache == old(cache)
    {
      ghost var start := Snapshot();
      ghost var b := if key in start then start[key] else Rings.New(rate);
      if key !in cache {
        Create(key, rate);
      } else {
        UpdateSame(start, key);
      }
      d := ApplyAt(key, rule, rate, time, now);
      ghost var v := Admission(rule, b, rate, time, now);
      UpdateTwice(start, key, b, v.ring);
    }

    /** A new buffer of capacity `rate`, cached under `key`. */
    method Create(key: string, rate: int)
      requires Valid() && key !in cache && rate > 0
      modifies this
      ensures Valid() && fresh(Owner.Keys - old(Owner.Keys))
      ensures key in cache && cache == old(cache)[key := cache[key]] && fresh(cache[key])
      ensures Snapshot() == old(Snapshot())[key := Rings.New(rate)]
    {
      var buffer := new CircularBuffers.CircularBuffer(rate);
      Install(key, buffer);
    }

    /** Caches `buffer`, which belongs to no key yet, under the new key `key`. */
    method Install(key: string, buffer: CircularBuffers.CircularBuffer)
      requires Valid() && key !in cache && buffer.Sound()
      requires buffer !in Owner && buffer.slots !in Owner
      modifies this
      ensures Valid() && Owner.Keys == old(Owner.Keys) + {buffer, buffer.slots}
      ensures cache == old(cache)[key := buffer]
      ensures Snapshot() == old(Snapshot())[key := buffer.State()]
    {
      ghost var before, previous := Snapshot(), cache;
      cache := cache[key := buffer];
      Owner := Owner[buffer := key][buffer.slots := key];
      SnapshotExtended(this, key, buffer, previous, before);
    }

    /** The admission rule on the buffer cached under `key`; no other buffer changes. */
    method ApplyAt(key: string, rule: SW.Rule, rate: int, time: int, now: int) returns (d: Decision)
      requires Valid() && key in cache
      modifies cache[key], cache[key].slots
      ensures Valid()
      ensures var v := Admission(rule, old(Snapshot())[key], rate, time, now);
        Effect(d, Snapshot()) == Effect(v.decision, old(Snapshot())[key := v.ring])
    {
      ghost var before := Snapshot();
      var buffer := cache[key];
      d := ApplyRule(buffer, rule, rate, time, now);
      forall k | k in cache && k != key
        ensures cache[k].State() == before[k] && cache[k].Sound()
      {
        assert cache[k] != buffer && cache[k].slots != buffer.slots;
      }
      SnapshotReplaced(this, key, before);
    }
  }

  /** Caching a new buffer under a new key adds its fields and changes no other entry. */
  lemma SnapshotExtended(l: Limiter, key: string, buffer: CircularBuffers.CircularBuffer,
                         previous: map<string, CircularBuffers.CircularBuffer>, before: map<string, Rings.Ring>)
    requires l.Valid() && key !in previous && l.cache == previous[key := buffer]
    requires before.Keys == previous.Keys && forall k :: k in previous ==> before[k] == previous[k].State()
    ensures l.Snapshot() == before[key := buffer.State()]
  {
  }

  /** When only the buffer under `key` changed, only that entry of the snapshot changes. */
  lemma SnapshotReplaced(l: Limiter, key: string, before: map<string, Rings.Ring>)
    requires l.Valid() && key in l.cache && before.Keys == l.cache.Keys
    requires forall k :: k in l.cache && k != key ==> before[k] == l.cache[k].State()
    ensures l.Snapshot() == before[key := l.cache[key].State()]
  {
  }

  /** The admission rule performed on a buffer object through its methods. */
  method ApplyRule(buffer: CircularBuffers.CircularBuffer, rule: SW.Rule, rate: int, time: int, now: int) returns (d: Decision)
    requires buffer.Sound()
    modifies buffer, buffer.slots
    ensures buffer.Sound()
    ensures Verdict(d, buffer.State()) == Admission(rule, old(buffer.State()), rate, time, now)
  {
    var empty := buffer.IsEmpty();
    var size := buffer.Size();
    if empty || size < rate {
      var o := buffer.Add(now);
      return FromOutcome(o);
    }
    var first := buffer.Peek();
    assert first.Success?;
    match rule
    case DeleteThenAdd =>
      if now - first.value > WindowMillis(time) {
        var o := buffer.Delete();
        if o.Failed? {
          return FromOutcome(o);
        }
        o := buffer.Add(now);
        return FromOutcome(o);
      }
      return Reject;
    case ReplaceThenCompare =>
      var o := buffer.ReplaceFirst(now);
      if o.Failed? {
        return FromOutcome(o);
      }
      return if now - first.value > WindowMillis(time) then Admit else Reject;
  }
}
