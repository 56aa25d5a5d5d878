/**
 * The admission rule of the rate-limiting aspect, stated on the list of
 * timestamps a key's buffer holds (oldest first), and its consequences over a
 * sequence of calls for one key with one policy.
 */
module SlidingWindow {

  /**
   * `DeleteThenAdd` is the aspect as written: compare with the oldest
   * timestamp, and only on admission drop it and append the call's time.
   * `ReplaceThenCompare` replaces the oldest timestamp by the call's time on
   * every call of a full buffer, then compares with the timestamp it dropped.
   */
  datatype Rule = DeleteThenAdd | ReplaceThenCompare

  /** Whether a call is admitted, and the timestamps kept afterwards. */
  datatype Verdict = Verdict(admitted: bool, log: seq<int>)

  /** One call at time `now` against a log of at most `rate` timestamps. */
  function Step(rule: Rule, log: seq<int>, rate: int, window: int, now: int): Verdict
    requires rate > 0
  {
    if |log| < rate then Verdict(true, log + [now])
    else match rule
      case DeleteThenAdd =>
        if now - log[0] > window then Verdict(true, log[1..] + [now]) else Verdict(false, log)
      case ReplaceThenCompare =>
        Verdict(now - log[0] > window, log[1..] + [now])
  }

  /**
   * The calls so far: one decision per call, the times of the admitted calls,
   * and the log left behind.
   */
  datatype History = History(decisions: seq<bool>, admitted: seq<int>, log: seq<int>)

  /** Calls at `times`, one after another, starting from an empty log. */
  function Replay(rule: Rule, times: seq<int>, rate: int, window: int): (h: History)
    requires rate > 0
    ensures |h.decisions| == |times|
    decreases |times|
  {
    if times == [] then History([], [], [])
    else
      var prev := Replay(rule, times[..|times| - 1], rate, window);
      var now := times[|times| - 1];
      var v := Step(rule, prev.log, rate, window, now);
      History(prev.decisions + [v.admitted], if v.admitted then prev.admitted + [now] else prev.admitted, v.log)
  }

  /** The last `n` elements of `s` (all of them if there are fewer). */
  function Last(s: seq<int>, n: nat): (r: seq<int>)
    ensures |r| == if |s| <= n then |s| else n
  {
    if |s| <= n then s else s[|s| - n..]
  }

  predicate Nondecreasing(s: seq<int>)
  {
    forall i, j :: 0 <= i <= j < |s| ==> s[i] <= s[j]
  }

  /** Appending to a sequence shifts its last `n` elements by one. */
  lemma LastAppend(s: seq<int>, x: int, n: nat)
    requires n > 0
    ensures Last(s + [x], n) == if |s| < n then s + [x] else Last(s, n)[1..] + [x]
  {
    if |s| >= n {
      assert (s + [x])[|s| + 1 - n..] == s[|s| - n..][1..] + [x];
    }
  }

  /** As written, the buffer holds the times of the last `rate` admitted calls. */
  lemma {:induction false} LogHoldsLastAdmitted(times: seq<int>, rate: int, window: int)
    requires rate > 0
    ensures var h := Replay(DeleteThenAdd, times, rate, window); h.log == Last(h.admitted, rate)
  {
    if times != [] {
      var init := times[..|times| - 1];
      LogHoldsLastAdmitted(init, rate, window);
      var prev := Replay(DeleteThenAdd, init, rate, window);
      LastAppend(prev.admitted, times[|times| - 1], rate);
    }
  }

  /** With replacement, the buffer holds the times of the last `rate` calls, admitted or not. */
  lemma {:induction false} LogHoldsLastAttempts(times: seq<int>, rate: int, window: int)
    requires rate > 0
    ensures Replay(ReplaceThenCompare, times, rate, window).log == Last(times, rate)
  {
    if times != [] {
      var init := times[..|times| - 1];
      LogHoldsLastAttempts(init, rate, window);
      assert times == init + [times[|times| - 1]];
      LastAppend(init, times[|times| - 1], rate);
    }
  }

  /**
   * As written, an admitted call is more than `window` after the admitted call
   * `rate` places before it.
   */
  lemma {:induction false} AdmittedSpacing(times: seq<int>, rate: int, window: int)
    requires rate > 0
    ensures var a := Replay(DeleteThenAdd, times, rate, window).admitted;
      forall j :: rate <= j < |a| ==> a[j] - a[j - rate] > window
  {
    if times != [] {
      var init := times[..|times| - 1];
      AdmittedSpacing(init, rate, window);
      LogHoldsLastAdmitted(init, rate, window);
    }
  }

  /**
   * With replacement, call `j` is admitted exactly when fewer than `rate` calls
   * came before it or it is more than `window` after call `j - rate`.
   */
  lemma {:induction false} ReplaceDecisions(times: seq<int>, rate: int, window: int, j: int)
    requires rate > 0 && 0 <= j < |times|
    ensures Replay(ReplaceThenCompare, times, rate, window).decisions[j]
        <==> j < rate || times[j] - times[j - rate] > window
  {
    var init := times[..|times| - 1];
    var prev := Replay(ReplaceThenCompare, init, rate, window);
    if j < |init| {
      ReplaceDecisions(init, rate, window, j);
      assert times[j] == init[j];
      assert j >= rate ==> times[j - rate] == init[j - rate];
    } else {
      LogHoldsLastAttempts(init, rate, window);
      if j >= rate {
        assert prev.log[0] == init[j - rate] == times[j - rate];
      }
    }
  }

  /** Admitted calls keep their order, and none is later than the last call. */
  lemma {:induction false} AdmittedInOrder(rule: Rule, times: seq<int>, rate: int, window: int)
    requires rate > 0 && Nondecreasing(times)
    ensures var a := Replay(rule, times, rate, window).admitted;
      Nondecreasing(a) && (forall k :: 0 <= k < |a| ==> a[k] <= times[|times| - 1])
  {
    if times != [] {
      var init := times[..|times| - 1];
      AdmittedInOrder(rule, init, rate, window);
      if init != [] {
        assert init[|init| - 1] <= times[|times| - 1];
      }
    }
  }

  /**
   * As written, for calls made in time order: among any `rate + 1` admitted
   * calls the first and the last are more than `window` apart, so no span of
   * length `window` holds more than `rate` admitted calls.
   */
  lemma AdmissionBound(times: seq<int>, rate: int, window: int)
    requires rate > 0 && Nondecreasing(times)
    ensures var a := Replay(DeleteThenAdd, times, rate, window).admitted;
      forall i, j :: 0 <= i && i + rate <= j < |a| ==> a[j] - a[i] > window
  {
    AdmittedSpacing(times, rate, window);
    AdmittedInOrder(DeleteThenAdd, times, rate, window);
    var a := Replay(DeleteThenAdd, times, rate, window).admitted;
    forall i, j | 0 <= i && i + rate <= j < |a|
      ensures a[j] - a[i] > window
    {
      assert a[i] <= a[j - rate];
    }
  }

  /**
   * As written, when every call comes at most `window` after the first, the
   * first `rate` calls are admitted and every later one is rejected.
   */
  lemma {:induction false} BurstDecisions(times: seq<int>, rate: int, window: int)
    requires rate > 0
    requires forall j :: 0 <= j < |times| ==> times[j] - times[0] <= window
    ensures var h := Replay(DeleteThenAdd, times, rate, window);
      && (forall j :: 0 <= j < |times| ==> h.decisions[j] == (j < rate))
      && h.admitted == times[..if |times| < rate then |times| else rate]
    decreases |times|
  {
    if times != [] {
      var n := |times|;
      var init, now := times[..n - 1], times[n - 1];
      forall j | 0 <= j < |init|
        ensures init[j] - init[0] <= window
      {
        assert init[j] == times[j] && init[0] == times[0];
      }
      BurstDecisions(init, rate, window);
      LogHoldsLastAdmitted(init, rate, window);
      var prev := Replay(DeleteThenAdd, init, rate, window);
      var k := if n - 1 < rate then n - 1 else rate;
      assert prev.admitted == init[..k];
      assert prev.log == prev.admitted;
      var v := Step(DeleteThenAdd, prev.log, rate, window, now);
      var h := Replay(DeleteThenAdd, times, rate, window);
      assert h == History(prev.decisions + [v.admitted], if v.admitted then prev.admitted + [now] else prev.admitted, v.log);
      if n - 1 < rate {
        assert v.admitted;
        assert init[..k] + [now] == times[..n];
      } else {
        assert prev.log[0] == times[0];
        assert !v.admitted;
        assert init[..k] == times[..rate];
      }
      AgreeAfter(prev.decisions, v.admitted, rate);
    }
  }

  /** Decisions admitting exactly the first `rate` still do so after one more decision of the same kind. */
  lemma AgreeAfter(ds: seq<bool>, d: bool, rate: int)
    requires forall j :: 0 <= j < |ds| ==> ds[j] == (j < rate)
    requires d == (|ds| < rate)
    ensures forall j :: 0 <= j < |ds| + 1 ==> (ds + [d])[j] == (j < rate)
  {
  }

  /** Ten calls within a minute with rate 5: five admitted, then five rejected. */
  lemma TenQuickCalls(times: seq<int>)
    requires |times| == 10 && forall j :: 0 <= j < 10 ==> times[j] - times[0] <= 60000
    ensures Replay(DeleteThenAdd, times, 5, 60000).decisions == [true, true, true, true, true, false, false, false, false, false]
  {
    BurstDecisions(times, 5, 60000);
  }

  /** One more call extends the history by that call's verdict. */
  lemma ReplayAppend(rule: Rule, p: seq<int>, t: int, rate: int, window: int)
    requires rate > 0
    ensures var prev := Replay(rule, p, rate, window);
      var v := Step(rule, prev.log, rate, window, t);
      Replay(rule, p + [t], rate, window)
        == History(prev.decisions + [v.admitted], if v.admitted then prev.admitted + [t] else prev.admitted, v.log)
  {
    assert (p + [t])[..|p|] == p;
  }

  /**
   * The first five calls of the timing test, 5 s apart, fill the buffer:
   * all are admitted under either rule and the log holds all five.
   */
  lemma TimingTestFills(rule: Rule, times: seq<int>)
    requires times == [0, 5000, 10000, 15000, 20000]
    ensures Replay(rule, times, 5, 60000) == History([true, true, true, true, true], times, times)
  {
    var p0: seq<int> := [];
    ReplayAppend(rule, p0, 0, 5, 60000);
    var p1 := p0 + [0];
    ReplayAppend(rule, p1, 5000, 5, 60000);
    var p2 := p1 + [5000];
    ReplayAppend(rule, p2, 10000, 5, 60000);
    var p3 := p2 + [10000];
    ReplayAppend(rule, p3, 15000, 5, 60000);
    var p4 := p3 + [15000];
    ReplayAppend(rule, p4, 20000, 5, 60000);
    assert p4 + [20000] == times;
  }

  /** The timing test's call times, as the fill phase followed by three more calls. */
  lemma TimingTimes(times: seq<int>)
    requires times == [0, 5000, 10000, 15000, 20000, 25000, 66000, 66000]
    ensures times == [0, 5000, 10000, 15000, 20000] + [25000] + [66000] + [66000]
  {
  }

  /**
   * The single-client timing test with ideal clocks, rate 5 and a one-minute
   * window: five calls 5 s apart, a sixth 5 s later, then two calls at 66 s
   * (just over a minute after the second call).  As written, the second call
   * at 66 s is admitted, since 66000 - 5000 > 60000.
   */
  lemma TimingTestAsWritten(times: seq<int>)
    requires times == [0, 5000, 10000, 15000, 20000, 25000, 66000, 66000]
    ensures Replay(DeleteThenAdd, times, 5, 60000).decisions == [true, true, true, true, true, false, true, true]
  {
    TimingTimes(times);
    var p5: seq<int> := [0, 5000, 10000, 15000, 20000];
    TimingTestFills(DeleteThenAdd, p5);
    ReplayAppend(DeleteThenAdd, p5, 25000, 5, 60000);
    var p6 := p5 + [25000];
    ReplayAppend(DeleteThenAdd, p6, 66000, 5, 60000);
    var p7 := p6 + [66000];
    ReplayAppend(DeleteThenAdd, p7, 66000, 5, 60000);
  }

  /** The same calls with replacement: the second call at 66 s is rejected, as the test expects. */
  lemma TimingTestReplacing(times: seq<int>)
    requires times == [0, 5000, 10000, 15000, 20000, 25000, 66000, 66000]
    ensures Replay(ReplaceThenCompare, times, 5, 60000).decisions == [true, true, true, true, true, false, true, false]
  {
    TimingTimes(times);
    var p5: seq<int> := [0, 5000, 10000, 15000, 20000];
    TimingTestFills(ReplaceThenCompare, p5);
    ReplayAppend(ReplaceThenCompare, p5, 25000, 5, 60000);
    var p6 := p5 + [25000];
    assert Replay(ReplaceThenCompare, p6, 5, 60000).log == [5000, 10000, 15000, 20000, 25000];
    ReplayAppend(ReplaceThenCompare, p6, 66000, 5, 60000);
    var p7 := p6 + [66000];
    ReplayAppend(ReplaceThenCompare, p7, 66000, 5, 60000);
  }
}
