/**
 The countdown controller of script.js (lines 1-22).

 `startCountdown` keeps a counter `time` (900 seconds) and a display that may
 be missing, and registers a callback that the host calls once a second. The
 class below holds that closed-over state: `time`, `hasDisplay` for the
 looked-up element, `stopped` for "the interval has been cleared", and
 `rendered`, the successive texts written to the element. One call of `Tick`
 is one run of the callback; `Run` stands for the host calling it until the
 interval is cleared.
 */
module Countdown {
  import opened ClockText

  /** script.js line 2: the counter starts at 15 minutes. */
  const Initial: nat := 900

  /** The texts the first `n` live callbacks write: `Format(900)`, `Format(899)`, ... */
  function RenderLog(n: nat): seq<string>
    requires n <= Initial + 1
  {
    seq(n, k requires 0 <= k < n => Format(Initial - k))
  }

  /** The texts a whole run writes, from page load until the interval is cleared. */
  function FullRun(): seq<string> {
    RenderLog(Initial + 1)
  }

  /** One more live callback appends the text of the value it saw. */
  lemma RenderLogSnoc(n: nat, t: nat, shown: seq<string>, text: string)
    requires n <= Initial && t == Initial - n
    requires shown == RenderLog(n) && text == Format(t)
    ensures shown + [text] == RenderLog(n + 1)
  {
    var longer := RenderLog(n + 1);
    forall k | 0 <= k < n
      ensures longer[k] == shown[k]
    {
    }
    assert longer == shown + [text];
  }

  /** The `k`-th text of a whole run is in `DD:DD` shape and reads back as `900 - k`. */
  lemma FullRunAt(k: nat)
    requires k <= Initial
    ensures IsClockText(FullRun()[k])
    ensures Parse(FullRun()[k]) == Some(Reading((Initial - k) / 60, (Initial - k) % 60))
    ensures Parse(FullRun()[k]).value.Total() == Initial - k
  {
    assert FullRun()[k] == Format(Initial - k);
    FormatShape(Initial - k);
    FormatRoundTrip(Initial - k);
  }

  /**
   A whole run shows 901 texts: `15:00` first, `00:00` last, each one in
   `MM:SS` shape, each one reading back as one second less than the one
   before it.
   */
  lemma FullRunRenders()
    ensures |FullRun()| == Initial + 1
    ensures FullRun()[0] == "15:00"
    ensures FullRun()[Initial] == "00:00"
    ensures forall k :: 0 <= k <= Initial ==> IsClockText(FullRun()[k])
    ensures forall k :: 0 <= k <= Initial ==>
              Parse(FullRun()[k]) == Some(Reading((Initial - k) / 60, (Initial - k) % 60))
    ensures forall k :: 0 <= k < Initial ==>
              Parse(FullRun()[k + 1]).value.Total() ==
              Parse(FullRun()[k]).value.Total() - 1
  {
    assert |FullRun()| == Initial + 1 && FullRun()[0] == "15:00" && FullRun()[Initial] == "00:00" by {
      assert FullRun()[0] == Format(900);
      assert DecimalString(15) == "15" by {
        assert DecimalString(1) == "1";
      }
      assert FullRun()[Initial] == Format(0);
    }
    forall k | 0 <= k <= Initial
      ensures IsClockText(FullRun()[k])
      ensures Parse(FullRun()[k]) == Some(Reading((Initial - k) / 60, (Initial - k) % 60))
    {
      FullRunAt(k);
    }
    forall k | 0 <= k < Initial
      ensures Parse(FullRun()[k + 1]).value.Total() == Parse(FullRun()[k]).value.Total() - 1
    {
      FullRunAt(k);
      FullRunAt(k + 1);
    }
  }

  /** The texts shown after 1, 60 and 899 ticks: `14:59`, `14:00` and `00:01`. */
  lemma RenderMilestones()
    ensures FullRun()[1] == "14:59"
    ensures FullRun()[60] == "14:00"
    ensures FullRun()[899] == "00:01"
  {
    assert DecimalString(14) == "14" by {
      assert DecimalString(1) == "1";
    }
    assert DecimalString(59) == "59" by {
      assert DecimalString(5) == "5";
    }
  }

  class Countdown {
    /** The closed-over counter of script.js line 2. */
    var time: int
    /** Whether `getElementById('timer')` found an element (script.js line 3). */
    const hasDisplay: bool
    /** Whether `clearInterval` has run (script.js line 17). */
    var stopped: bool
    /** The texts written to `display.textContent`, oldest first. */
    var rendered: seq<string>
    /** How many callbacks ran while the interval was live. */
    ghost var ticks: nat

    /**
     The reachable states: while running, `time` is 900 minus the callbacks
     so far; once stopped, all 901 callbacks have run and `time` is 0; the
     display holds one text per live callback, or nothing without a display.
     */
    ghost predicate Valid()
      reads this
    {
      && 0 <= time <= Initial
      && (!stopped ==> ticks <= Initial && time == Initial - ticks)
      && (stopped ==> ticks == Initial + 1 && time == 0)
      && rendered == (if hasDisplay then RenderLog(ticks) else [])
    }

    /** Callbacks still to come before the interval is cleared. */
    ghost function Remaining(): nat
      reads this
    {
      if stopped || time < 0 then 0 else time + 1
    }

    /** `startCountdown()`, run once when the page has loaded (script.js lines 2-5, 24). */
    constructor (hasDisplay: bool)
      ensures Valid()
      ensures time == Initial && !stopped && rendered == [] && ticks == 0
      ensures this.hasDisplay == hasDisplay
    {
      this.hasDisplay := hasDisplay;
      time := Initial;
      stopped := false;
      rendered := [];
      ticks := 0;
    }

    /**
     One run of the interval callback (script.js lines 6-20): show the
     current value, then either clear the interval (time at or below 0) or
     count down by one. After the interval is cleared nothing changes.
     */
    method Tick()
      requires Valid()
      modifies this
      ensures Valid()
      ensures old(stopped) ==> unchanged(this)
      ensures !old(stopped) && old(time) > 0 ==> !stopped && time == old(time) - 1
      ensures !old(stopped) && old(time) <= 0 ==> stopped && time == old(time)
      ensures !old(stopped) ==>
                rendered == old(rendered) + (if hasDisplay then [Format(old(time))] else [])
      ensures !old(stopped) ==> ticks == old(ticks) + 1
      ensures Remaining() == if old(stopped) then 0 else old(Remaining()) - 1
    {
      if stopped {
        return;
      }
      // time is never negative here, so floor division and JavaScript's
      // truncating % agree with Dafny's Euclidean / and %.
      var minutes := Pad2(time / 60);
      var seconds := Pad2(time % 60);
      if hasDisplay {
        RenderLogSnoc(ticks, time, rendered, minutes + ":" + seconds);
        rendered := rendered + [minutes + ":" + seconds];
      }
      if time <= 0 {
        stopped := true;
      } else {
        time := time - 1;
      }
      ticks := ticks + 1;
    }

    /**
     The host calling the callback every second until it clears the
     interval (script.js lines 5 and 21). Returns the number of calls, which
     from a fresh countdown is 901, with or without a display.
     */
    method Run() returns (calls: nat)
      requires Valid()
      modifies this
      ensures Valid() && stopped && time == 0 && ticks == Initial + 1
      ensures calls == old(Remaining())
      ensures rendered == (if hasDisplay then FullRun() else [])
    {
      calls := 0;
      while !stopped
        invariant Valid()
        invariant calls + Remaining() == old(Remaining())
        decreases Remaining()
      {
        Tick();
        calls := calls + 1;
      }
    }
  }

  /** From page load, 901 callbacks run before the interval is cleared; the display shows 15:00 down to 00:00. */
  method StartAndRun(hasDisplay: bool) returns (calls: nat, shown: seq<string>)
    ensures calls == Initial + 1
    ensures shown == (if hasDisplay then FullRun() else [])
    ensures hasDisplay ==> |shown| == Initial + 1 && shown[0] == "15:00" && shown[Initial] == "00:00"
    ensures !hasDisplay ==> shown == []
  {
    var c := new Countdown(hasDisplay);
    calls := c.Run();
    shown := c.rendered;
    FullRunRenders();
  }
}
