/** The touch, vsync and app-launch boost policy of the Intel power HAL
    (power.cpp:52-80, 162-182, 224-303): a small state machine fed by
    power hints that decides when to pulse the interactive governor's
    touch boost. */
module PowerHint {
  import opened Types

  /** Two touches closer than this many milliseconds are a scroll. */
  const ShortTouchTime: real := 20.0
  /** Two touches further apart than this start a fresh interaction. */
  const LongTouchTime: real := 100.0
  /** The number of vsync-driven pulses after the finger is lifted. */
  const VsyncBoostCount: int := 4
  /** A vsync this long after the last touch starts the vsync boost. */
  const VsyncTouchTime: real := 30.0

  /** The sysfs nodes the HAL writes. */
  datatype Node = TouchboostPulse | InteractiveBoost | MinPerfPct

  /** One `sysfs_write`; the result of the write is ignored by every
      caller. */
  datatype Write = Write(node: Node, value: string)

  /** What `power_init` probed and what the build selected: whether the
      interactive governor and `intel_pstate` answered, whether
      `APP_LAUNCH_BOOST` is compiled in, and the boosted `min_perf_pct`
      text computed at start-up. */
  datatype Hal = Hal(interactiveActive: bool, intelPStateActive: bool, appLaunchBoost: bool, newMinPerfPct: string)

  /** The boost flags of `struct intel_power_module` and the static
      counters of `power_hint`, with the integer values the source keeps. */
  datatype Boost = Boost(touchboostDisable: int, timerSet: int, vsyncBoost: int, vsyncCount: int, touches: int)

  /** `sizeof(old_min_perf_pct)`: the static buffer the saved text lives in. */
  const SavedBytes: nat := 4

  /** The contents of that buffer, four bytes, zero at start-up. */
  type Saved = s: string | |s| == SavedBytes witness "\0\0\0\0"

  /** The state of `app_launch_boost_intel_pstate`: whether the boost is
      applied and the buffer the `min_perf_pct` text was read into. */
  datatype LaunchState = LaunchState(boosted: bool, saved: Saved)

  /** All the state the hints act on; `lastTouch` is the monotonic time,
      in milliseconds, of the latest interaction hint. */
  datatype State = State(boost: Boost, lastTouch: real, launch: LaunchState)

  /** A power hint with the inputs its handler takes from outside: the
      monotonic clock for interaction and vsync, the hint's `data` pointer
      (non-null or null), and for a launch the text of the `min_perf_pct`
      node (`None` when it cannot be opened or read). */
  datatype Hint =
    | Interaction(now: real)
    | Vsync(now: real, data: bool)
    | LowPower
    | Launch(on: bool, minPerfPct: Option<string>)
    | Other

  /** The state at start-up: all flags and counters zero, both clocks at
      zero, no launch boost applied. */
  const Initial := State(Boost(0, 0, 0, 0, 0), 0.0, LaunchState(false, "\0\0\0\0"))

  predicate Flag(x: int) {
    x == 0 || x == 1
  }

  /** What the handlers keep true: the flags are 0 or 1, the vsync budget
      stays within `VsyncBoostCount` and is positive while the vsync boost
      is on, the scroll timer is only set while touch boost is disabled,
      and the touch counter is not negative. */
  predicate Inv(b: Boost) {
    && Flag(b.touchboostDisable) && Flag(b.timerSet) && Flag(b.vsyncBoost)
    && 0 <= b.vsyncCount <= VsyncBoostCount
    && (b.vsyncBoost == 1 ==> b.vsyncCount >= 1)
    && (b.timerSet == 1 ==> b.touchboostDisable == 1)
    && b.touches >= 0
  }

  /** The touch pulse the HAL emits. */
  const Pulse := Write(TouchboostPulse, "1")

  /** The interaction handler (power.cpp:234-266) after the clock read:
      `diff` is the time since the previous interaction. */
  function Touch(b: Boost, diff: real): (res: (Boost, seq<Write>))
    ensures Inv(b) ==> Inv(res.0)
    ensures diff < ShortTouchTime ==> res.0.touches == b.touches + 1
    ensures diff > LongTouchTime ==> res.0.vsyncBoost == 0 && res.0.vsyncCount == 0 && res.0.touches == 0
    ensures ShortTouchTime <= diff <= LongTouchTime ==>
              res.0.touches == b.touches && res.0.vsyncBoost == b.vsyncBoost && res.0.vsyncCount == b.vsyncCount
    ensures diff < ShortTouchTime ==> res.0.vsyncBoost == b.vsyncBoost && res.0.vsyncCount == b.vsyncCount
    ensures res.0.touchboostDisable == 1 <==>
              (b.touchboostDisable == 1 && diff <= LongTouchTime)
              || (diff < ShortTouchTime && b.touchboostDisable == 0 && b.touches + 1 > 4)
    ensures res.0.touchboostDisable != b.touchboostDisable && diff <= LongTouchTime ==> res.0.touchboostDisable == 1
    ensures Inv(b) ==> (res.0.timerSet == 1 <==>
              (b.timerSet == 1 && diff <= LongTouchTime)
              || (res.0.touchboostDisable == 1 && res.0.touches > 15))
    ensures res.1 == (if res.0.touchboostDisable == 0 then [Pulse] else [])
  {
    var b1 :=
      if diff < ShortTouchTime then b.(touches := b.touches + 1)
      else if diff > LongTouchTime then Boost(0, 0, 0, 0, 0)
      else b;
    var b2 :=
      if diff < ShortTouchTime && b1.touchboostDisable == 0 && b1.touches > 4 then b1.(touchboostDisable := 1)
      else b1;
    var b3 :=
      if b2.touchboostDisable == 1 && b2.touches > 15 && b2.timerSet == 0 then b2.(timerSet := 1)
      else b2;
    (b3, if b3.touchboostDisable == 0 then [Pulse] else [])
  }

  /** The vsync handler (power.cpp:267-289): `sinceTouch` is the time since
      the latest interaction and `data` whether the hint's pointer is
      non-null. */
  function VsyncTick(b: Boost, sinceTouch: real, data: bool): (res: (Boost, seq<Write>))
    ensures Inv(b) ==> Inv(res.0)
    ensures res.0.touches == b.touches
    ensures b.touchboostDisable == 1 && sinceTouch > VsyncTouchTime ==>
              res.0.timerSet == 0 && res.0.touchboostDisable == 0
              && res.0.vsyncCount == (if data then VsyncBoostCount - 1 else VsyncBoostCount)
              && res.0.vsyncBoost == 1
    ensures !(b.touchboostDisable == 1 && sinceTouch > VsyncTouchTime) ==>
              res.0.timerSet == b.timerSet && res.0.touchboostDisable == b.touchboostDisable
    ensures var switched := b.touchboostDisable == 1 && sinceTouch > VsyncTouchTime;
            var boosting := switched || b.vsyncBoost != 0;
            var count := if switched then VsyncBoostCount else b.vsyncCount;
            && (res.1 == [Pulse] <==> boosting && data && count > 0)
            && (res.1 != [Pulse] ==> res.1 == [])
            && (res.1 == [Pulse] ==> res.0.vsyncCount == count - 1 && (res.0.vsyncBoost == 0 <==> count == 1))
            && (res.1 == [] ==> res.0.vsyncCount == count)
  {
    var b1 :=
      if b.touchboostDisable == 1 && sinceTouch > VsyncTouchTime then
        b.(timerSet := 0, vsyncBoost := 1, touchboostDisable := 0, vsyncCount := VsyncBoostCount)
      else b;
    if b1.vsyncBoost != 0 && data && b1.vsyncCount > 0 then
      var count := b1.vsyncCount - 1;
      (b1.(vsyncCount := count, vsyncBoost := if count == 0 then 0 else b1.vsyncBoost), [Pulse])
    else (b1, [])
  }

  /** `sysfs_read` into the saved buffer (power.cpp:112-133, 170):
      `read` copies at most four bytes of the node over the front of the
      buffer and adds no terminator, so the bytes behind them stay. */
  function ReadInto(buf: Saved, text: string): (b: Saved)
    ensures |text| >= SavedBytes ==> b == text[..SavedBytes]
    ensures |text| < SavedBytes ==> b[..|text|] == text && b[|text|..] == buf[|text|..]
  {
    if |text| >= SavedBytes then text[..SavedBytes] else text + buf[|text|..]
  }

  /** The text `sysfs_write` sends from a buffer (power.cpp:100): the bytes
      before the first NUL, or all of them when there is none. */
  function CString(buf: string): (s: string)
    ensures |s| <= |buf| && s == buf[..|s|]
    ensures forall i :: 0 <= i < |s| ==> s[i] != '\0'
    ensures |s| < |buf| ==> buf[|s|] == '\0'
  {
    if buf == [] || buf[0] == '\0' then [] else [buf[0]] + CString(buf[1..])
  }

  /** `app_launch_boost_intel_pstate` (power.cpp:162-182): switching on
      reads the current `min_perf_pct` into the saved buffer and writes the
      boosted value, only when not boosted already and the read succeeds;
      switching off writes the buffer's text back, only when boosted. */
  function LaunchPState(hal: Hal, l: LaunchState, on: bool, read: Option<string>): (res: (LaunchState, seq<Write>))
    ensures on ==> res.0.boosted == (l.boosted || read.Some?)
    ensures !on ==> !res.0.boosted
    ensures on && !l.boosted && read.Some? ==>
              && res.1 == [Write(MinPerfPct, hal.newMinPerfPct)]
              && (|read.value| >= SavedBytes ==> res.0.saved == read.value[..SavedBytes])
              && (|read.value| < SavedBytes ==>
                    res.0.saved[..|read.value|] == read.value && res.0.saved[|read.value|..] == l.saved[|read.value|..])
    ensures !on && l.boosted ==> res == (l.(boosted := false), [Write(MinPerfPct, CString(l.saved))])
    ensures on == l.boosted || (on && read.None?) ==> res == (l, [])
  {
    if on then
      if !l.boosted then
        match read
        case Some(v) => (LaunchState(true, ReadInto(l.saved, v)), [Write(MinPerfPct, hal.newMinPerfPct)])
        case None => (l, [])
      else (l, [])
    else if l.boosted then (l.(boosted := false), [Write(MinPerfPct, CString(l.saved))])
    else (l, [])
  }

  /** `power_hint` (power.cpp:224-303). */
  function PowerHint(hal: Hal, s: State, hint: Hint): (res: (State, seq<Write>))
    ensures Inv(s.boost) ==> Inv(res.0.boost)
    ensures (hint.Interaction? || hint.Vsync?) && !hal.interactiveActive ==> res == (s, [])
    ensures hint.LowPower? || hint.Other? ==> res == (s, [])
    ensures hint.Launch? && !hal.appLaunchBoost ==> res == (s, [])
    ensures !hint.Launch? ==> res.0.launch == s.launch
    ensures hint.Launch? ==> res.0.boost == s.boost && res.0.lastTouch == s.lastTouch
    ensures !hint.Interaction? ==> res.0.lastTouch == s.lastTouch
    ensures forall i :: 0 <= i < |res.1| ==> res.1[i].node == TouchboostPulse ==> res.1[i] == Pulse
    ensures hint.Interaction? && hal.interactiveActive ==>
              var t := Touch(s.boost, hint.now - s.lastTouch);
              res == (s.(boost := t.0, lastTouch := hint.now), t.1)
    ensures hint.Vsync? && hal.interactiveActive ==>
              var v := VsyncTick(s.boost, hint.now - s.lastTouch, hint.data);
              res == (s.(boost := v.0), v.1)
    ensures hint.Launch? && hal.appLaunchBoost && hal.interactiveActive ==>
              res == (s, [Write(InteractiveBoost, if hint.on then "1" else "0")])
    ensures hint.Launch? && hal.appLaunchBoost && !hal.interactiveActive && hal.intelPStateActive ==>
              var l := LaunchPState(hal, s.launch, hint.on, hint.minPerfPct);
              res == (s.(launch := l.0), l.1)
    ensures hint.Launch? && hal.appLaunchBoost && !hal.interactiveActive && !hal.intelPStateActive ==> res == (s, [])
  {
    match hint
    case Interaction(now) =>
      if !hal.interactiveActive then (s, [])
      else
        var t := Touch(s.boost, now - s.lastTouch);
        (s.(boost := t.0, lastTouch := now), t.1)
    case Vsync(now, data) =>
      if !hal.interactiveActive then (s, [])
      else
        var v := VsyncTick(s.boost, now - s.lastTouch, data);
        (s.(boost := v.0), v.1)
    case LowPower => (s, [])
    case Launch(on, read) =>
      if !hal.appLaunchBoost then (s, [])
      else if hal.interactiveActive then (s, [Write(InteractiveBoost, if on then "1" else "0")])
      else if hal.intelPStateActive then
        var l := LaunchPState(hal, s.launch, on, read);
        (s.(launch := l.0), l.1)
      else (s, [])
    case Other => (s, [])
  }

  /** The state after a run of hints, and everything written on the way. */
  function Run(hal: Hal, s: State, hints: seq<Hint>): (res: (State, seq<Write>))
    decreases |hints|
  {
    if hints == [] then (s, [])
    else
      var first := PowerHint(hal, s, hints[0]);
      var rest := Run(hal, first.0, hints[1..]);
      (rest.0, first.1 + rest.1)
  }

  /** Every run of hints from start-up keeps the invariant: the vsync
      budget never leaves 0..4 and the scroll timer is only set while
      touch boost is disabled. */
  lemma {:induction false} RunKeepsInv(hal: Hal, s: State, hints: seq<Hint>)
    requires Inv(s.boost)
    ensures Inv(Run(hal, s, hints).0.boost)
    decreases |hints|
  {
    if hints != [] {
      RunKeepsInv(hal, PowerHint(hal, s, hints[0]).0, hints[1..]);
    }
  }

  lemma InitialInv()
    ensures Inv(Initial.boost)
  {
  }

  /** A run of hints without a launch hint leaves the launch boost state
      alone, and a run without interaction or vsync hints leaves the touch
      state alone. */
  lemma {:induction false} RunSeparatesConcerns(hal: Hal, s: State, hints: seq<Hint>)
    ensures (forall i :: 0 <= i < |hints| ==> !hints[i].Launch?) ==> Run(hal, s, hints).0.launch == s.launch
    ensures (forall i :: 0 <= i < |hints| ==> !hints[i].Interaction? && !hints[i].Vsync?) ==>
              Run(hal, s, hints).0.boost == s.boost && Run(hal, s, hints).0.lastTouch == s.lastTouch
    decreases |hints|
  {
    if hints != [] {
      var next := PowerHint(hal, s, hints[0]).0;
      RunSeparatesConcerns(hal, next, hints[1..]);
      assert forall i :: 0 <= i < |hints[1..]| ==> hints[1..][i] == hints[i + 1];
    }
  }

  /** The number of touch pulses among `ws`. */
  function Pulses(ws: seq<Write>): nat {
    if ws == [] then 0 else (if ws[0] == Pulse then 1 else 0) + Pulses(ws[1..])
  }

  lemma {:induction false} PulsesAppend(a: seq<Write>, b: seq<Write>)
    ensures Pulses(a + b) == Pulses(a) + Pulses(b)
    decreases |a|
  {
    if a != [] {
      assert (a + b)[0] == a[0] && (a + b)[1..] == a[1..] + b;
      PulsesAppend(a[1..], b);
    } else {
      assert a + b == b;
    }
  }

  /** Once the vsync boost has started and touch boost is back on, vsync
      hints alone pulse at most as many times as the budget left. */
  lemma {:induction false} VsyncPulsesBounded(hal: Hal, s: State, hints: seq<Hint>)
    requires Inv(s.boost) && s.boost.touchboostDisable == 0
    requires forall i :: 0 <= i < |hints| ==> hints[i].Vsync?
    ensures Pulses(Run(hal, s, hints).1) <= s.boost.vsyncCount
    decreases |hints|
  {
    if hints != [] {
      var first := PowerHint(hal, s, hints[0]);
      assert forall i :: 0 <= i < |hints[1..]| ==> hints[1..][i].Vsync?;
      VsyncPulsesBounded(hal, first.0, hints[1..]);
      PulsesAppend(first.1, Run(hal, first.0, hints[1..]).1);
      assert Pulses(first.1) == s.boost.vsyncCount - first.0.boost.vsyncCount by {
        if first.1 == [Pulse] {
          assert Pulses(first.1) == 1;
        } else {
          assert first.1 == [];
        }
      }
    }
  }

  /** Switching the launch boost on twice is switching it on once, and so
      is switching it off: the second hint writes nothing and changes
      nothing. */
  lemma LaunchIdempotent(hal: Hal, l: LaunchState, on: bool, read1: Option<string>, read2: Option<string>)
    ensures var first := LaunchPState(hal, l, on, read1);
            var second := LaunchPState(hal, first.0, on, read2);
            (on ==> first.0.boosted) ==> second == (first.0, [])
  {
  }

  /** Boosting and then restoring writes the boosted value and then the
      text of the saved buffer, and ends unboosted.  That text is the value
      read exactly when the read was shorter than the buffer, held no NUL,
      and the buffer had a NUL right behind it, as a zeroed buffer does. */
  lemma LaunchRestores(hal: Hal, l: LaunchState, read: string)
    requires !l.boosted
    ensures var on := LaunchPState(hal, l, true, Some(read));
            var off := LaunchPState(hal, on.0, false, None);
            && on.1 + off.1 == [Write(MinPerfPct, hal.newMinPerfPct), Write(MinPerfPct, CString(on.0.saved))]
            && !off.0.boosted && off.0.saved == on.0.saved
            && (|read| < SavedBytes && l.saved[|read|] == '\0' && (forall i :: 0 <= i < |read| ==> read[i] != '\0') ==>
                  off.1 == [Write(MinPerfPct, read)])
  {
    var on := LaunchPState(hal, l, true, Some(read));
    if |read| < SavedBytes && l.saved[|read|] == '\0' && (forall i :: 0 <= i < |read| ==> read[i] != '\0') {
      CStringStopsAtNul(on.0.saved, |read|);
    }
  }

  /** A buffer with no NUL in its first `k` bytes and a NUL at `k` holds
      the text of those `k` bytes. */
  lemma {:induction false} CStringStopsAtNul(buf: string, k: nat)
    requires k < |buf| && buf[k] == '\0'
    requires forall i :: 0 <= i < k ==> buf[i] != '\0'
    ensures CString(buf) == buf[..k]
  {
    if k > 0 {
      CStringStopsAtNul(buf[1..], k - 1);
      assert buf[..k] == [buf[0]] + buf[1..][..k - 1];
    }
  }

  /** A shorter read keeps the tail of an earlier longer one: after the
      node read "100\n", a later boost that reads "35\n" restores "35\n\n". */
  lemma ShorterReadKeepsStaleTail(hal: Hal)
    ensures var l0 := Initial.launch;
            var l1 := LaunchPState(hal, LaunchPState(hal, l0, true, Some("100\n")).0, false, None).0;
            var on := LaunchPState(hal, l1, true, Some("35\n"));
            var off := LaunchPState(hal, on.0, false, None);
            off.1 == [Write(MinPerfPct, "35\n\n")]
  {
    var l1 := LaunchPState(hal, LaunchPState(hal, Initial.launch, true, Some("100\n")).0, false, None).0;
    assert l1.saved == "100\n";
    var on := LaunchPState(hal, l1, true, Some("35\n"));
    assert on.0.saved == "35\n\n";
    assert CString("35\n\n") == "35\n\n" by {
      assert CString("") == "";
      assert CString("\n") == "\n";
      assert CString("\n\n") == "\n\n";
      assert CString("5\n\n") == "5\n\n";
    }
  }
}
