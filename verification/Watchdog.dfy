/** The operating-system thread that ends the process when the trading loop falls silent. */
module Watchdog {
  import opened Wrappers

  const TIMEOUT_SECS := 300
  const SOFT_WARN_SECS := 180

  /** What the thread finds when it wakes up: the time, the pulse the trading loop stored since the last
      tick, if any, and whether the engine is parked. */
  datatype Tick = Tick(now: nat, pulse: Option<nat>, setup: bool, retired: bool, backup: bool)

  datatype Alarm = Nothing | ParkNoted | SoftWarning | Exit

  /** The shared heartbeat and the two flags of the thread. */
  datatype Dog = Dog(beat: nat, softWarned: bool, parkedNoted: bool)

  function Loaded(d: Dog, t: Tick): nat { if t.pulse.Some? then t.pulse.value else d.beat }

  /** Saturating, as the program subtracts. */
  function Silence(d: Dog, t: Tick): nat { if t.now >= Loaded(d, t) then t.now - Loaded(d, t) else 0 }

  predicate Parked(t: Tick) { t.setup || t.retired || t.backup }

  function Step(d: Dog, t: Tick): (Dog, Alarm) {
    var beat, silent := Loaded(d, t), Silence(d, t);
    if t.setup then (Dog(beat, d.softWarned, true), if d.parkedNoted then Nothing else ParkNoted)
    else if t.retired || t.backup then (Dog(t.now, d.softWarned, true), if d.parkedNoted then Nothing else ParkNoted)
    else if silent > TIMEOUT_SECS then (Dog(beat, d.softWarned, d.parkedNoted), Exit)
    else if silent > SOFT_WARN_SECS then
      (Dog(beat, true, d.parkedNoted), if d.softWarned then Nothing else SoftWarning)
    else (Dog(beat, false, d.parkedNoted), Nothing)
  }

  function DogAt(ticks: seq<Tick>, boot: nat, n: nat): Dog
    requires n <= |ticks|
  {
    if n == 0 then Dog(boot, false, false) else Step(DogAt(ticks, boot, n - 1), ticks[n - 1]).0
  }

  function AlarmAt(ticks: seq<Tick>, boot: nat, i: nat): Alarm
    requires i < |ticks|
  {
    Step(DogAt(ticks, boot, i), ticks[i]).1
  }

  /** The thread itself: it runs until it ends the process. */
  method Watch(ticks: seq<Tick>, boot: nat) returns (alarms: seq<Alarm>)
    ensures |alarms| <= |ticks| && forall i :: 0 <= i < |alarms| ==> alarms[i] == AlarmAt(ticks, boot, i)
    ensures forall i :: 0 <= i < |alarms| - 1 ==> alarms[i] != Exit
    ensures |alarms| < |ticks| ==> alarms != [] && alarms[|alarms| - 1] == Exit
  {
    var beat, softWarned, parkedNoted := boot, false, false;
    alarms := [];
    for i := 0 to |ticks|
      invariant |alarms| == i && Dog(beat, softWarned, parkedNoted) == DogAt(ticks, boot, i)
      invariant forall j :: 0 <= j < i ==> alarms[j] == AlarmAt(ticks, boot, j) && alarms[j] != Exit
    {
      var t := ticks[i];
      if t.pulse.Some? { beat := t.pulse.value; }
      var silent := if t.now >= beat then t.now - beat else 0;
      var alarm := Nothing;
      if t.setup {
        if !parkedNoted { alarm, parkedNoted := ParkNoted, true; }
        alarms := alarms + [alarm];
        continue;
      }
      if t.retired || t.backup {
        if !parkedNoted { alarm, parkedNoted := ParkNoted, true; }
        beat := t.now;
        alarms := alarms + [alarm];
        continue;
      }
      if silent > SOFT_WARN_SECS && silent <= TIMEOUT_SECS {
        if !softWarned { alarm, softWarned := SoftWarning, true; }
      } else if silent <= SOFT_WARN_SECS {
        softWarned := false;
      }
      if silent > TIMEOUT_SECS {
        alarms := alarms + [Exit];
        return;
      }
      alarms := alarms + [alarm];
    }
  }

  // ----- runs -----

  function Before(ticks: seq<Tick>, boot: nat, i: nat): nat
    requires i <= |ticks|
  {
    if i == 0 then boot else ticks[i - 1].now
  }

  /** The clock never goes back, a pulse carries the time at which it was stored, and ticks come at most
      `gap` seconds apart. */
  ghost predicate Regular(ticks: seq<Tick>, boot: nat, gap: nat) {
    forall i: nat {:trigger Follows(Before(ticks, boot, i), ticks[i], gap)} ::
      i < |ticks| ==> Follows(Before(ticks, boot, i), ticks[i], gap)
  }

  predicate Follows(now: nat, t: Tick, gap: nat) {
    now <= t.now <= now + gap && (t.pulse.Some? ==> now <= t.pulse.value <= t.now)
  }

  /** Waiting for setup ends, if at all, with the process: the program sets the flag and never clears it. */
  ghost predicate SetupIsFinal(ticks: seq<Tick>) {
    forall i, j :: 0 <= i < j < |ticks| && ticks[i].setup ==> ticks[j].setup
  }

  /** The soft warning of tick `j` belongs to a silence that has lasted until before tick `n`. */
  ghost predicate WarnedInSilence(ticks: seq<Tick>, boot: nat, j: nat, n: nat)
    requires n <= |ticks|
  {
    && j < n && AlarmAt(ticks, boot, j) == SoftWarning
    && forall k :: j < k < n ==> ticks[k].pulse.None? && !Parked(ticks[k])
  }

  ghost predicate Alive(ticks: seq<Tick>, boot: nat, n: nat)
    requires n <= |ticks|
  {
    forall i :: 0 <= i < n ==> AlarmAt(ticks, boot, i) != Exit
  }

  /** At time `now` no silence has lasted more than 300 seconds, one of more than 180 is flagged, and a flag
      left over from an earlier silence can only be seen right after a park. */
  predicate Watchful(d: Dog, now: nat) {
    && d.beat <= now <= d.beat + TIMEOUT_SECS
    && (if now > d.beat + SOFT_WARN_SECS then d.softWarned else d.softWarned ==> now == d.beat)
  }

  /** A tick that ends a silence: a pulse, or a park of any kind. */
  predicate Interrupts(t: Tick) { t.pulse.Some? || Parked(t) }

  ghost predicate Uninterrupted(ticks: seq<Tick>, a: nat, n: nat)
    requires n <= |ticks|
  {
    forall k :: a <= k < n ==> !Interrupts(ticks[k])
  }

  /** The tick that began the silence in which tick `n` falls. */
  ghost predicate BeginsSilence(ticks: seq<Tick>, s: nat, n: nat)
    requires n <= |ticks|
  {
    s < n && Interrupts(ticks[s]) && Uninterrupted(ticks, s + 1, n)
  }

  lemma {:induction false} SilenceBegins(ticks: seq<Tick>, n: nat) returns (s: Option<nat>)
    requires n <= |ticks|
    ensures if s.Some? then BeginsSilence(ticks, s.value, n) else Uninterrupted(ticks, 0, n)
  {
    if n == 0 {
      s := None;
    } else if Interrupts(ticks[n - 1]) {
      s := Some(n - 1);
    } else {
      s := SilenceBegins(ticks, n - 1);
    }
  }

  lemma {:induction false} BeatIsPast(ticks: seq<Tick>, boot: nat, n: nat)
    requires n <= |ticks| && Regular(ticks, boot, 120)
    ensures DogAt(ticks, boot, n).beat <= Before(ticks, boot, n)
  {
    if n > 0 {
      BeatIsPast(ticks, boot, n - 1);
      assert Follows(Before(ticks, boot, n - 1), ticks[n - 1], 120);
    }
  }

  lemma StepWatchful(d: Dog, now: nat, t: Tick)
    requires Watchful(d, now) && !Interrupts(t) && Step(d, t).1 != Exit && Follows(now, t, 120)
    ensures Watchful(Step(d, t).0, t.now) && Step(d, t).0.beat == d.beat
    ensures t.now > d.beat + SOFT_WARN_SECS ==> Step(d, t).1 == SoftWarning || now > d.beat + SOFT_WARN_SECS
  {
  }

  /** From a watchful state on, a silence is watched: once it has lasted more than 180 seconds it was warned about. */
  lemma {:induction false} SilenceIsWatched(ticks: seq<Tick>, boot: nat, a: nat, n: nat)
    requires a <= n <= |ticks| && Regular(ticks, boot, 120) && Alive(ticks, boot, n) && Uninterrupted(ticks, a, n)
    requires Watchful(DogAt(ticks, boot, a), Before(ticks, boot, a))
    requires Before(ticks, boot, a) <= DogAt(ticks, boot, a).beat + SOFT_WARN_SECS
    ensures var d, now := DogAt(ticks, boot, n), Before(ticks, boot, n);
      Watchful(d, now) && (now > d.beat + SOFT_WARN_SECS ==> exists j: nat :: WarnedInSilence(ticks, boot, j, n))
  {
    if a < n {
      var m := n - 1;
      SilenceIsWatched(ticks, boot, a, m);
      var d, t := DogAt(ticks, boot, m), ticks[m];
      assert AlarmAt(ticks, boot, m) == Step(d, t).1 != Exit;
      assert Follows(Before(ticks, boot, m), t, 120);
      StepWatchful(d, Before(ticks, boot, m), t);
      if t.now > d.beat + SOFT_WARN_SECS {
        if AlarmAt(ticks, boot, m) == SoftWarning {
          assert WarnedInSilence(ticks, boot, m, n);
        } else {
          var j: nat :| WarnedInSilence(ticks, boot, j, m);
          assert WarnedInSilence(ticks, boot, j, n);
        }
      }
    }
  }

  /** Every interruption but waiting for setup leaves the dog watchful, whatever came before it. */
  lemma InterruptionRearms(d: Dog, now: nat, t: Tick)
    requires Interrupts(t) && !t.setup && Follows(now, t, 120)
    ensures Watchful(Step(d, t).0, t.now) && t.now <= Step(d, t).0.beat + SOFT_WARN_SECS && Step(d, t).1 != Exit
  {
  }

  lemma NotExitOnPulse(ticks: seq<Tick>, boot: nat, n: nat)
    requires n < |ticks| && Regular(ticks, boot, 120) && AlarmAt(ticks, boot, n) == Exit
    ensures !Interrupts(ticks[n])
  {
    assert Follows(Before(ticks, boot, n), ticks[n], 120);
  }

  /** A silence that no park for setup began is watched up to its end. */
  lemma WatchedUnlessSetup(ticks: seq<Tick>, boot: nat, n: nat)
    requires n < |ticks| && Regular(ticks, boot, 120) && Alive(ticks, boot, n)
    requires forall s: nat :: BeginsSilence(ticks, s, n) ==> !ticks[s].setup
    ensures var d, now := DogAt(ticks, boot, n), Before(ticks, boot, n);
      Watchful(d, now) && (now > d.beat + SOFT_WARN_SECS ==> exists j: nat :: WarnedInSilence(ticks, boot, j, n))
  {
    var s := SilenceBegins(ticks, n);
    if s.Some? {
      assert Follows(Before(ticks, boot, s.value), ticks[s.value], 120);
      InterruptionRearms(DogAt(ticks, boot, s.value), Before(ticks, boot, s.value), ticks[s.value]);
      SilenceIsWatched(ticks, boot, s.value + 1, n);
    } else {
      SilenceIsWatched(ticks, boot, 0, n);
    }
  }

  /** The first tick after a park for setup finds the loop silent for so short a time, or so unwarned, that the
      silence is still announced. */
  predicate LeavesSetupCleanly(ticks: seq<Tick>, boot: nat, m: nat)
    requires m < |ticks|
  {
    var d := DogAt(ticks, boot, m);
    Silence(d, ticks[m]) <= 180 || (Silence(d, ticks[m]) <= 300 && !d.softWarned)
  }

  lemma WarnedAfterCleanLeave(ticks: seq<Tick>, boot: nat, s: nat, n: nat)
    requires n < |ticks| && Regular(ticks, boot, 120) && Alive(ticks, boot, n) && AlarmAt(ticks, boot, n) == Exit
    requires BeginsSilence(ticks, s, n) && ticks[s].setup && LeavesSetupCleanly(ticks, boot, s + 1)
    ensures exists j: nat :: WarnedInSilence(ticks, boot, j, n)
  {
    var m := s + 1;
    NotExitOnPulse(ticks, boot, n);
    assert m < n && !Interrupts(ticks[m]);
    if Silence(DogAt(ticks, boot, m), ticks[m]) <= SOFT_WARN_SECS {
      BeatIsPast(ticks, boot, m + 1);
      SilenceIsWatched(ticks, boot, m + 1, n);
      assert Follows(Before(ticks, boot, n), ticks[n], 120);
    } else {
      assert WarnedInSilence(ticks, boot, m, n);
    }
  }

  lemma {:induction false} FlagMutesWarnings(ticks: seq<Tick>, boot: nat, m: nat, n: nat)
    requires m <= n <= |ticks| && Uninterrupted(ticks, m, n) && Regular(ticks, boot, 120)
    requires m < |ticks| && DogAt(ticks, boot, m).softWarned
    requires Silence(DogAt(ticks, boot, m), ticks[m]) > SOFT_WARN_SECS
    ensures DogAt(ticks, boot, n).softWarned && DogAt(ticks, boot, n).beat == DogAt(ticks, boot, m).beat
    ensures n > m ==> Before(ticks, boot, n) > DogAt(ticks, boot, n).beat + SOFT_WARN_SECS
    ensures forall k :: m <= k < n ==> AlarmAt(ticks, boot, k) != SoftWarning
  {
    if m < n {
      FlagMutesWarnings(ticks, boot, m, n - 1);
      assert Follows(Before(ticks, boot, n - 1), ticks[n - 1], 120);
    }
  }

  lemma UnwarnedAfterUncleanLeave(ticks: seq<Tick>, boot: nat, s: nat, n: nat, j: nat)
    requires n < |ticks| && Regular(ticks, boot, 120) && Alive(ticks, boot, n) && AlarmAt(ticks, boot, n) == Exit
    requires BeginsSilence(ticks, s, n) && ticks[s].setup && !LeavesSetupCleanly(ticks, boot, s + 1)
    ensures !WarnedInSilence(ticks, boot, j, n)
  {
    var m := s + 1;
    NotExitOnPulse(ticks, boot, n);
    if m < n && WarnedInSilence(ticks, boot, j, n) {
      assert AlarmAt(ticks, boot, m) != Exit;
      FlagMutesWarnings(ticks, boot, m, n);
    }
  }

  /** A generalisation to programs that could leave the park for setup, which this one does not. With ticks at
      most 120 seconds apart, an exit was announced by a soft warning in the same silence, with no
      pulse and no park since, exactly when that silence did not begin with leaving the park for setup, or began
      so with a clean leave. A retirement or a backup before it does no harm. */
  lemma WarnedExactly(ticks: seq<Tick>, boot: nat, n: nat)
    requires n < |ticks| && Regular(ticks, boot, 120) && Alive(ticks, boot, n) && AlarmAt(ticks, boot, n) == Exit
    ensures (exists j: nat :: WarnedInSilence(ticks, boot, j, n)) <==>
      forall s: nat :: BeginsSilence(ticks, s, n) && ticks[s].setup ==> LeavesSetupCleanly(ticks, boot, s + 1)
  {
    var s := SilenceBegins(ticks, n);
    if s.Some? && ticks[s.value].setup {
      if LeavesSetupCleanly(ticks, boot, s.value + 1) {
        WarnedAfterCleanLeave(ticks, boot, s.value, n);
      } else {
        forall j: nat ensures !WarnedInSilence(ticks, boot, j, n) {
          UnwarnedAfterUncleanLeave(ticks, boot, s.value, n, j);
        }
      }
    } else {
      WatchedUnlessSetup(ticks, boot, n);
      NotExitOnPulse(ticks, boot, n);
      assert Follows(Before(ticks, boot, n), ticks[n], 120);
    }
  }

  /** The program itself, in which waiting for setup ends only with the process, is ended only when it is not
      parked, after more than 300 but at most 420 seconds without a pulse, and only after a soft warning. */
  lemma ExitIsWarnedAndTimely(ticks: seq<Tick>, boot: nat, n: nat) returns (j: nat)
    requires n < |ticks| && Regular(ticks, boot, 120) && SetupIsFinal(ticks) && Alive(ticks, boot, n)
    requires AlarmAt(ticks, boot, n) == Exit
    ensures !Parked(ticks[n])
    ensures DogAt(ticks, boot, n).beat + 300 < ticks[n].now <= DogAt(ticks, boot, n).beat + 420
    ensures WarnedInSilence(ticks, boot, j, n) && ticks[n].pulse.None?
  {
    WatchedUnlessSetup(ticks, boot, n);
    NotExitOnPulse(ticks, boot, n);
    assert Follows(Before(ticks, boot, n), ticks[n], 120);
    j :| WarnedInSilence(ticks, boot, j, n);
  }

  lemma {:induction false} ParkIsNoted(ticks: seq<Tick>, boot: nat, n: nat)
    requires n <= |ticks|
    ensures DogAt(ticks, boot, n).parkedNoted <==> exists i :: 0 <= i < n && Parked(ticks[i])
  {
    if n > 0 { ParkIsNoted(ticks, boot, n - 1); }
  }

  /** The log notes a park at the first tick that finds one, and never again. */
  lemma ParkNotedOnce(ticks: seq<Tick>, boot: nat, n: nat)
    requires n < |ticks|
    ensures AlarmAt(ticks, boot, n) == ParkNoted <==> Parked(ticks[n]) && forall i :: 0 <= i < n ==> !Parked(ticks[i])
  {
    ParkIsNoted(ticks, boot, n);
  }

  /** The time of the last pulse or, since it counts as one, of a retirement or a backup that came after it. */
  ghost predicate LastBeat(ticks: seq<Tick>, boot: nat, n: nat, beat: nat)
    requires n <= |ticks|
  {
    || (beat == boot && forall k :: 0 <= k < n ==> !Beats(ticks[k]))
    || exists i :: 0 <= i < n && Beats(ticks[i]) && beat == BeatOf(ticks[i])
         && forall k :: i < k < n ==> !Beats(ticks[k])
  }

  predicate Beats(t: Tick) { t.pulse.Some? || (!t.setup && (t.retired || t.backup)) }

  function BeatOf(t: Tick): nat
    requires Beats(t)
  {
    if !t.setup && (t.retired || t.backup) then t.now else t.pulse.value
  }

  lemma {:induction false} BeatIsLast(ticks: seq<Tick>, boot: nat, n: nat)
    requires n <= |ticks|
    ensures LastBeat(ticks, boot, n, DogAt(ticks, boot, n).beat)
  {
    if n > 0 { BeatIsLast(ticks, boot, n - 1); }
  }

  /** What the thread takes for the last sign of life when it wakes up for tick `n`. */
  function SignOfLife(ticks: seq<Tick>, boot: nat, n: nat): nat
    requires n < |ticks|
  {
    if ticks[n].pulse.Some? then ticks[n].pulse.value else DogAt(ticks, boot, n).beat
  }

  /** A tick at which the loop is found healthy. */
  predicate Rearms(ticks: seq<Tick>, boot: nat, n: nat)
    requires n < |ticks|
  {
    !Parked(ticks[n]) && ticks[n].now <= SignOfLife(ticks, boot, n) + 180
  }

  /** A soft warning was given, and the loop has not been found healthy since. */
  ghost predicate StillWarned(ticks: seq<Tick>, boot: nat, n: nat)
    requires n <= |ticks|
  {
    exists j :: 0 <= j < n && AlarmAt(ticks, boot, j) == SoftWarning
      && forall k :: j < k < n ==> !Rearms(ticks, boot, k)
  }

  lemma {:induction false} FlagExactly(ticks: seq<Tick>, boot: nat, n: nat)
    requires n <= |ticks|
    ensures DogAt(ticks, boot, n).softWarned <==> StillWarned(ticks, boot, n)
  {
    if n > 0 {
      FlagExactly(ticks, boot, n - 1);
      if AlarmAt(ticks, boot, n - 1) == SoftWarning { assert StillWarned(ticks, boot, n); }
      if StillWarned(ticks, boot, n - 1) && !Rearms(ticks, boot, n - 1) {
        var j :| 0 <= j < n - 1 && AlarmAt(ticks, boot, j) == SoftWarning
          && forall k :: j < k < n - 1 ==> !Rearms(ticks, boot, k);
        assert StillWarned(ticks, boot, n);
      }
    }
  }

  /** The process is ended at exactly the unparked ticks more than 300 seconds after the last sign of life; it is warned
      about at exactly those more than 180 and at most 300 seconds after it that no standing warning covers. */
  lemma AlarmExactly(ticks: seq<Tick>, boot: nat, n: nat)
    requires n < |ticks|
    ensures AlarmAt(ticks, boot, n) == Exit <==>
      !Parked(ticks[n]) && ticks[n].now > SignOfLife(ticks, boot, n) + 300
    ensures AlarmAt(ticks, boot, n) == SoftWarning <==>
      && !Parked(ticks[n]) && SignOfLife(ticks, boot, n) + 180 < ticks[n].now <= SignOfLife(ticks, boot, n) + 300
      && !StillWarned(ticks, boot, n)
  {
    FlagExactly(ticks, boot, n);
  }

  lemma {:induction false} BeatStays(ticks: seq<Tick>, boot: nat, a: nat, n: nat)
    requires a <= n <= |ticks| && forall k :: a <= k < n ==> ticks[k].pulse.None? && !Parked(ticks[k])
    ensures DogAt(ticks, boot, n).beat == DogAt(ticks, boot, a).beat
  {
    if a < n { BeatStays(ticks, boot, a, n - 1); }
  }

  /** A silence that persists ends the process: once the loop has neither pulsed nor been parked since tick `a`,
      the process does not outlive the first tick more than 300 seconds after the last pulse. */
  lemma PersistentSilenceEnds(ticks: seq<Tick>, boot: nat, a: nat, n: nat)
    requires a <= n < |ticks| && forall k :: a <= k <= n ==> ticks[k].pulse.None? && !Parked(ticks[k])
    requires ticks[n].now > DogAt(ticks, boot, a).beat + 300
    ensures !Alive(ticks, boot, n + 1)
  {
    BeatStays(ticks, boot, a, n);
    assert AlarmAt(ticks, boot, n) == Exit;
  }

  /** No pulse older than a tick interval ever ends the process: a loop that pulses between any two ticks lives on. */
  lemma {:induction false} PulsingLoopLives(ticks: seq<Tick>, boot: nat, gap: nat, n: nat)
    requires n <= |ticks| && Regular(ticks, boot, gap) && gap <= TIMEOUT_SECS
    requires forall i :: 0 <= i < n ==> ticks[i].pulse.Some?
    ensures Alive(ticks, boot, n)
  {
    if n > 0 {
      PulsingLoopLives(ticks, boot, gap, n - 1);
      assert Follows(Before(ticks, boot, n - 1), ticks[n - 1], gap);
      assert AlarmAt(ticks, boot, n - 1) != Exit;
    }
  }

  /** Neither assumption can be dropped. If the program did clear the flag, which it does not, the stale heartbeat
      would end the process at once. */
  lemma LeavingSetupKillsUnwarned() returns (ticks: seq<Tick>)
    ensures Regular(ticks, 0, 120) && !SetupIsFinal(ticks) && |ticks| == 4
    ensures Alive(ticks, 0, 3) && AlarmAt(ticks, 0, 3) == Exit
    ensures forall j :: 0 <= j < 4 ==> AlarmAt(ticks, 0, j) != SoftWarning
  {
    ticks := [Tick(120, None, true, false, false), Tick(240, None, true, false, false),
              Tick(360, None, true, false, false), Tick(480, None, false, false, false)];
    assert ticks[2].setup && !ticks[3].setup;
    assert DogAt(ticks, 0, 1) == Dog(0, false, true);
    assert DogAt(ticks, 0, 2) == Dog(0, false, true);
    assert DogAt(ticks, 0, 3) == Dog(0, false, true);
  }

  /** And with ticks 121 seconds apart a silence can step over the warning zone. */
  lemma SlowTicksKillUnwarned() returns (ticks: seq<Tick>)
    ensures Regular(ticks, 0, 121) && SetupIsFinal(ticks) && |ticks| == 3
    ensures Alive(ticks, 0, 2) && AlarmAt(ticks, 0, 2) == Exit
    ensures forall j :: 0 <= j < 3 ==> AlarmAt(ticks, 0, j) != SoftWarning
  {
    ticks := [Tick(60, None, false, false, false), Tick(180, None, false, false, false),
      Tick(301, None, false, false, false)];
    assert DogAt(ticks, 0, 1) == Dog(0, false, false);
    assert DogAt(ticks, 0, 2) == Dog(0, false, false);
  }
}
