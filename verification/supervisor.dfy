/**
 `run_app_with_restart` in main.py: the app is launched again after each crash,
 at most five launches in all, with a wait that starts at 3 s and doubles up to
 a 30 s cap.
 */
module Supervisor {

  const MAX_RESTARTS: nat := 5
  const FIRST_WAIT_S: nat := 3
  const WAIT_CAP_S: nat := 30

  /** How one launch of the app ended: `run()` returned, or it raised. */
  datatype Run = Normal | Crash

  /** The launches made, the waits slept after crashes, and whether the limit was hit. */
  datatype Supervision = Supervision(launches: nat, waits: seq<nat>, gaveUp: bool)

  function Min(a: nat, b: nat): nat {
    if a <= b then a else b
  }

  function Pow2(k: nat): nat {
    if k == 0 then 1 else 2 * Pow2(k - 1)
  }

  /** The wait after the crash numbered `k` (from 0), in closed form. */
  function WaitAfter(k: nat): nat {
    Min(FIRST_WAIT_S * Pow2(k), WAIT_CAP_S)
  }

  /**
   The restart loop. `runs[k]` is how launch `k` ends. It stops at the first
   normal return or after five crashes; each crash is followed by a wait, the
   next one doubled and capped; the final notice comes only at the limit.
   */
  method RunWithRestart(runs: seq<Run>) returns (s: Supervision)
    requires |runs| >= MAX_RESTARTS
    ensures 1 <= s.launches <= MAX_RESTARTS
    ensures forall k | 0 <= k < s.launches - 1 :: runs[k] == Crash
    ensures s.gaveUp <==> forall k | 0 <= k < MAX_RESTARTS :: runs[k] == Crash
    ensures !s.gaveUp ==> runs[s.launches - 1] == Normal
    ensures |s.waits| == (if s.gaveUp then s.launches else s.launches - 1)
    ensures forall k | 0 <= k < |s.waits| :: s.waits[k] == WaitAfter(k)
    ensures s.gaveUp ==> s.waits == [3, 6, 12, 24, 30]
  {
    var restartCount: nat := 0;
    var restartTimeout: nat := FIRST_WAIT_S;
    var waits: seq<nat> := [];
    var launches: nat := 0;
    while restartCount < MAX_RESTARTS
      invariant restartCount <= MAX_RESTARTS
      invariant launches == restartCount
      invariant forall k | 0 <= k < restartCount :: runs[k] == Crash
      invariant |waits| == restartCount
      invariant forall k | 0 <= k < |waits| :: waits[k] == WaitAfter(k)
      invariant restartTimeout == WaitAfter(restartCount)
    {
      launches := launches + 1;
      if runs[restartCount] == Normal {
        break;
      }
      restartCount := restartCount + 1;
      waits := waits + [restartTimeout];
      restartTimeout := Min(restartTimeout * 2, WAIT_CAP_S);
    }
    s := Supervision(launches, waits, restartCount >= MAX_RESTARTS);
    if s.gaveUp {
      assert s.waits == [WaitAfter(0), WaitAfter(1), WaitAfter(2), WaitAfter(3), WaitAfter(4)];
    }
  }
}
