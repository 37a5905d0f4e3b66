/**
 How much of a sliding window of time a program spent paused, from a list of events in time order. An
 event says from when on the program is paused, or not paused any more.
 */
module Pauses {

  datatype Event = Event(msec: real, isPaused: bool)

  ghost predicate InOrder(v: seq<Event>) {
    forall i, j :: 0 <= i < j < |v| ==> v[i].msec <= v[j].msec
  }

  // ---------------------------------------------------------------- the start of the window

  /** The last event, from `start` on, that is not after `msec`; `start` itself if there is none. */
  function Cursor(v: seq<Event>, start: nat, msec: real): (r: nat)
    requires start < |v|
    ensures start <= r < |v| && (r > start ==> v[r].msec <= msec)
    decreases |v| - start
  {
    if start + 1 < |v| && v[start + 1].msec <= msec then Cursor(v, start + 1, msec) else start
  }

  /** Finds the cursor; -1 if there is no event left. */
  method FindStartIdx(v: seq<Event>, startIdx: nat, msec: real) returns (r: int)
    requires InOrder(v)
    ensures r == if startIdx < |v| then Cursor(v, startIdx, msec) else -1
  {
    r := startIdx;
    var found := false;
    var i := startIdx;
    while i < |v|
      invariant startIdx <= i && r >= 0 && (i <= |v| || !found)
      invariant if found then startIdx <= r == i - 1 && Cursor(v, r, msec) == Cursor(v, startIdx, msec) && v[r].msec <= msec
                else i == startIdx == r
    {
      var n := v[i];
      if n.msec > msec {
        if !found {
          return startIdx;
        } else {
          break;
        }
      }
      r := i;
      found := true;
      i := i + 1;
    }
    if !found {
      return -1;
    }
  }

  lemma {:induction false} CursorStops(v: seq<Event>, start: nat, msec: real)
    requires InOrder(v) && start < |v|
    ensures forall i :: Cursor(v, start, msec) < i < |v| ==> v[i].msec > msec
    decreases |v| - start
  {
    if start + 1 < |v| && v[start + 1].msec <= msec {
      CursorStops(v, start + 1, msec);
    }
  }

  /** Going on from where an earlier search ended finds what a search from the start would. */
  lemma {:induction false} CursorResumes(v: seq<Event>, start: nat, earlier: real, later: real)
    requires InOrder(v) && start < |v| && earlier <= later
    ensures Cursor(v, Cursor(v, start, earlier), later) == Cursor(v, start, later)
    decreases |v| - start
  {
    if start + 1 < |v| && v[start + 1].msec <= earlier {
      CursorResumes(v, start + 1, earlier, later);
    }
  }

  // ---------------------------------------------------------------- time paused in a window

  function Min(a: real, b: real): real {
    if a < b then a else b
  }

  function Max(a: real, b: real): real {
    if a < b then b else a
  }

  /** How long the times from `a` to `b` and from `begin` to `end` have in common. */
  function Overlap(a: real, b: real, begin: real, end: real): real {
    Max(0.0, Min(b, end) - Max(a, begin))
  }

  /** The time between `begin` and `end`, up to the last event, that lies after a pausing event and before the next one. */
  function PausedTime(v: seq<Event>, begin: real, end: real, i: nat): real
    requires i <= |v|
    decreases |v| - i
  {
    if i + 1 >= |v| then 0.0
    else (if v[i].isPaused then Overlap(v[i].msec, v[i + 1].msec, begin, end) else 0.0) + PausedTime(v, begin, end, i + 1)
  }

  /** Time paused is a measure: that of a window is the sum of those of its two parts. */
  lemma {:induction false} WindowsAdd(v: seq<Event>, begin: real, mid: real, end: real, i: nat)
    requires InOrder(v) && i <= |v| && begin <= mid <= end
    ensures PausedTime(v, begin, end, i) == PausedTime(v, begin, mid, i) + PausedTime(v, mid, end, i)
    decreases |v| - i
  {
    if i + 1 < |v| {
      WindowsAdd(v, begin, mid, end, i + 1);
    }
  }

  /** A window is never paused for longer than from the event at `i`, or its own start, to its end. */
  lemma {:induction false} PausedAtMost(v: seq<Event>, begin: real, end: real, i: nat)
    requires InOrder(v) && i < |v| && begin <= end
    ensures 0.0 <= PausedTime(v, begin, end, i) <= Max(0.0, end - Max(begin, v[i].msec))
    decreases |v| - i
  {
    if i + 1 < |v| {
      PausedAtMost(v, begin, end, i + 1);
    }
  }

  /** Nothing before the cursor counts. */
  lemma {:induction false} BeforeCursor(v: seq<Event>, begin: real, end: real, i: nat)
    requires InOrder(v) && i < |v|
    ensures PausedTime(v, begin, end, i) == PausedTime(v, begin, end, Cursor(v, i, begin))
    decreases |v| - i
  {
    if i + 1 < |v| && v[i + 1].msec <= begin {
      BeforeCursor(v, begin, end, i + 1);
    }
  }

  /** Nothing from the end of the window on counts. */
  lemma {:induction false} AfterEnd(v: seq<Event>, begin: real, end: real, i: nat)
    requires InOrder(v) && i < |v| && v[i].msec >= end
    ensures PausedTime(v, begin, end, i) == 0.0
    decreases |v| - i
  {
    if i + 1 < |v| {
      AfterEnd(v, begin, end, i + 1);
    }
  }

  /** Between an event and the next, a window is paused for its whole length or not at all, as the event says. */
  lemma {:induction false} BetweenEvents(v: seq<Event>, begin: real, end: real, k: nat, i: nat)
    requires InOrder(v) && i <= k < |v| - 1 && v[k].msec <= begin <= end <= v[k + 1].msec
    ensures PausedTime(v, begin, end, i) == if v[k].isPaused then end - begin else 0.0
    decreases k - i
  {
    if i < k {
      BetweenEvents(v, begin, end, k, i + 1);
    } else {
      AfterEnd(v, begin, end, k + 1);
    }
  }

  /** Time after the last event, or before the first, does not count. */
  lemma {:induction false} OutsideEvents(v: seq<Event>, begin: real, end: real, i: nat)
    requires InOrder(v) && i < |v| && (v[|v| - 1].msec <= begin || end <= v[i].msec)
    ensures PausedTime(v, begin, end, i) == 0.0
    decreases |v| - i
  {
    if i + 1 < |v| {
      OutsideEvents(v, begin, end, i + 1);
    }
  }

  /** Adds up the pauses in the window, starting from the cursor. */
  method TotalPaused(v: seq<Event>, startIdx: nat, begin: real, end: real) returns (total: real)
    requires InOrder(v) && begin <= end && |v| > 0 && startIdx == Cursor(v, 0, begin)
    ensures total == PausedTime(v, begin, end, 0)
  {
    BeforeCursor(v, begin, end, 0);
    CursorStops(v, 0, begin);
    total := 0.0;
    var i := startIdx;
    while i < |v|
      invariant startIdx <= i <= |v|
      invariant i == startIdx ==> total == 0.0
      invariant i > startIdx ==> v[i - 1].msec < end && total + PausedTime(v, begin, end, i - 1) == PausedTime(v, begin, end, 0)
    {
      var n := v[i];
      if i > startIdx && v[i - 1].isPaused {
        var a, b := v[i - 1].msec, n.msec;
        if a < begin {
          a := begin;
        }
        if b > end {
          b := end;
        }
        total := total + (b - a);
      }
      i := i + 1;
      if n.msec >= end {
        AfterEnd(v, begin, end, i - 1);
        return;
      }
    }
  }

  /** Whether the time paused in the window that starts at `begin` is more than the threshold. */
  method AddPauses(v: seq<Event>, startIdx: nat, begin: real, windowSize: real, threshold: real) returns (r: bool)
    requires InOrder(v) && windowSize >= 0.0 && |v| > 0 && startIdx == Cursor(v, 0, begin)
    ensures r <==> PausedTime(v, begin, begin + windowSize, 0) > threshold
  {
    var end := begin + windowSize;
    for pass := 0 to 2
      invariant pass > 0 ==> PausedTime(v, begin, end, 0) > threshold
    {
      var total := TotalPaused(v, startIdx, begin, end);
      if total > threshold {
        if pass == 1 {
          return true;
        }
      } else {
        return false;
      }
    }
    return true;
  }

  /** How many of the windows that start at 0, 1, and so on up to `n - 1` milliseconds are paused for too long. */
  function Count(v: seq<Event>, n: nat, windowSize: real, threshold: real): nat {
    if n == 0 then 0
    else Count(v, n - 1, windowSize, threshold) +
         if PausedTime(v, (n - 1) as real, (n - 1) as real + windowSize, 0) > threshold then 1 else 0
  }

  /** Counts the windows with pauses that are too long, one start for each millisecond before `lastMsec`. */
  method CountPauses(v: seq<Event>, lastMsec: real, windowSize: real, threshold: real) returns (totalPauses: nat, totalMsecs: nat)
    requires InOrder(v) && windowSize >= 0.0
    ensures totalPauses == Count(v, totalMsecs, windowSize, threshold)
    ensures if v == [] then totalMsecs == 0 else totalMsecs as real >= lastMsec && (totalMsecs > 0 ==> (totalMsecs - 1) as real < lastMsec)
  {
    totalPauses, totalMsecs := 0, 0;
    var startIdx: int := 0;
    var msec := 0.0;
    while msec < lastMsec
      invariant msec == totalMsecs as real && totalPauses == Count(v, totalMsecs, windowSize, threshold)
      invariant v == [] ==> totalMsecs == 0 && startIdx == 0
      invariant v != [] && totalMsecs == 0 ==> startIdx == 0
      invariant v != [] && totalMsecs > 0 ==> startIdx == Cursor(v, 0, msec - 1.0) && msec - 1.0 < lastMsec
      decreases (lastMsec - msec).Floor
    {
      if v != [] && totalMsecs > 0 {
        CursorResumes(v, 0, msec - 1.0, msec);
      }
      startIdx := FindStartIdx(v, startIdx, msec);
      if startIdx < 0 {
        break;
      }
      var paused := AddPauses(v, startIdx, msec, windowSize, threshold);
      if paused {
        totalPauses := totalPauses + 1;
      }
      totalMsecs := totalMsecs + 1;
      msec := msec + 1.0;
    }
  }
}
