/** The renderer of rtime: the one consumer of the event bus. It folds each
    `Print` event into a `Status` value, decides what reaches the terminal, and
    stops once both output streams of the child have ended.

    The terminal is modelled as a trace of `Rendered` items, and the clock as
    the integer seconds read when each event is handled. */
module Renderer {

  /** Unsigned 8-bit integer, the width of the finished-task counter. */
  newtype u8 = x: int | 0 <= x < 256

  /** The events sent over the bus by the two readers and the ticker. */
  datatype Print = Line(text: string) | ElapsedTime | FinishedTasks

  /** What the renderer put on the terminal last: the timer or an output line. */
  datatype LastLine = Time | Output

  /** The renderer's state. `prevSeconds` is the integer-seconds value seen at
      the latest tick, drawn or not. */
  datatype Status = Status(lastLine: LastLine, prevSeconds: nat, finishedTasks: u8)

  /** One effect on the terminal: the timer rewritten in place, a line of the
      child's output, or the closing total-time line. */
  datatype Rendered = DrawTime(seconds: nat) | PrintLine(text: string) | Total(seconds: nat)

  /** The next status and what handling one event rendered. */
  datatype Transition = Transition(next: Status, out: seq<Rendered>)

  /** The outcome of the loop over a sequence of events: the last status, the
      trace, how many events were taken off the bus, and whether the loop
      stopped. */
  datatype Run = Run(status: Status, trace: seq<Rendered>, consumed: nat, finished: bool)

  /** The number of ended streams after which the loop stops. */
  const StreamCount: u8 := 2

  /** The status the loop starts from. */
  function Initial(): Status
  {
    Status(Output, 0, 0)
  }

  /** Handling an `ElapsedTime` event when the clock reads `now` seconds. */
  function Tick(st: Status, now: nat): (t: Transition)
    ensures t.next.prevSeconds == now
    ensures t.next.finishedTasks == st.finishedTasks
    ensures t.out != [] <==> now != st.prevSeconds
    ensures now != st.prevSeconds ==> t.next.lastLine == Time && t.out == [DrawTime(now)]
    ensures now == st.prevSeconds ==> t.next == st
  {
    if st.prevSeconds != now then
      Transition(Status(Time, now, st.finishedTasks), [DrawTime(now)])
    else
      Transition(st.(prevSeconds := now), [])
  }

  /** Handling one event. A `FinishedTasks` on a counter at 255 would overflow
      the `u8`, which the loop never lets happen. */
  function Step(st: Status, p: Print, now: nat): (t: Transition)
    requires p.FinishedTasks? ==> st.finishedTasks < 255
    ensures t.next.finishedTasks as int == st.finishedTasks as int + (if p.FinishedTasks? then 1 else 0)
    ensures t.next.prevSeconds == (if p.ElapsedTime? then now else st.prevSeconds)
    ensures p.Line? ==> t.next.lastLine == Output && t.out == [PrintLine(p.text)]
    ensures p.FinishedTasks? ==> t.next.lastLine == st.lastLine && t.out == []
    ensures p.ElapsedTime? ==> t == Tick(st, now)
  {
    match p
    case ElapsedTime => Tick(st, now)
    case Line(text) => Transition(st.(lastLine := Output), [PrintLine(text)])
    case FinishedTasks => Transition(st.(finishedTasks := st.finishedTasks + 1), [])
  }

  /** The loop body applied to `events` in order, the clock reading
      `clock[i]` when event `i` is handled, stopping right after the event that
      brings the counter to `StreamCount`. Running out of events means the loop
      is still waiting on the bus. */
  function Fold(st: Status, events: seq<Print>, clock: seq<nat>): (r: Run)
    requires |clock| == |events|
    requires st.finishedTasks < StreamCount
    ensures r.consumed <= |events|
    ensures r.status.finishedTasks <= StreamCount
    ensures r.finished <==> r.status.finishedTasks == StreamCount
    ensures r.finished ==> 0 < r.consumed
    ensures !r.finished ==> r.consumed == |events|
    ensures forall x <- r.trace :: !x.Total?
    decreases |events|
  {
    if events == [] then Run(st, [], 0, false)
    else
      var t := Step(st, events[0], clock[0]);
      if t.next.finishedTasks == StreamCount then Run(t.next, t.out, 1, true)
      else
        var r := Fold(t.next, events[1..], clock[1..]);
        Run(r.status, t.out + r.trace, r.consumed + 1, r.finished)
  }

  /** The whole run of the renderer: the loop from the initial status, then
      the total time, read as `endSecs`, once the loop has stopped. */
  function Session(events: seq<Print>, clock: seq<nat>, endSecs: nat): (s: Run)
    requires |clock| == |events|
    ensures s.finished ==> |s.trace| > 0 && s.trace[|s.trace| - 1] == Total(endSecs)
    ensures forall i :: 0 <= i < |s.trace| && s.trace[i].Total? ==> s.finished && i == |s.trace| - 1
  {
    var r := Fold(Initial(), events, clock);
    r.(trace := r.trace + if r.finished then [Total(endSecs)] else [])
  }

  /** What `Fold` leaves after an earlier part of the loop rendered `trace`
      and took `consumed` events. */
  function Resume(trace: seq<Rendered>, consumed: nat, r: Run): Run
  {
    Run(r.status, trace + r.trace, consumed + r.consumed, r.finished)
  }

  /** One turn of the loop, taken at position `i` of the events. */
  lemma {:induction false} FoldFrom(st: Status, events: seq<Print>, clock: seq<nat>, i: nat)
    requires |clock| == |events| && i < |events|
    requires st.finishedTasks < StreamCount
    ensures var t := Step(st, events[i], clock[i]);
      Fold(st, events[i..], clock[i..])
        == if t.next.finishedTasks == StreamCount then Run(t.next, t.out, 1, true)
           else Resume(t.out, 1, Fold(t.next, events[i + 1..], clock[i + 1..]))
  {
    assert events[i..][0] == events[i] && clock[i..][0] == clock[i];
    assert events[i..][1..] == events[i + 1..];
    assert clock[i..][1..] == clock[i + 1..];
  }

  /** Resuming in two steps is resuming once from the combined prefix. */
  lemma {:induction false} ResumeAfter(trace: seq<Rendered>, consumed: nat, out: seq<Rendered>, r: Run)
    ensures Resume(trace, consumed, Resume(out, 1, r)) == Resume(trace + out, consumed + 1, r)
  {
    assert trace + (out + r.trace) == (trace + out) + r.trace;
  }

  /** The consuming loop of `main`: take events off the bus one at a time,
      update the status, stop once both streams have ended, then print the
      total time. */
  method Consume(events: seq<Print>, clock: seq<nat>, endSecs: nat)
    returns (status: Status, trace: seq<Rendered>, consumed: nat, finished: bool)
    requires |clock| == |events|
    ensures Run(status, trace, consumed, finished) == Session(events, clock, endSecs)
  {
    status := Initial();
    trace := [];
    consumed := 0;
    finished := false;
    ghost var whole := Fold(Initial(), events, clock);
    while consumed < |events|
      invariant consumed <= |events|
      invariant status.finishedTasks < StreamCount
      invariant whole == Resume(trace, consumed, Fold(status, events[consumed..], clock[consumed..]))
    {
      var t := Step(status, events[consumed], clock[consumed]);
      FoldFrom(status, events, clock, consumed);
      if t.next.finishedTasks == StreamCount {
        status, trace, consumed, finished := t.next, trace + t.out, consumed + 1, true;
        break;
      }
      ResumeAfter(trace, consumed, t.out, Fold(t.next, events[consumed + 1..], clock[consumed + 1..]));
      status, trace, consumed := t.next, trace + t.out, consumed + 1;
    }
    assert !finished ==> events[consumed..] == [] && clock[consumed..] == [] && trace + [] == trace;
    if finished {
      trace := trace + [Total(endSecs)];
    }
  }

  /** The number of `FinishedTasks` events in `s`. */
  function Ended(s: seq<Print>): nat
  {
    if s == [] then 0 else (if s[0].FinishedTasks? then 1 else 0) + Ended(s[1..])
  }

  /** The texts of the `Line` events in `s`, in order. */
  function LineTexts(s: seq<Print>): seq<string>
  {
    if s == [] then [] else (if s[0].Line? then [s[0].text] else []) + LineTexts(s[1..])
  }

  /** The texts of the output lines printed in `trace`, in order. */
  function Printed(trace: seq<Rendered>): seq<string>
  {
    if trace == [] then [] else (if trace[0].PrintLine? then [trace[0].text] else []) + Printed(trace[1..])
  }

  /** The timer values drawn in `trace`, in order. */
  function Drawn(trace: seq<Rendered>): seq<nat>
  {
    if trace == [] then [] else (if trace[0].DrawTime? then [trace[0].seconds] else []) + Drawn(trace[1..])
  }

  predicate NonDecreasing(clock: seq<nat>)
  {
    forall i, j :: 0 <= i < j < |clock| ==> clock[i] <= clock[j]
  }

  predicate StrictlyIncreasing(s: seq<nat>)
  {
    forall i, j :: 0 <= i < j < |s| ==> s[i] < s[j]
  }

  lemma {:induction false} EndedConcat(a: seq<Print>, b: seq<Print>)
    ensures Ended(a + b) == Ended(a) + Ended(b)
    decreases |a|
  {
    if a != [] {
      assert (a + b)[1..] == a[1..] + b;
      EndedConcat(a[1..], b);
    } else {
      assert a + b == b;
    }
  }

  lemma {:induction false} LineTextsConcat(a: seq<Print>, b: seq<Print>)
    ensures LineTexts(a + b) == LineTexts(a) + LineTexts(b)
    decreases |a|
  {
    if a != [] {
      assert (a + b)[1..] == a[1..] + b;
      LineTextsConcat(a[1..], b);
    } else {
      assert a + b == b;
    }
  }

  lemma {:induction false} PrintedConcat(a: seq<Rendered>, b: seq<Rendered>)
    ensures Printed(a + b) == Printed(a) + Printed(b)
    decreases |a|
  {
    if a != [] {
      assert (a + b)[1..] == a[1..] + b;
      PrintedConcat(a[1..], b);
    } else {
      assert a + b == b;
    }
  }

  lemma {:induction false} DrawnConcat(a: seq<Rendered>, b: seq<Rendered>)
    ensures Drawn(a + b) == Drawn(a) + Drawn(b)
    decreases |a|
  {
    if a != [] {
      assert (a + b)[1..] == a[1..] + b;
      DrawnConcat(a[1..], b);
    } else {
      assert a + b == b;
    }
  }

  /** The loop stops exactly at the event that ends the last expected stream:
      it stops iff the events end enough streams, the counter then counts the
      `FinishedTasks` taken so far, and the last event taken is one. Nothing
      after that event is consumed. */
  lemma {:induction false} FoldStopsAtLastStreamEnd(st: Status, events: seq<Print>, clock: seq<nat>)
    requires |clock| == |events|
    requires st.finishedTasks < StreamCount
    ensures var r := Fold(st, events, clock);
      && r.status.finishedTasks as int == st.finishedTasks as int + Ended(events[..r.consumed])
      && (r.finished <==> st.finishedTasks as int + Ended(events) >= StreamCount as int)
      && (r.finished ==> events[r.consumed - 1] == FinishedTasks)
    decreases |events|
  {
    if events != [] {
      var t := Step(st, events[0], clock[0]);
      var r := Fold(st, events, clock);
      if t.next.finishedTasks == StreamCount {
        assert events[..1] == [events[0]];
        assert Ended(events[..1]) == 1;
      } else {
        FoldStopsAtLastStreamEnd(t.next, events[1..], clock[1..]);
        var r' := Fold(t.next, events[1..], clock[1..]);
        assert events[..r.consumed][1..] == events[1..][..r'.consumed];
        assert r.finished ==> events[r.consumed - 1] == events[1..][r'.consumed - 1];
      }
    }
  }

  /** Every `Line` event the loop takes is printed as-is, once and in order,
      and nothing else is printed. */
  lemma {:induction false} FoldPrintsConsumedLines(st: Status, events: seq<Print>, clock: seq<nat>)
    requires |clock| == |events|
    requires st.finishedTasks < StreamCount
    ensures var r := Fold(st, events, clock); Printed(r.trace) == LineTexts(events[..r.consumed])
    decreases |events|
  {
    if events != [] {
      var t := Step(st, events[0], clock[0]);
      var r := Fold(st, events, clock);
      assert Printed(t.out) == LineTexts([events[0]]);
      if t.next.finishedTasks == StreamCount {
        assert events[..r.consumed] == [events[0]];
      } else {
        FoldPrintsConsumedLines(t.next, events[1..], clock[1..]);
        var r' := Fold(t.next, events[1..], clock[1..]);
        assert events[..r.consumed] == [events[0]] + events[1..][..r'.consumed];
        PrintedConcat(t.out, r'.trace);
        LineTextsConcat([events[0]], events[1..][..r'.consumed]);
      }
    }
  }

  /** `lastLine` records what was rendered last: `Time` exactly when the last
      item the loop rendered is the timer, and the starting value when the loop
      rendered nothing. */
  lemma {:induction false} LastLineRecordsLastRender(st: Status, events: seq<Print>, clock: seq<nat>)
    requires |clock| == |events|
    requires st.finishedTasks < StreamCount
    ensures var r := Fold(st, events, clock);
      && (r.trace == [] ==> r.status.lastLine == st.lastLine)
      && (r.trace != [] ==> (r.status.lastLine == Time <==> r.trace[|r.trace| - 1].DrawTime?))
    decreases |events|
  {
    if events != [] {
      var t := Step(st, events[0], clock[0]);
      if t.next.finishedTasks != StreamCount {
        LastLineRecordsLastRender(t.next, events[1..], clock[1..]);
      }
    }
  }

  /** With a clock that never goes back, every timer value drawn is later
      than the seconds seen before, and each one is later than the one drawn
      before it. */
  lemma {:induction false} DrawnIncreasing(st: Status, events: seq<Print>, clock: seq<nat>)
    requires |clock| == |events|
    requires st.finishedTasks < StreamCount
    requires NonDecreasing(clock)
    requires forall i :: 0 <= i < |clock| ==> st.prevSeconds <= clock[i]
    ensures var d := Drawn(Fold(st, events, clock).trace);
      && StrictlyIncreasing(d)
      && forall i :: 0 <= i < |d| ==> st.prevSeconds < d[i]
    decreases |events|
  {
    if events != [] {
      var t := Step(st, events[0], clock[0]);
      var r := Fold(st, events, clock);
      if t.next.finishedTasks == StreamCount {
        assert r.trace == [];
      } else {
        var r' := Fold(t.next, events[1..], clock[1..]);
        assert forall i :: 0 <= i < |clock[1..]| ==> t.next.prevSeconds <= clock[1..][i];
        DrawnIncreasing(t.next, events[1..], clock[1..]);
        DrawnConcat(t.out, r'.trace);
        if t.out == [DrawTime(clock[0])] {
          assert Drawn(t.out) == [clock[0]];
          PrependIncreasing(clock[0], Drawn(r'.trace));
        } else {
          assert Drawn(t.out) == [];
        }
      }
    }
  }

  lemma {:induction false} PrependIncreasing(x: nat, d: seq<nat>)
    requires StrictlyIncreasing(d)
    requires forall i :: 0 <= i < |d| ==> x < d[i]
    ensures StrictlyIncreasing([x] + d)
  {
    var e := [x] + d;
    forall i, j | 0 <= i < j < |e|
      ensures e[i] < e[j]
    {
      assert e[j] == d[j - 1];
      if i > 0 {
        assert e[i] == d[i - 1];
      }
    }
  }

  /** From the initial status, with a clock that never goes back, no timer
      value is drawn twice and second 0 is never drawn. */
  lemma {:induction false} NoDuplicateRedraw(events: seq<Print>, clock: seq<nat>, endSecs: nat)
    requires |clock| == |events|
    requires NonDecreasing(clock)
    ensures var d := Drawn(Session(events, clock, endSecs).trace);
      && (forall i, j :: 0 <= i < j < |d| ==> d[i] != d[j])
      && 0 !in d
  {
    var r := Fold(Initial(), events, clock);
    DrawnIncreasing(Initial(), events, clock);
    DrawnConcat(r.trace, if r.finished then [Total(endSecs)] else []);
    assert Drawn([Total(endSecs)]) == [];
  }
}
