/** The producers of rtime's event bus: one reader per output stream of the
    child, and the ticker. Each is modelled by the sequence of events it sends,
    in its own order; blocking on the single-slot channel and sleeping are not
    modelled. */
module Producers {
  import opened Renderer

  /** The events a reader sends for a stream holding `lines`: each line
      followed by a tick, then one end-of-stream event. */
  function ReaderEvents(lines: seq<string>): seq<Print>
  {
    if lines == [] then [FinishedTasks]
    else [Line(lines[0]), ElapsedTime] + ReaderEvents(lines[1..])
  }

  /** A reader thread: for every line of its stream, send the line and a tick;
      at the end of the stream, send `FinishedTasks`. */
  method ReadStream(lines: seq<string>) returns (sent: seq<Print>)
    ensures sent == ReaderEvents(lines)
  {
    sent := [];
    var i := 0;
    while i < |lines|
      invariant i <= |lines|
      invariant sent + ReaderEvents(lines[i..]) == ReaderEvents(lines)
    {
      assert lines[i..][1..] == lines[i + 1..];
      sent := sent + [Line(lines[i]), ElapsedTime];
      i := i + 1;
    }
    assert lines[i..] == [];
    sent := sent + [FinishedTasks];
  }

  /** The ticker thread, observed after it has sent `n` events: every one of
      them is a tick. */
  method Ticker(n: nat) returns (sent: seq<Print>)
    ensures |sent| == n
    ensures forall i :: 0 <= i < |sent| ==> sent[i] == ElapsedTime
  {
    sent := [];
    while |sent| < n
      invariant |sent| <= n
      invariant forall i :: 0 <= i < |sent| ==> sent[i] == ElapsedTime
    {
      sent := sent + [ElapsedTime];
    }
  }

  /** A reader sends line `k` at position `2k` and a tick right after it,
      and its last event is `FinishedTasks`. */
  lemma {:induction false} ReaderEventsLayout(lines: seq<string>)
    ensures var s := ReaderEvents(lines);
      && |s| == 2 * |lines| + 1
      && (forall k :: 0 <= k < |lines| ==> s[2 * k] == Line(lines[k]) && s[2 * k + 1] == ElapsedTime)
      && s[|s| - 1] == FinishedTasks
    decreases |lines|
  {
    if lines != [] {
      var s := ReaderEvents(lines);
      var rest := ReaderEvents(lines[1..]);
      ReaderEventsLayout(lines[1..]);
      assert s == [Line(lines[0]), ElapsedTime] + rest;
      forall k | 0 < k < |lines|
        ensures s[2 * k] == Line(lines[k]) && s[2 * k + 1] == ElapsedTime
      {
        assert s[2 * k] == rest[2 * (k - 1)];
        assert lines[k] == lines[1..][k - 1];
      }
    }
  }

  /** A reader sends exactly one `FinishedTasks`, as its last event. */
  lemma {:induction false} ReaderEndsOnce(lines: seq<string>)
    ensures var s := ReaderEvents(lines);
      && (forall i :: 0 <= i < |s| - 1 ==> !s[i].FinishedTasks?)
      && Ended(s) == 1
    decreases |lines|
  {
    var s := ReaderEvents(lines);
    if lines != [] {
      var rest := ReaderEvents(lines[1..]);
      ReaderEndsOnce(lines[1..]);
      assert s == [Line(lines[0]), ElapsedTime] + rest;
      assert s[1..] == [ElapsedTime] + rest;
      assert s[1..][1..] == rest;
    } else {
      assert s[1..] == [];
    }
  }

  /** The lines a reader sends are its stream's lines, in order. */
  lemma {:induction false} ReaderSendsLines(lines: seq<string>)
    ensures LineTexts(ReaderEvents(lines)) == lines
    decreases |lines|
  {
    var s := ReaderEvents(lines);
    if lines != [] {
      var rest := ReaderEvents(lines[1..]);
      ReaderSendsLines(lines[1..]);
      assert s == [Line(lines[0]), ElapsedTime] + rest;
      assert s[1..] == [ElapsedTime] + rest;
      assert s[1..][1..] == rest;
    } else {
      assert s[1..] == [];
    }
  }

  /** A prefix of a reader's events holds its end-of-stream event only when it
      is the whole sequence. */
  lemma {:induction false} ReaderPrefixEnded(lines: seq<string>, i: nat)
    requires i <= |ReaderEvents(lines)|
    ensures Ended(ReaderEvents(lines)[..i]) == if i == |ReaderEvents(lines)| then 1 else 0
  {
    var s := ReaderEvents(lines);
    ReaderEndsOnce(lines);
    if i == |s| {
      assert s[..i] == s;
    } else {
      NoStreamEnd(s[..i]);
    }
  }

  /** Events none of which is `FinishedTasks` end no stream. */
  lemma {:induction false} NoStreamEnd(s: seq<Print>)
    requires forall i :: 0 <= i < |s| ==> !s[i].FinishedTasks?
    ensures Ended(s) == 0
    decreases |s|
  {
    if s != [] {
      NoStreamEnd(s[1..]);
    }
  }

  /** Events none of which is a `Line` carry no output text. */
  lemma {:induction false} NoLines(s: seq<Print>)
    requires forall i :: 0 <= i < |s| ==> !s[i].Line?
    ensures LineTexts(s) == []
    decreases |s|
  {
    if s != [] {
      NoLines(s[1..]);
    }
  }
}
