/** The fan-in of rtime: the two readers and the ticker share one bus, and
    the renderer sees their events in some order that keeps each producer's
    own order. Whatever that order, the renderer ends the same way. */
module Fanin {
  import opened Merge
  import opened Renderer
  import opened Producers

  /** A merge ends as many streams as its two parts together. */
  lemma {:induction false} EndedOfInterleaving(m: seq<Print>, a: seq<Print>, b: seq<Print>)
    requires Interleaving(m, a, b)
    ensures Ended(m) == Ended(a) + Ended(b)
    decreases |m|
  {
    if m != [] {
      if a != [] && m[0] == a[0] && Interleaving(m[1..], a[1..], b) {
        EndedOfInterleaving(m[1..], a[1..], b);
      } else {
        EndedOfInterleaving(m[1..], a, b[1..]);
      }
    }
  }

  /** The lines carried by a merge are a merge of the lines of its parts. */
  lemma {:induction false} LinesOfInterleaving(m: seq<Print>, a: seq<Print>, b: seq<Print>)
    requires Interleaving(m, a, b)
    ensures Interleaving(LineTexts(m), LineTexts(a), LineTexts(b))
    decreases |m|
  {
    if m != [] {
      if a != [] && m[0] == a[0] && Interleaving(m[1..], a[1..], b) {
        LinesOfInterleaving(m[1..], a[1..], b);
        if m[0].Line? {
          assert LineTexts(m) == [m[0].text] + LineTexts(m[1..]);
          assert LineTexts(a) == [m[0].text] + LineTexts(a[1..]);
          assert LineTexts(m)[1..] == LineTexts(m[1..]);
          assert LineTexts(a)[1..] == LineTexts(a[1..]);
        } else {
          assert LineTexts(m) == LineTexts(m[1..]);
          assert LineTexts(a) == LineTexts(a[1..]);
        }
      } else {
        LinesOfInterleaving(m[1..], a, b[1..]);
        if m[0].Line? {
          assert LineTexts(m) == [m[0].text] + LineTexts(m[1..]);
          assert LineTexts(b) == [m[0].text] + LineTexts(b[1..]);
          assert LineTexts(m)[1..] == LineTexts(m[1..]);
          assert LineTexts(b)[1..] == LineTexts(b[1..]);
        } else {
          assert LineTexts(m) == LineTexts(m[1..]);
          assert LineTexts(b) == LineTexts(b[1..]);
        }
      }
    }
  }

  /** Where the loop stops on such a bus: it does stop, and the events it
      took merge all of both readers' events with some of the ticks, while the
      events it left are the remaining ticks. */
  lemma {:induction false} CutAtStop(out: seq<string>, err: seq<string>, readers: seq<Print>, ticks: seq<Print>,
                                     bus: seq<Print>, clock: seq<nat>)
    returns (k: nat)
    requires Interleaving(readers, ReaderEvents(out), ReaderEvents(err))
    requires forall i :: 0 <= i < |ticks| ==> ticks[i] == ElapsedTime
    requires Interleaving(bus, readers, ticks)
    requires |clock| == |bus|
    ensures var r := Fold(Initial(), bus, clock);
      && r.finished
      && k <= |ticks|
      && Interleaving(bus[..r.consumed], readers, ticks[..k])
      && Interleaving(bus[r.consumed..], [], ticks[k..])
  {
    var a, b := ReaderEvents(out), ReaderEvents(err);
    ReaderEndsOnce(out);
    ReaderEndsOnce(err);
    EndedOfInterleaving(readers, a, b);
    NoStreamEnd(ticks);
    EndedOfInterleaving(bus, readers, ticks);
    FoldStopsAtLastStreamEnd(Initial(), bus, clock);
    var c := Fold(Initial(), bus, clock).consumed;

    // Cut the bus right after the last event taken, then the readers' merge
    // at the matching point: both readers must be used up by then.
    var i;
    i, k := SplitInterleaving(bus, readers, ticks, c);
    EndedOfInterleaving(bus[..c], readers[..i], ticks[..k]);
    NoStreamEnd(ticks[..k]);
    var i1, i2 := SplitInterleaving(readers, a, b, i);
    EndedOfInterleaving(readers[..i], a[..i1], b[..i2]);
    ReaderPrefixEnded(out, i1);
    ReaderPrefixEnded(err, i2);
    assert a[i1..] == [] && b[i2..] == [];
    InterleavingLength(readers[i..], a[i1..], b[i2..]);
    assert readers[..i] == readers && readers[i..] == [];
  }

  /** Take the events of the two readers, for streams holding `out` and `err`,
      merged in any order that keeps each reader's own order, and add any
      number of ticks anywhere. Then the loop stops, exactly at the second
      end-of-stream event; after it the bus holds nothing but ticks; every
      line of both streams was printed by then, each stream's lines in their
      order; and one total-time line closes the trace. */
  lemma {:induction false} BusOutcome(out: seq<string>, err: seq<string>, readers: seq<Print>, ticks: seq<Print>,
                                      bus: seq<Print>, clock: seq<nat>, endSecs: nat)
    requires Interleaving(readers, ReaderEvents(out), ReaderEvents(err))
    requires forall i :: 0 <= i < |ticks| ==> ticks[i] == ElapsedTime
    requires Interleaving(bus, readers, ticks)
    requires |clock| == |bus|
    ensures var s := Session(bus, clock, endSecs);
      && s.finished
      && s.status.finishedTasks == StreamCount
      && 0 < s.consumed
      && bus[s.consumed - 1] == FinishedTasks
      && Ended(bus[..s.consumed]) == 2
      && (forall i :: s.consumed <= i < |bus| ==> bus[i] == ElapsedTime)
      && Interleaving(Printed(s.trace), out, err)
      && s.trace[|s.trace| - 1] == Total(endSecs)
      && (forall i :: 0 <= i < |s.trace| - 1 ==> !s.trace[i].Total?)
  {
    var k := CutAtStop(out, err, readers, ticks, bus, clock);
    FoldStopsAtLastStreamEnd(Initial(), bus, clock);
    var r := Fold(Initial(), bus, clock);
    var c := r.consumed;
    InterleavingWithEmpty(bus[c..], [], ticks[k..]);
    forall j | c <= j < |bus|
      ensures bus[j] == ElapsedTime
    {
      assert bus[j] == bus[c..][j - c];
    }

    // The lines printed are those taken, which are all the readers' lines.
    FoldPrintsConsumedLines(Initial(), bus, clock);
    LinesOfInterleaving(bus[..c], readers, ticks[..k]);
    NoLines(ticks[..k]);
    InterleavingWithEmpty(LineTexts(bus[..c]), LineTexts(readers), LineTexts(ticks[..k]));
    LinesOfInterleaving(readers, ReaderEvents(out), ReaderEvents(err));
    ReaderSendsLines(out);
    ReaderSendsLines(err);
    var s := Session(bus, clock, endSecs);
    assert s.trace == r.trace + [Total(endSecs)];
    PrintedConcat(r.trace, [Total(endSecs)]);
    assert Printed([Total(endSecs)]) == [];
    assert Printed(s.trace) == LineTexts(readers);
  }
}
