# rtime renderer, modelled in Dafny

rtime runs a shell command and copies the child's standard output and standard
error lines to the terminal. While the command runs, it keeps a timer `[Ns]`
redrawn in place. When both output streams have ended it prints the total time.
Three producers feed one event bus of `Print` events:

- one reader per output stream sends each line followed by a tick, then one
  end-of-stream event;
- a ticker sends a tick every half second.

The single consumer folds the events into a `Status` record.

This project models that consumer, the producers and every order in which the
bus can deliver their events:

- `merge.dfy` (module `Merge`) defines `Interleaving(m, a, b)`: `m` is a
  merge of `a` and `b` that keeps each part's own order. It also proves that
  a merge can be cut into merges of prefixes and of suffixes.
- `renderer.dfy` (module `Renderer`) holds the `Print`, `LastLine` and
  `Status` types:
  - the transition for one event (`Tick`, `Step`);
  - the loop as a recursive fold that stops after the second end-of-stream
    event (`Fold`), and the whole run including the total-time line
    (`Session`);
  - the loop written as a method (`Consume`), proved equal to `Session`;
  - lemmas about what the loop consumes, prints and draws.
- `producers.dfy` (module `Producers`) holds the event sequence of a reader
  (`ReaderEvents`) and the reader and ticker loops as methods, with lemmas on
  that sequence.
- `fanin.dfy` (module `Fanin`) holds the outcome theorem. For any merge of the
  two readers' events with any number of ticks, the loop:
  - stops exactly at the second end-of-stream event;
  - leaves only ticks unconsumed;
  - has printed every line of both streams, each stream in its own order;
  - ends the trace with one total-time line.

The terminal is a trace of `Rendered` items: `DrawTime(s)`, `PrintLine(text)`
and `Total(s)`. The clock is a sequence of natural numbers parallel to the
events: `clock[i]` is the value of `start.elapsed().as_secs()` when the loop
handles event `i`. `endSecs` is the value read for the total. A finite event
sequence that does not end both streams stands for a loop still waiting on
the bus. The bus never closes: `main` keeps its own sender and the ticker
never stops. Such a run prints no total.

## Model

| member | source | states |
|---|---|---|
| Renderer.Tick | src/main.rs:118-142 | on a tick at `now` seconds, `prevSeconds` becomes `now` and the counter is kept; the timer is drawn, once, as `DrawTime(now)` with `lastLine` set to `Time`, if and only if `now` differs from `prevSeconds`; otherwise the status is unchanged and nothing is drawn |
| Renderer.Step | src/main.rs:72-83 | one event: a `Line` prints exactly its text, sets `lastLine` to `Output` and keeps seconds and counter; a `FinishedTasks` adds exactly 1 to the counter, renders nothing and keeps `lastLine` and seconds; an `ElapsedTime` is `Tick` |
| Renderer.Fold | src/main.rs:71-87 | the loop never consumes more events than exist; the counter never exceeds 2; the loop has stopped exactly when the counter is 2, after at least one event; a loop that has not stopped took every event; the loop itself never renders a total |
| Renderer.Session | src/main.rs:84-90 | a stopped loop's trace ends with `Total(endSecs)`, and that is the only total in any trace; a loop that has not stopped shows no total |
| Renderer.Consume | src/main.rs:66-90 | the imperative loop from status `(Output, 0, 0)`, breaking when the counter reaches 2 and then printing the total, yields exactly the status, trace, number of consumed events and stop flag of `Session` |
| Renderer.FoldStopsAtLastStreamEnd | src/main.rs:79-86 | the counter equals the starting count plus the end-of-stream events taken; the loop stops if and only if the events end enough streams; when it stops, the last event taken is an end-of-stream event, so nothing after it is consumed |
| Renderer.FoldPrintsConsumedLines | src/main.rs:74-78 | the printed lines of the trace are exactly the texts of the `Line` events consumed, in order |
| Renderer.LastLineRecordsLastRender | src/main.rs:72-83 | after the loop, `lastLine` is `Time` exactly when the last rendered item is the timer, and is the starting value when nothing was rendered |
| Renderer.DrawnIncreasing | src/main.rs:128-140 | with a clock that never goes back, the drawn timer values are strictly increasing and all exceed the starting `prevSeconds` |
| Renderer.NoDuplicateRedraw | src/main.rs:66-70 | from the initial status, with a clock that never goes back, no timer value is drawn twice in a whole run and second 0 is never drawn |
| Producers.ReadStream | src/main.rs:98-105 | the reader loop sends exactly `ReaderEvents(lines)` |
| Producers.Ticker | src/main.rs:109-116 | after `n` sends the ticker has sent `n` events, all of them `ElapsedTime` |
| Producers.ReaderEventsLayout | src/main.rs:100-104 | a reader's events have length `2n+1`; line `k` is at position `2k` with a tick right after it; the last event is `FinishedTasks` |
| Producers.ReaderEndsOnce | src/main.rs:100-104 | a reader sends exactly one `FinishedTasks`, and no event before its last is one |
| Producers.ReaderSendsLines | src/main.rs:100-102 | the texts a reader sends are its stream's lines, in order |
| Producers.ReaderPrefixEnded | src/main.rs:100-104 | a prefix of a reader's events ends its stream exactly when it is the whole sequence |
| Fanin.EndedOfInterleaving | src/main.rs:59-63 | a merge of two event sequences ends as many streams as both together |
| Fanin.LinesOfInterleaving | src/main.rs:59-63 | the line texts of a merge are a merge of the line texts of its parts |
| Fanin.CutAtStop | src/main.rs:59-87 | on any merge of both readers with ticks the loop stops; the events taken merge all of both readers with some ticks, and the events left are the remaining ticks |
| Fanin.BusOutcome | src/main.rs:59-89 | on any such bus the run stops with counter 2 exactly at the second end-of-stream event; only ticks remain after it; the printed lines merge both streams' lines in each stream's order; exactly one total, last in the trace |
| Merge.InterleavingLength | src/main.rs:59-63 | a merge is as long as its two parts together |
| Merge.InterleavingWithEmpty | src/main.rs:59-63 | merging with an empty sequence yields the other sequence |
| Merge.SplitInterleaving | src/main.rs:59-63 | cutting a merge at any point cuts each part at some point, into a merge of prefixes followed by a merge of suffixes |

## Left out

- Process spawning: `sh -c` over the joined arguments and the panic when no command is given (src/main.rs:43-55) are operating-system plumbing.
- Threads and the channel: the 500 ms sleep and the blocking of `sync_channel(1)` are not modelled. Only each producer's own order is kept, and every merge of the producers is allowed.
- Terminal control: raw mode, cursor position, clearing the line, moving the cursor and flushing belong to the termion library. Each timer draw is a single `DrawTime` item. The `unwrap` panics of those calls are not modelled.
- Output text: the exact formats `[{}s]` and `>>>  Total time: {}  <<<`, and the trailing empty line (src/main.rs:90), are reduced to trace items.
- Clock: `Instant::now` and `elapsed().as_secs()` are replaced by the `clock` sequence and `endSecs`, which are given as inputs.
- Decoding: a line that is not valid UTF-8 makes `line.unwrap()` panic in the reader (src/main.rs:101). The model takes lines as already decoded strings.
- Send errors: the results of `send` are discarded in the source. The model assumes every send arrives.
- Producers.Ticker: the ticker's endless loop is observed after any finite number `n` of sends.
- Renderer.Step: a `FinishedTasks` on a counter already at 255 would overflow the `u8` in the source. The model requires the counter to be below 255, which the loop always keeps, since it stops at 2.
- Renderer.Tick: `prev_seconds` is a `u64` in the source and a natural number here. Wrap-around is not modelled; it cannot occur within a realistic run.
- `last_line` is kept up to date but never read by this version of the program. The model records it and proves what it means (`LastLineRecordsLastRender`).
