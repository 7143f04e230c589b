# Ordered test-progress printer

The test runner starts one thread per test crate. Each crate reports on a
shared channel:

- `(name, Some(n))` after test `n` has finished;
- `(name, None)` when the crate is done.

A single printer loop (`printer_loop`) receives these messages in whatever
order they arrive. It prints every crate's progress in the fixed order of the
crate list `items`, without waiting for slow crates any longer than it must.
It keeps three pieces of state:

- a cache of messages per crate;
- a queue of crates not yet in focus;
- the crate in focus.

It handles each message as follows:

- a message of the crate in focus is printed at once;
- a message of any other crate is appended to that crate's cache entry;
- when the crate in focus sends its end, the labelled `'mrloopy` loop pops the next crate, prints its cached progress, and moves on again if the cache shows that crate has already finished.

The loop returns when the queue runs out. It prints "done" and stops if the channel disconnects first.

The project models this loop and proves that it orders the output. For any
interleaving in which each crate's own messages keep their order, every crate
is a member of `items` and sends nothing after its end, every crate ends, and
the crate names are distinct, the loop returns. By then it has printed
exactly each crate's progress lines in the order they were sent, crate by
crate in `items` order.

Files:

- `printer_spec.dfy` (module `PrinterSpec`): the loop as a pure state machine over a value `State`.
  - `Init` builds the cache and the queue.
  - `Receive` handles one message, and `AdvanceFocus` is the `'mrloopy` loop.
  - `Feed` receives a whole input.
  - `Run` adds the disconnection at the end of the input.
- `printer.dfy` (module `Printer`): the loop as the source runs it. It is a class `Printer` whose fields `cache`, `queue`, `current`, `output` and `phase` are updated in place.
  - `Advance` keeps the labelled loop with its nested `for` and `continue mrloopy`.
  - `PrinterLoop` is the outer `loop` over `recv`.
  - Every method is proved against the state machine.
- `test_crate.dfy` (module `TestCrate`): the messages one test crate sends, `Some(0), …, Some(4), None`.
- `ordering.dfy` (module `Ordering`): the ordering guarantee and its corollaries. The invariant behind it says the loop's state is determined by the messages received so far:
  - the crate in focus is the first crate of `items` whose end has not arrived;
  - every crate behind it has exactly its received messages cached;
  - the output is what the crates up to the focus have sent, flushed in `items` order.

The channel is modelled as a finite input sequence, one interleaving of all
the crates' messages. `recv` takes its next element, and a receive error is
the end of the sequence. A printed line `"<name> - <n>"` is the pair
`(name, n)`, and the output is the sequence of those pairs. The "done" line
is the phase `Disconnected`. The `unwrap` on a name with no cache entry
(`src/main.rs` lines 29 and 55) is the phase `Panicked`. It is not a
precondition, so the model is total over every input.

The source never removes a crate's cache entry after flushing it, and the
model keeps it too. When the crate names are distinct, `FocusedAtMostOnce`
shows that a crate the focus has left is never focused or queued again. A kept
entry is therefore never flushed a second time. With a repeated name it can
be flushed twice, as `RepeatedNamePrintsTwice` shows, and the loop can wait
for an end that has already arrived, as `RepeatedNameWaits` shows.

## Model

| member | source | states |
|---|---|---|
| PrinterSpec.Init | src/main.rs:12-20 | Every crate of `items` has an empty cache entry and nothing else has one. The first crate is in focus and the queue holds the rest in `items` order. Nothing is printed and the loop is receiving. |
| Printer.Printer.constructor | src/main.rs:12-20 | The fields hold exactly `Init(items)`: an empty entry per crate, the first crate in focus, the others queued in order. |
| PrinterSpec.FlushedUpToEnd | src/main.rs:43-50 | `Flushed` is the walk of the `for` over a cache entry. Walking a cache entry prints `(id, n)` for each `Some(n)` in arrival order. It stops exactly at the first `None`, or at the end of the entry if there is none. |
| PrinterSpec.FlushedStep | src/main.rs:43-50 | One iteration of the `for` over a cache entry: a `Some(n)` adds the line `(id, n)`, and a `None` leaves the walk with everything printed that the entry allows. |
| PrinterSpec.FirstOpen | src/main.rs:37-53 | The index of the first queued crate whose cache holds no `None`. Every crate before it has already sent its end. |
| PrinterSpec.AdvanceFocus | src/main.rs:37-53 | Advancing keeps the cache and every lookup valid. It ends either still receiving (`break`) or returned (`return`). |
| PrinterSpec.AdvanceFocusPops | src/main.rs:37-53 | With `k` the first queued crate whose cache holds no `None`, the advance pops the crates up to and including it and prints their caches in queue order. It stops with that crate in focus and the rest of the queue left. If every queued crate has finished, it empties the queue and returns. |
| PrinterSpec.Receive | src/main.rs:23-57 | One message keeps every cache lookup valid and panics exactly when its crate is neither in focus nor in the cache. It takes back nothing printed, adds or removes no cache entry, only appends to entries, and only pops the queue from the front. |
| PrinterSpec.ReceiveFocusProgress | src/main.rs:25-27 | `Some(n)` from the crate in focus appends `(name, n)` to the output and changes nothing else. |
| PrinterSpec.ReceiveBehind | src/main.rs:28-30 | A message (`Some(n)` here, `None` at line 55) from a known crate not in focus is appended to that crate's cache entry only. Output, queue, focus and every other entry are unchanged. |
| PrinterSpec.ReceiveFocusEnd | src/main.rs:33-37 | The end of the crate in focus runs the advance loop. |
| Printer.Printer.Step | src/main.rs:23-57 | Handling one message in place yields `Receive` of the old state. The method restates the three cases: print at once, append to that crate's cache only, or panic on an unknown crate. |
| Printer.Printer.Advance | src/main.rs:37-53 | The labelled loop with its nested `for` and `continue 'mrloopy`, run on the fields, yields exactly `AdvanceFocus` of the old state. |
| Printer.Printer.Disconnect | src/main.rs:59-62 | A receive error prints "done" and stops, changing nothing else. |
| PrinterSpec.Feed | src/main.rs:21-23 | Receiving a sequence of messages never takes back printed lines. It adds or removes no cache entry and only appends to entries. It only shortens the queue from the front. Once the loop has stopped, further input changes nothing. |
| PrinterSpec.FeedSnoc | src/main.rs:21-23 | One more message handles the state after the earlier messages, if the loop is still receiving. |
| PrinterSpec.FeedAppend | src/main.rs:21-23 | Receiving two inputs in turn is receiving their concatenation. |
| PrinterSpec.FeedPrefixFollows | src/main.rs:38-39 | Between any two points of a run, the queue only loses crates at its front and the focus is the last crate popped. Printed lines are never taken back and cache entries only grow at their end. |
| PrinterSpec.Run | src/main.rs:59-62 | The loop always stops. It ends `Disconnected` exactly when the input runs out while it is still receiving. The output and cache are those of the received messages. |
| Printer.PrinterLoop | src/main.rs:21-65 | The outer `loop` over `recv`, run on a `Printer`, returns the output and the final phase of `Run(Init(items), input)`. |
| TestCrate.RunTestCrate | src/main.rs:68-77 | A test crate sends `Some(0)` to `Some(4)` under its name, then one `None`. |
| Ordering.FlushedIsProgress | src/main.rs:43-50 | For a crate that sends nothing after its end, walking everything it has sent prints exactly its progress lines in arrival order. |
| Ordering.InitAgrees | src/main.rs:12-20 | Before any message, the state is the one the empty input determines. |
| Ordering.StepBehind | src/main.rs:28-30 | A message of a crate queued behind the focus keeps the invariant: that crate's cache is exactly what it has sent. |
| Ordering.StepFocusProgress | src/main.rs:25-27 | A progress message of the crate in focus keeps the invariant: it is printed right after that crate's earlier lines. |
| Ordering.StepFocusEnd | src/main.rs:33-53 | The end of the crate in focus moves the focus to the next crate of `items` whose end has not arrived, having printed everything the crates passed have sent. If there is none, the loop returns. |
| Ordering.AdvanceConsistent | src/main.rs:37-53 | Advancing past a finished focus reaches exactly the state that the messages received so far determine. |
| Ordering.StepAgrees | src/main.rs:23-57 | On a well-behaved input the loop is still receiving when each message arrives, and the message keeps the invariant. |
| Ordering.FeedAgrees | src/main.rs:21-65 | After any prefix of a well-behaved input, the loop's state is the one that prefix determines. |
| Ordering.PrinterOrdersOutput | src/main.rs:21-65 | For distinct crate names, once every crate has ended, whatever the interleaving, the loop has returned. It has printed each crate's progress lines in the order sent, crate by crate in `items` order. |
| Ordering.FocusedAtMostOnce | src/main.rs:37-50 | For distinct names, at two points of a run the focus is the same crate exactly when the queue has not changed. Once the queue has changed, no crate focused at the earlier point is in focus or queued again. As a consequence, not part of this contract, each entry is flushed at most once; on well-behaved inputs `FeedAgrees` states the output outright as `FlushAll(items[..c + 1], pc)`, each crate up to the focus flushed once. |
| Ordering.RepeatedNamePrintsTwice | src/main.rs:37-50 | The distinct-names hypothesis is needed. With `items` `[b, a, a]` and the input `a: Some(n)`, `a: None`, `b: None`, the loop returns having printed `(a, n)` twice, because the kept entry of `a` is flushed at both pops of `a`. |
| Ordering.RepeatedNameWaits | src/main.rs:37-53 | With `items` `[a, b, a]` and the complete input `a: Some(n)`, `a: None`, `b: None`, the loop prints `(a, n)` once and ends `Disconnected`, while `InItemsOrder` has that line twice. The progress of `a` was printed while `a` was in focus, so nothing is cached for it. The second pop of `a` finds an empty entry and breaks, and the loop waits for an end of `a` that already arrived until the input runs out. |
| Ordering.ConsumesWholeInput | src/main.rs:38-41 | On a well-behaved input the loop is still receiving before every message, so it returns on the last message at the earliest and drops none. |
| Ordering.PrintedSoFar | src/main.rs:59-62 | A well-behaved input cut off before its last message ends in "done". What was printed is a prefix of every crate's messages in the whole input, flushed in `items` order. |
| Ordering.EarlyEndPrintsPrefix | src/main.rs:59-62 | A complete input cut off early ends in "done". The lines printed are a prefix of the complete run's output. |
| Ordering.TestCrateProgress | src/main.rs:68-77 | A crate sending a test-crate stream sends nothing after its end, does end, and has the progress lines `(name, 0)` to `(name, 4)`. |
| Ordering.TestCratesPrintInOrder | src/main.rs:68-77 | For test crates with distinct names, in any interleaving, the loop returns having printed `5 * |items|` lines. Line `i` is `(items[i / 5], i % 5)`, and no line is printed twice. |

## Left out

- Thread spawning and joining, and the `tx_done`/`rx_done` token channel that limits how many crates run at once, are left out. They only decide how the crates' messages interleave, and the model quantifies over every interleaving.
- The channels are not modelled as concurrent queues. A receive is the next element of a finite input, and disconnection is the end of the input. Each crate's messages are assumed to keep their order, as the channel guarantees per sender.
- `std::thread::sleep` and the per-crate delays in `items` are left out, because they only affect timing. `items` is modelled as the list of crate names.
- `println!` formatting is left out. A line is the pair `(name, n)` and the "done" line is the phase `Disconnected`.
- `main` is glue and is not modelled. The `unwrap` panics on failed sends are left out: a send only fails when the printer has gone.
- PrinterSpec.Init: an empty `items` panics on the `unwrap` at line 20. The model requires a non-empty list instead of modelling that panic.
- Ordering.PrinterOrdersOutput: the ordering theorems, and `FocusedAtMostOnce`, assume distinct crate names. With a repeated name the queue focuses that crate twice and can print its cache twice, as `RepeatedNamePrintsTwice` shows. A repeated name can also leave the loop waiting for an end that has already arrived, which the model shows as ending `Disconnected`, as `RepeatedNameWaits` shows.
