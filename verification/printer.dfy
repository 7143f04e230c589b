/**
 * The printer loop as the source runs it: the cache, the queue and the
 * crate in focus are local variables updated in place, here the fields of a
 * `Printer`; `println!` appends to `output`. Each method is proved against
 * the state machine of `PrinterSpec`.
 */
module Printer {
  import opened PrinterSpec

  class Printer {
    var cache: Cache
    var queue: seq<string>
    var current: string
    var output: seq<Line>
    var phase: Phase

    function Snapshot(): State
      reads this
    {
      State(cache, queue, current, output, phase)
    }

    ghost predicate Valid()
      reads this
    {
      Wf(Snapshot())
    }

    /** Build the cache with one empty entry per crate and focus the first crate. */
    constructor (items: seq<string>)
      requires |items| > 0
      ensures Valid() && Snapshot() == Init(items)
      ensures forall id :: id in cache <==> id in items
      ensures forall id :: id in cache ==> cache[id] == []
      ensures current == items[0] && queue == items[1..]
      ensures output == [] && phase == Receiving
    {
      cache := map id | id in items :: [];
      queue := items[1..];
      current := items[0];
      output := [];
      phase := Receiving;
    }

    /** Handle one received message. */
    method Step(m: Msg)
      requires Valid() && phase == Receiving
      modifies this
      ensures Valid() && Snapshot() == Receive(old(Snapshot()), m)
      ensures m.exe == old(current) && m.num.Some? ==>
        output == old(output) + [(m.exe, m.num.value)]
        && cache == old(cache) && queue == old(queue) && current == old(current) && phase == Receiving
      ensures m.exe != old(current) && m.exe in old(cache) ==>
        cache == old(cache)[m.exe := old(cache)[m.exe] + [m.num]]
        && output == old(output) && queue == old(queue) && current == old(current) && phase == Receiving
      ensures m.exe != old(current) && m.exe !in old(cache) ==>
        phase == Panicked && cache == old(cache) && output == old(output)
    {
      match m.num
      case Some(n) =>
        if m.exe == current {
          output := output + [(m.exe, n)];
        } else if m.exe in cache {
          cache := cache[m.exe := cache[m.exe] + [Some(n)]];
        } else {
          phase := Panicked;
        }
      case None =>
        if m.exe == current {
          Advance();
        } else if m.exe in cache {
          cache := cache[m.exe := cache[m.exe] + [None]];
        } else {
          phase := Panicked;
        }
    }

    /**
     * The focused crate has finished: focus the next queued crate and print
     * its cache; if the cache ends the crate too, move on again; if the
     * queue is empty, the loop returns.
     */
    method Advance()
      requires Valid() && phase == Receiving
      modifies this
      ensures Valid() && Snapshot() == AdvanceFocus(old(Snapshot()))
    {
      ghost var goal := AdvanceFocus(Snapshot());
      label mrloopy:
      while true
        invariant Valid() && phase == Receiving
        invariant AdvanceFocus(Snapshot()) == goal
        decreases |queue|
      {
        ghost var before := Snapshot();
        if queue == [] {
          phase := Returned;
          return;
        }
        current, queue := queue[0], queue[1..];
        var entries := cache[current];
        ghost var next := before.(current := current, queue := queue,
                                  output := before.output + Flushed(current, entries));
        assert AdvanceFocus(before) == if None in entries then AdvanceFocus(next) else next;
        for i := 0 to |entries|
          invariant cache == next.cache && queue == next.queue && current == next.current
          invariant phase == Receiving
          invariant None !in entries[..i]
          invariant output == before.output + Flushed(current, entries[..i])
        {
          FlushedStep(current, entries, i);
          match entries[i]
          case Some(n) =>
            output := output + [(current, n)];
          case None =>
            continue mrloopy;
        }
        assert entries[..|entries|] == entries;
        assert Snapshot() == next;
        break;
      }
    }

    /** `recv` failed: print "done" and stop. */
    method Disconnect()
      requires Valid() && phase == Receiving
      modifies this
      ensures Valid() && Snapshot() == old(Snapshot()).(phase := Disconnected)
    {
      phase := Disconnected;
    }
  }

  /**
   * The outer receive loop over a finite `input`: handle messages until the
   * loop returns or panics, or until the input is exhausted, at which point
   * `recv` fails.
   */
  method PrinterLoop(items: seq<string>, input: seq<Msg>) returns (output: seq<Line>, phase: Phase)
    requires |items| > 0
    ensures output == Run(Init(items), input).output
    ensures phase == Run(Init(items), input).phase
  {
    var printer := new Printer(items);
    var t := 0;
    while true
      invariant 0 <= t <= |input|
      invariant printer.Valid() && printer.phase == Receiving
      invariant Feed(printer.Snapshot(), input[t..]) == Feed(Init(items), input)
      decreases |input| - t
    {
      if t == |input| {
        printer.Disconnect();
        break;
      }
      printer.Step(input[t]);
      t := t + 1;
      if printer.phase != Receiving {
        break;
      }
    }
    output, phase := printer.output, printer.phase;
  }
}
