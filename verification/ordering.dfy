/**
 * The ordering guarantee of the printer loop. Whatever the interleaving of
 * the crates' messages, provided each crate's own messages arrive in the
 * order it sent them, the loop prints, crate by crate in the order of
 * `items`, each crate's progress numbers in the order they were sent.
 *
 * The proof shows that after any prefix `P` of the input the loop's state is
 * determined by `P`: the crate in focus is the first crate in `items` whose
 * end has not arrived, every crate behind it has exactly its received
 * messages cached, and the output is the flushed messages of every crate up
 * to the one in focus.
 */
module Ordering {
  import opened PrinterSpec
  import opened TestCrate

  predicate Distinct(items: seq<string>) {
    forall i, j :: 0 <= i < j < |items| ==> items[i] != items[j]
  }

  /** The messages crate `id` has sent in `input`, in arrival order. */
  function Sent(input: seq<Msg>, id: string): seq<Msg> {
    if input == [] then []
    else
      var last := input[|input| - 1];
      Sent(input[..|input| - 1], id) + (if last.exe == id then [last] else [])
  }

  /** The payloads crate `id` has sent in `input`, in arrival order. */
  function Proj(input: seq<Msg>, id: string): seq<Option<nat>> {
    if input == [] then []
    else
      var last := input[|input| - 1];
      Proj(input[..|input| - 1], id) + (if last.exe == id then [last.num] else [])
  }

  /** The progress lines of crate `id` in `input`, in arrival order. */
  function ProgressOf(input: seq<Msg>, id: string): seq<Line> {
    if input == [] then []
    else
      var last := input[|input| - 1];
      ProgressOf(input[..|input| - 1], id) +
        (if last.exe == id && last.num.Some? then [(id, last.num.value)] else [])
  }

  /** The intended output: every crate's progress lines, crate by crate in `items` order. */
  function InItemsOrder(items: seq<string>, input: seq<Msg>): seq<Line> {
    if items == [] then [] else ProgressOf(input, items[0]) + InItemsOrder(items[1..], input)
  }

  /** Per crate of `items`, what it has sent in `input`. */
  function ProjCache(items: seq<string>, input: seq<Msg>): (pc: Cache)
    ensures AllCached(items, pc)
    ensures forall k :: 0 <= k < |items| ==> pc[items[k]] == Proj(input, items[k])
  {
    map id | id in items :: Proj(input, id)
  }

  /** An end marker, if any, is the last entry. */
  predicate EndOnlyLast(s: seq<Option<nat>>) {
    forall i :: 0 <= i < |s| - 1 ==> s[i].Some?
  }

  /** Every message comes from a crate of `items`, and no crate sends after its end. */
  predicate WellBehaved(items: seq<string>, input: seq<Msg>) {
    && (forall i :: 0 <= i < |input| ==> input[i].exe in items)
    && (forall k :: 0 <= k < |items| ==> EndOnlyLast(Proj(input, items[k])))
  }

  /** A well-behaved input in which every crate of `items` has sent its end. */
  predicate Complete(items: seq<string>, input: seq<Msg>) {
    && WellBehaved(items, input)
    && (forall k :: 0 <= k < |items| ==> None in Proj(input, items[k]))
  }

  /**
   * The loop is focused on crate `items[c]`: the crates behind it have
   * exactly what `pc` records for them cached, and everything `pc` records
   * for the crates up to the focus has been printed in `items` order.
   */
  ghost predicate Focused(s: State, items: seq<string>, pc: Cache, c: nat)
    requires AllCached(items, pc) && c < |items|
  {
    && Wf(s) && AllCached(items, s.cache)
    && s.phase == Receiving && s.current == items[c] && s.queue == items[c + 1..]
    && (forall k :: c < k < |items| ==> s.cache[items[k]] == pc[items[k]])
    && s.output == FlushAll(items[..c + 1], pc)
  }

  /** The loop has returned after printing everything `pc` records, in `items` order. */
  ghost predicate Finished(s: State, items: seq<string>, pc: Cache)
    requires AllCached(items, pc)
  {
    Wf(s) && s.phase == Returned && s.output == FlushAll(items, pc)
  }

  /**
   * The printer state that a cache `pc` of everything each crate has sent so
   * far determines: the focus is on the first crate of `items` whose end
   * has not arrived; when every crate has ended, the loop has returned.
   */
  ghost predicate Consistent(s: State, items: seq<string>, pc: Cache)
    requires AllCached(items, pc)
  {
    var c := FirstOpen(items, pc);
    if c < |items| then Focused(s, items, pc, c) else Finished(s, items, pc)
  }

  /** The printer state that the input prefix `input` determines. */
  ghost predicate Agrees(s: State, items: seq<string>, input: seq<Msg>) {
    Consistent(s, items, ProjCache(items, input))
  }

  // ---------------------------------------------------------------------
  // Projections

  lemma ProjSnoc(input: seq<Msg>, m: Msg, id: string)
    ensures Proj(input + [m], id) == Proj(input, id) + (if m.exe == id then [m.num] else [])
  {
    assert (input + [m])[..|input|] == input;
  }

  /** What a crate has sent by some point is a prefix of what it sends in all. */
  lemma {:induction false} ProjPrefix(input: seq<Msg>, t: nat, id: string)
    requires t <= |input|
    ensures Proj(input[..t], id) <= Proj(input, id)
    decreases |input| - t
  {
    if t < |input| {
      var init := input[..|input| - 1];
      ProjPrefix(init, t, id);
      assert init[..t] == input[..t];
    } else {
      assert input[..t] == input;
    }
  }

  lemma {:induction false} ProjIsSent(input: seq<Msg>, id: string)
    ensures |Proj(input, id)| == |Sent(input, id)|
    ensures forall i :: 0 <= i < |Sent(input, id)| ==> Proj(input, id)[i] == Sent(input, id)[i].num
    decreases |input|
  {
    if input != [] {
      ProjIsSent(input[..|input| - 1], id);
    }
  }

  lemma AllCachedTake(ids: seq<string>, cache: Cache, n: nat)
    requires AllCached(ids, cache) && n <= |ids|
    ensures AllCached(ids[..n], cache)
  {
  }

  lemma TakeSnoc<T>(s: seq<T>, t: nat)
    requires t < |s|
    ensures s[..t] + [s[t]] == s[..t + 1]
  {
  }

  lemma ProjCachePrefix(items: seq<string>, input: seq<Msg>, t: nat)
    requires t <= |input|
    ensures forall k :: 0 <= k < |items| ==> ProjCache(items, input[..t])[items[k]] <= ProjCache(items, input)[items[k]]
  {
    forall k | 0 <= k < |items| ensures ProjCache(items, input[..t])[items[k]] <= ProjCache(items, input)[items[k]] {
      ProjPrefix(input, t, items[k]);
    }
  }

  lemma WellBehavedPrefix(items: seq<string>, input: seq<Msg>, t: nat)
    requires t <= |input| && WellBehaved(items, input)
    ensures WellBehaved(items, input[..t])
  {
    forall k | 0 <= k < |items| ensures EndOnlyLast(Proj(input[..t], items[k])) {
      ProjPrefix(input, t, items[k]);
    }
  }

  /**
   * For a crate that sends nothing after its end, flushing what it has sent
   * prints exactly its progress lines in arrival order.
   */
  lemma {:induction false} FlushedIsProgress(input: seq<Msg>, id: string)
    requires EndOnlyLast(Proj(input, id))
    ensures Flushed(id, Proj(input, id)) == ProgressOf(input, id)
    decreases |input|
  {
    if input != [] {
      var init, last := input[..|input| - 1], input[|input| - 1];
      assert init + [last] == input;
      ProjSnoc(init, last, id);
      var before := Proj(init, id);
      assert before <= Proj(input, id);
      assert EndOnlyLast(before);
      FlushedIsProgress(init, id);
      if last.exe == id {
        assert forall i :: 0 <= i < |before| ==> before[i] == Proj(input, id)[i] && before[i].Some?;
        assert None !in before;
        FlushedSnoc(id, before, last.num);
        assert Proj(input, id) == before + [last.num];
        assert ProgressOf(input, id) == ProgressOf(init, id) +
          (if last.num.Some? then [(id, last.num.value)] else []);
      } else {
        assert Proj(input, id) == before;
        assert ProgressOf(input, id) == ProgressOf(init, id);
      }
    }
  }

  // ---------------------------------------------------------------------
  // Cache helpers

  lemma FirstOpenIs(ids: seq<string>, cache: Cache, k: nat)
    requires AllCached(ids, cache) && k <= |ids|
    requires forall i :: 0 <= i < k ==> None in cache[ids[i]]
    requires k < |ids| ==> None !in cache[ids[k]]
    ensures FirstOpen(ids, cache) == k
  {
  }

  lemma FlushAllSnoc(ids: seq<string>, x: string, cache: Cache)
    requires AllCached(ids, cache) && x in cache
    ensures AllCached(ids + [x], cache)
    ensures FlushAll(ids + [x], cache) == FlushAll(ids, cache) + Flushed(x, cache[x])
  {
    FlushAllAppend(ids, [x], cache);
    assert FlushAll([x], cache) == Flushed(x, cache[x]) + FlushAll([], cache);
  }

  lemma ProjCacheSnoc(items: seq<string>, input: seq<Msg>, m: Msg)
    ensures forall k :: 0 <= k < |items| ==>
      ProjCache(items, input + [m])[items[k]]
        == ProjCache(items, input)[items[k]] + (if items[k] == m.exe then [m.num] else [])
  {
    forall k | 0 <= k < |items|
      ensures ProjCache(items, input + [m])[items[k]]
        == ProjCache(items, input)[items[k]] + (if items[k] == m.exe then [m.num] else [])
    {
      ProjSnoc(input, m, items[k]);
    }
  }

  // ---------------------------------------------------------------------
  // The invariant

  /** Right after initialisation nothing has been received and the first crate is in focus. */
  lemma InitAgrees(items: seq<string>)
    requires |items| > 0
    ensures Agrees(Init(items), items, [])
  {
    var pc := ProjCache(items, []);
    FirstOpenIs(items, pc, 0);
    assert items[..1] == [items[0]];
    assert FlushAll(items[..1], pc) == Flushed(items[0], []) + FlushAll([], pc);
  }

  /**
   * `pc'` is `pc` after crate `items[j]` has sent `x`: that crate's entry
   * grows by `x` and no other entry changes.
   */
  predicate SentOneMore(items: seq<string>, pc: Cache, pc': Cache, j: nat, x: Option<nat>)
  {
    && j < |items| && AllCached(items, pc) && AllCached(items, pc')
    && (forall k :: 0 <= k < |items| ==> pc'[items[k]] == pc[items[k]] + (if k == j then [x] else []))
  }


  /** An end marker that is followed by another entry breaks `EndOnlyLast`. */
  lemma NoEndBeforeLast(e: seq<Option<nat>>, x: Option<nat>)
    requires EndOnlyLast(e + [x])
    ensures None !in e
  {
    forall i | 0 <= i < |e| ensures e[i].Some? {
      assert (e + [x])[i] == e[i];
    }
  }

  /** A message that does not end the crate in focus leaves the focus where it is. */
  lemma FirstOpenKept(items: seq<string>, pc: Cache, pc': Cache, j: nat, x: Option<nat>, c: nat)
    requires SentOneMore(items, pc, pc', j, x) && c == FirstOpen(items, pc) && c <= j
    requires j == c ==> None !in pc[items[c]] && x.Some?
    ensures FirstOpen(items, pc') == c
  {
    forall i | 0 <= i < c ensures None in pc'[items[i]] {
      assert pc'[items[i]] == pc[items[i]];
    }
    if j == c {
      assert pc'[items[c]] == pc[items[c]] + [x];
    }
    FirstOpenIs(items, pc', c);
  }

  /** A message for a crate queued behind the focus is appended to that crate's cache. */
  lemma StepBehind(items: seq<string>, pc: Cache, pc': Cache, s: State, c: nat, j: nat, m: Msg)
    requires Distinct(items) && SentOneMore(items, pc, pc', j, m.num) && items[j] == m.exe && c < j
    requires Focused(s, items, pc, c)
    ensures Focused(Receive(s, m), items, pc', c)
  {
    assert items[j] != items[c];
    ReceiveBehind(s, m);
    BehindFocused(items, pc, pc', s, s.(cache := s.cache[m.exe := s.cache[m.exe] + [m.num]]), c, j, m.num);
  }

  /** `StepBehind` on the state `Receive` reaches, without `Receive` in scope. */
  lemma BehindFocused(items: seq<string>, pc: Cache, pc': Cache, s: State, r: State, c: nat, j: nat, x: Option<nat>)
    requires Distinct(items) && SentOneMore(items, pc, pc', j, x) && c < j
    requires Focused(s, items, pc, c)
    requires r == s.(cache := s.cache[items[j] := s.cache[items[j]] + [x]])
    ensures Focused(r, items, pc', c)
  {
    BehindCache(items, pc, pc', s.cache, r.cache, c, j, x);
    FlushAllAgree(items[..c + 1], pc, pc');
  }

  lemma BehindCache(items: seq<string>, pc: Cache, pc': Cache, cache: Cache, cache': Cache,
                    c: nat, j: nat, x: Option<nat>)
    requires Distinct(items) && SentOneMore(items, pc, pc', j, x) && c < j && AllCached(items, cache)
    requires forall k :: c < k < |items| ==> cache[items[k]] == pc[items[k]]
    requires cache' == cache[items[j] := cache[items[j]] + [x]]
    ensures forall k :: c < k < |items| ==> cache'[items[k]] == pc'[items[k]]
  {
    forall k | c < k < |items| ensures cache'[items[k]] == pc'[items[k]] {
      assert k != j ==> items[k] != items[j];
    }
  }

  /** What the crate in focus sends adds to the flushed output at most its progress line. */
  lemma FlushFocusSnoc(items: seq<string>, pc: Cache, pc': Cache, c: nat, x: Option<nat>)
    requires SentOneMore(items, pc, pc', c, x) && None !in pc[items[c]]
    ensures FlushAll(items[..c + 1], pc')
      == FlushAll(items[..c + 1], pc) + (if x.Some? then [(items[c], x.value)] else [])
  {
    assert items[..c + 1] == items[..c] + [items[c]];
    FlushAllSnoc(items[..c], items[c], pc);
    FlushAllSnoc(items[..c], items[c], pc');
    FlushAllAgree(items[..c], pc, pc');
    FlushedSnoc(items[c], pc[items[c]], x);
  }

  /** A progress message of the crate in focus is printed at once. */
  lemma StepFocusProgress(items: seq<string>, pc: Cache, pc': Cache, s: State, c: nat, m: Msg)
    requires SentOneMore(items, pc, pc', c, m.num) && items[c] == m.exe && m.num.Some?
    requires Focused(s, items, pc, c) && None !in pc[items[c]]
    ensures Focused(Receive(s, m), items, pc', c)
  {
    FlushFocusSnoc(items, pc, pc', c, m.num);
  }

  /**
   * The end of the crate in focus arrives: the focus moves to the next crate
   * in `items` whose end has not arrived, and everything that crate and the
   * finished crates before it have sent is printed.
   */
  lemma StepFocusEnd(items: seq<string>, pc: Cache, pc': Cache, s: State, c: nat, m: Msg)
    requires SentOneMore(items, pc, pc', c, m.num) && items[c] == m.exe && m.num == None
    requires Focused(s, items, pc, c) && None !in pc[items[c]]
    requires forall i :: 0 <= i < c ==> None in pc[items[i]]
    ensures Consistent(Receive(s, m), items, pc')
  {
    FlushFocusSnoc(items, pc, pc', c, None);
    forall i | 0 <= i <= c ensures None in pc'[items[i]] {
      assert i == c ==> pc'[items[i]] == pc[items[i]] + [None];
    }
    var r := Receive(s, m);
    assert r == AdvanceFocus(s);
    AdvanceFocusPops(s);
    AdvanceConsistent(items, pc', s, r, c, FirstOpen(s.queue, s.cache), Popped(s.queue, s.cache));
  }

  /** Past crate `items[c]`, the first crate whose end has not arrived is the first such crate of the rest. */
  lemma FirstOpenAfter(items: seq<string>, pc: Cache, cache: Cache, c: nat)
    requires c < |items| && AllCached(items, pc) && AllCached(items[c + 1..], cache)
    requires forall i :: 0 <= i <= c ==> None in pc[items[i]]
    requires forall k :: c < k < |items| ==> cache[items[k]] == pc[items[k]]
    ensures FirstOpen(items, pc) == c + 1 + FirstOpen(items[c + 1..], cache)
  {
    var q := items[c + 1..];
    var k := FirstOpen(q, cache);
    forall i | c < i < c + 1 + k ensures None in pc[items[i]] {
      assert items[i] == q[i - c - 1];
    }
    if k < |q| {
      assert items[c + 1 + k] == q[k];
    }
    FirstOpenIs(items, pc, c + 1 + k);
  }

  /** Printing the next `n` queued crates from the loop's cache extends the output in `items` order. */
  lemma OutputAfter(items: seq<string>, pc: Cache, cache: Cache, c: nat, n: nat)
    requires c + 1 + n <= |items| && AllCached(items, pc) && AllCached(items[c + 1..], cache)
    requires forall k :: c < k < |items| ==> cache[items[k]] == pc[items[k]]
    ensures FlushAll(items[..c + 1], pc) + FlushAll(items[c + 1..][..n], cache)
      == FlushAll(items[..c + n + 1], pc)
  {
    var q := items[c + 1..][..n];
    assert q == items[c + 1..c + n + 1];
    FlushAllAgree(q, cache, pc);
    assert items[..c + 1] + q == items[..c + n + 1];
    FlushAllAppend(items[..c + 1], q, pc);
  }

  /**
   * Advancing past crate `items[c]`, whose end has arrived, pops the `n`
   * crates up to the first queued one whose end has not arrived, `k` crates
   * in, and reaches the state that `pc'` determines.
   */
  lemma AdvanceConsistent(items: seq<string>, pc': Cache, s: State, r: State, c: nat, k: nat, n: nat)
    requires c < |items| && AllCached(items, pc') && Wf(s) && AllCached(items, s.cache)
    requires s.queue == items[c + 1..]
    requires forall i :: 0 <= i <= c ==> None in pc'[items[i]]
    requires forall k :: c < k < |items| ==> s.cache[items[k]] == pc'[items[k]]
    requires s.output == FlushAll(items[..c + 1], pc')
    requires k == FirstOpen(s.queue, s.cache)
    requires Wf(r) && r.cache == s.cache && n <= |s.queue|
    requires r.output == s.output + FlushAll(s.queue[..n], s.cache)
    requires k < |s.queue| ==>
      n == k + 1 && r.phase == Receiving && r.queue == s.queue[n..] && r.current == s.queue[n - 1]
    requires k == |s.queue| ==> n == k && r.phase == Returned
    ensures Consistent(r, items, pc')
  {
    if k < |s.queue| {
      FirstOpenAfter(items, pc', s.cache, c);
      AdvanceStops(items, pc', s, r, c, n);
      FocusedConsistent(r, items, pc', c + n);
    } else {
      AdvanceReturns(items, pc', s, r, c, n);
    }
  }

  /** When every queued crate has ended, the advance returns having flushed them all. */
  lemma AdvanceReturns(items: seq<string>, pc': Cache, s: State, r: State, c: nat, n: nat)
    requires c < |items| && AllCached(items, pc') && Wf(s) && AllCached(items, s.cache)
    requires s.queue == items[c + 1..]
    requires forall i :: 0 <= i <= c ==> None in pc'[items[i]]
    requires forall k :: c < k < |items| ==> s.cache[items[k]] == pc'[items[k]]
    requires s.output == FlushAll(items[..c + 1], pc')
    requires FirstOpen(s.queue, s.cache) == |s.queue| == n
    requires Wf(r) && r.phase == Returned
    requires r.output == s.output + FlushAll(s.queue[..n], s.cache)
    ensures Consistent(r, items, pc')
  {
    FirstOpenAfter(items, pc', s.cache, c);
    OutputAfter(items, pc', s.cache, c, n);
    assert items[..c + n + 1] == items;
  }

  lemma FocusedConsistent(s: State, items: seq<string>, pc: Cache, c: nat)
    requires AllCached(items, pc) && c < |items| && FirstOpen(items, pc) == c && Focused(s, items, pc, c)
    ensures Consistent(s, items, pc)
  {
  }

  /** When the advance stops after popping `n` crates, the last crate popped is in focus. */
  lemma AdvanceStops(items: seq<string>, pc: Cache, s: State, r: State, c: nat, n: nat)
    requires 0 < n && c + n < |items| && AllCached(items, pc) && AllCached(items, s.cache)
    requires Wf(s) && s.queue == items[c + 1..] && Wf(r) && r.cache == s.cache && r.phase == Receiving
    requires r.queue == s.queue[n..] && r.current == s.queue[n - 1]
    requires forall k :: c < k < |items| ==> s.cache[items[k]] == pc[items[k]]
    requires s.output == FlushAll(items[..c + 1], pc)
    requires r.output == s.output + FlushAll(s.queue[..n], s.cache)
    ensures Focused(r, items, pc, c + n)
  {
    OutputAfter(items, pc, s.cache, c, n);
    assert items[c + 1..][n..] == items[c + n + 1..];
  }

  /** Every message of a well-behaved input keeps the invariant. */
  lemma StepAgrees(items: seq<string>, input: seq<Msg>, m: Msg, s: State)
    requires Distinct(items) && WellBehaved(items, input + [m]) && Agrees(s, items, input)
    ensures s.phase == Receiving && Agrees(Receive(s, m), items, input + [m])
  {
    var pc, pc' := ProjCache(items, input), ProjCache(items, input + [m]);
    var c := FirstOpen(items, pc);
    assert (input + [m])[|input|] == m;
    var j :| 0 <= j < |items| && items[j] == m.exe;
    ProjCacheSnoc(items, input, m);
    forall k | 0 <= k < |items|
      ensures pc'[items[k]] == pc[items[k]] + (if k == j then [m.num] else [])
    {
      assert items[k] == m.exe <==> k == j;
    }
    assert SentOneMore(items, pc, pc', j, m.num);
    // the crate has not sent its end before, so the focus has not passed it
    assert pc'[items[j]] == Proj(input + [m], items[j]);
    NoEndBeforeLast(pc[items[j]], m.num);
    assert c <= j;
    if j > c {
      FirstOpenKept(items, pc, pc', j, m.num, c);
      StepBehind(items, pc, pc', s, c, j, m);
    } else if m.num.Some? {
      FirstOpenKept(items, pc, pc', j, m.num, c);
      StepFocusProgress(items, pc, pc', s, c, m);
    } else {
      StepFocusEnd(items, pc, pc', s, c, m);
    }
  }

  /** After any prefix of a well-behaved input the loop is in the state that prefix determines. */
  lemma {:induction false} FeedAgrees(items: seq<string>, input: seq<Msg>)
    requires |items| > 0 && Distinct(items) && WellBehaved(items, input)
    ensures Agrees(Feed(Init(items), input), items, input)
    decreases |input|
  {
    if input == [] {
      InitAgrees(items);
    } else {
      var init, m := input[..|input| - 1], input[|input| - 1];
      assert init + [m] == input;
      WellBehavedPrefix(items, input, |input| - 1);
      FeedAgrees(items, init);
      FeedSnoc(Init(items), init, m);
      StepAgrees(items, init, m, Feed(Init(items), init));
    }
  }

  /** With every crate's entries cached, flushing them all is the intended output. */
  lemma {:induction false} FlushAllInItemsOrder(ids: seq<string>, input: seq<Msg>, pc: Cache)
    requires AllCached(ids, pc)
    requires forall k :: 0 <= k < |ids| ==> pc[ids[k]] == Proj(input, ids[k]) && EndOnlyLast(Proj(input, ids[k]))
    ensures FlushAll(ids, pc) == InItemsOrder(ids, input)
    decreases |ids|
  {
    if ids != [] {
      FlushedIsProgress(input, ids[0]);
      FlushAllInItemsOrder(ids[1..], input, pc);
    }
  }

  /**
   * The ordering guarantee: once every crate has sent its end, whatever the
   * interleaving, the loop has returned and has printed each crate's
   * progress lines in the order the crate sent them, crate by crate in
   * `items` order.
   */
  lemma PrinterOrdersOutput(items: seq<string>, input: seq<Msg>)
    requires |items| > 0 && Distinct(items) && Complete(items, input)
    ensures Run(Init(items), input).phase == Returned
    ensures Run(Init(items), input).output == InItemsOrder(items, input)
  {
    var pc := ProjCache(items, input);
    FeedAgrees(items, input);
    AgreesComplete(Feed(Init(items), input), items, input);
    FlushAllInItemsOrder(items, input, pc);
  }

  /** Once every crate has ended, the loop has returned after printing everything. */
  lemma AgreesComplete(s: State, items: seq<string>, input: seq<Msg>)
    requires Agrees(s, items, input) && forall k :: 0 <= k < |items| ==> None in Proj(input, items[k])
    ensures s.phase == Returned && s.output == FlushAll(items, ProjCache(items, input))
  {
    ConsistentComplete(s, items, ProjCache(items, input));
  }

  lemma ConsistentComplete(s: State, items: seq<string>, pc: Cache)
    requires AllCached(items, pc) && Consistent(s, items, pc)
    requires forall k :: 0 <= k < |items| ==> None in pc[items[k]]
    ensures s.phase == Returned && s.output == FlushAll(items, pc)
  {
    FirstOpenIs(items, pc, |items|);
  }

  /**
   * On a well-behaved input the loop consumes every message: it is still
   * receiving when each message arrives, so it can return only on the last.
   */
  lemma ConsumesWholeInput(items: seq<string>, input: seq<Msg>, t: nat)
    requires |items| > 0 && Distinct(items) && WellBehaved(items, input) && t < |input|
    ensures Feed(Init(items), input[..t]).phase == Receiving
  {
    WellBehavedPrefix(items, input, t + 1);
    TakeSnoc(input, t);
    StillReceiving(items, input[..t], input[t]);
  }

  /** A message that keeps the input well-behaved finds the loop still receiving. */
  lemma StillReceiving(items: seq<string>, input: seq<Msg>, m: Msg)
    requires |items| > 0 && Distinct(items) && WellBehaved(items, input + [m])
    ensures Feed(Init(items), input).phase == Receiving
  {
    WellBehavedPrefix(items, input + [m], |input|);
    assert (input + [m])[..|input|] == input;
    FeedAgrees(items, input);
    StepAgrees(items, input, m, Feed(Init(items), input));
  }

  /**
   * Flushing caches that are prefixes of later caches prints a prefix of
   * what the later caches print, provided every name but the last has ended.
   */
  lemma {:induction false} FlushAllPrefix(ids: seq<string>, a: Cache, b: Cache)
    requires AllCached(ids, a) && AllCached(ids, b)
    requires forall i :: 0 <= i < |ids| ==> a[ids[i]] <= b[ids[i]]
    requires forall i :: 0 <= i < |ids| - 1 ==> None in a[ids[i]]
    ensures FlushAll(ids, a) <= FlushAll(ids, b)
    decreases |ids|
  {
    if ids != [] {
      var x := ids[0];
      FlushedPrefix(x, a[x], b[x]);
      FlushAllPrefix(ids[1..], a, b);
      if |ids| == 1 {
        assert FlushAll(ids[1..], a) == [] == FlushAll(ids[1..], b);
      } else {
        assert None in a[ids[0]];
      }
    }
  }

  /**
   * Flushing the crates up to `items[c]`, all but the last of which have
   * ended, prints a prefix of flushing every crate of a cache that extends
   * it.
   */
  lemma FocusPrefix(items: seq<string>, pc: Cache, pcAll: Cache, c: nat, out: seq<Line>)
    requires AllCached(items, pc) && AllCached(items, pcAll) && c < |items|
    requires forall i :: 0 <= i < c ==> None in pc[items[i]]
    requires forall k :: 0 <= k < |items| ==> pc[items[k]] <= pcAll[items[k]]
    requires out == FlushAll(items[..c + 1], pc)
    ensures out <= FlushAll(items, pcAll)
  {
    var front := items[..c + 1];
    FlushAllPrefix(front, pc, pcAll);
    assert front + items[c + 1..] == items;
    FlushAllAppend(front, items[c + 1..], pcAll);
    PrefixOfAppend(FlushAll(front, pc), FlushAll(front, pcAll), FlushAll(items[c + 1..], pcAll));
  }

  lemma PrefixOfAppend<T>(u: seq<T>, v: seq<T>, w: seq<T>)
    requires u <= v
    ensures u <= v + w
  {
    assert (v + w)[..|v|] == v;
  }

  /**
   * While the loop is receiving, what it has printed after a prefix of an
   * input is a prefix of flushing every crate's messages of the whole input.
   */
  lemma AgreesPrintsPrefix(s: State, items: seq<string>, input: seq<Msg>, t: nat)
    requires t <= |input| && Agrees(s, items, input[..t]) && s.phase == Receiving
    ensures s.output <= FlushAll(items, ProjCache(items, input))
  {
    ProjCachePrefix(items, input, t);
    ConsistentPrintsPrefix(s, items, ProjCache(items, input[..t]), ProjCache(items, input));
  }

  lemma ConsistentPrintsPrefix(s: State, items: seq<string>, pc: Cache, pcAll: Cache)
    requires AllCached(items, pc) && AllCached(items, pcAll) && Consistent(s, items, pc)
    requires s.phase == Receiving
    requires forall k :: 0 <= k < |items| ==> pc[items[k]] <= pcAll[items[k]]
    ensures s.output <= FlushAll(items, pcAll)
  {
    var c := FirstOpen(items, pc);
    assert c < |items| && Focused(s, items, pc, c);
    AllCachedTake(items, pc, c + 1);
    FocusPrefix(items, pc, pcAll, c, s.output);
  }

  /**
   * If the channel disconnects after the first `t` messages of a
   * well-behaved input, the loop stops with "done" and has printed a prefix
   * of what flushing every crate's messages of the whole input prints.
   */
  lemma PrintedSoFar(items: seq<string>, input: seq<Msg>, t: nat)
    requires |items| > 0 && Distinct(items) && WellBehaved(items, input) && t < |input|
    ensures Run(Init(items), input[..t]).phase == Disconnected
    ensures Run(Init(items), input[..t]).output <= FlushAll(items, ProjCache(items, input))
  {
    WellBehavedPrefix(items, input, t);
    ConsumesWholeInput(items, input, t);
    FeedAgrees(items, input[..t]);
    AgreesPrintsPrefix(Feed(Init(items), input[..t]), items, input, t);
  }

  /**
   * If the channel disconnects before every crate has ended, the loop stops
   * with "done" and what it printed is a prefix of the output the complete
   * input produces.
   */
  lemma EarlyEndPrintsPrefix(items: seq<string>, input: seq<Msg>, t: nat)
    requires |items| > 0 && Distinct(items) && Complete(items, input) && t < |input|
    ensures Run(Init(items), input[..t]).phase == Disconnected
    ensures Run(Init(items), input[..t]).output <= Run(Init(items), input).output
  {
    PrintedSoFar(items, input, t);
    FlushAllInItemsOrder(items, input, ProjCache(items, input));
    PrinterOrdersOutput(items, input);
  }

  // ---------------------------------------------------------------------
  // Each crate is focused, and its cache flushed, at most once

  /**
   * Along a run from the initial state `s0`, the crate in focus and the
   * queue are a suffix of `items`: the focus is the crate at index `d`, the
   * last one popped so far.
   */
  lemma FocusIsSuffix(items: seq<string>, s0: State, s: State) returns (d: nat)
    requires |items| > 0 && s0.current == items[0] && s0.queue == items[1..] && Follows(s0, s)
    ensures d < |items| && |s.queue| == |items| - 1 - d
    ensures s.current == items[d] && s.queue == items[d + 1..]
  {
    d := |items| - 1 - |s.queue|;
    assert s.queue == items[1..][d..];
    if d > 0 {
      assert s.current == items[1..][d - 1];
    }
  }

  /**
   * With distinct names, of two states reached from the initial `s0`, the one
   * with the shorter queue is the later: once the focus has moved on from a
   * crate, that crate is never in focus or queued again. As only a pop
   * flushes a cache entry (`AdvanceFocusPops`), no entry is flushed twice.
   */
  lemma LeftBehindForGood(items: seq<string>, s0: State, s1: State, s2: State)
    requires |items| > 0 && Distinct(items) && s0.current == items[0] && s0.queue == items[1..]
    requires Follows(s0, s1) && Follows(s0, s2) && |s2.queue| <= |s1.queue|
    ensures s2.current == s1.current <==> s2.queue == s1.queue
    ensures s2.queue != s1.queue ==>
      forall i :: 0 <= i < |items| - |s1.queue| ==> items[i] != s2.current && items[i] !in s2.queue
  {
    var d1 := FocusIsSuffix(items, s0, s1);
    var d2 := FocusIsSuffix(items, s0, s2);
    LaterSuffix(items, d1, d2, s1.current, s1.queue, s2.current, s2.queue);
  }

  /**
   * Of two focus-and-queue suffixes of distinct `items`, starting at `d1` and
   * at a later or equal `d2`, the focus differs exactly when the queue does,
   * and then none of the crates up to index `d1` is in the later one.
   */
  lemma LaterSuffix(items: seq<string>, d1: nat, d2: nat, c1: string, q1: seq<string>, c2: string, q2: seq<string>)
    requires Distinct(items) && d1 <= d2 < |items|
    requires c1 == items[d1] && q1 == items[d1 + 1..]
    requires c2 == items[d2] && q2 == items[d2 + 1..]
    ensures c2 == c1 <==> q2 == q1
    ensures q2 != q1 ==> forall i :: 0 <= i <= d1 ==> items[i] != c2 && items[i] !in q2
  {
    assert forall j :: 0 <= j < |q2| ==> q2[j] == items[d2 + 1 + j];
  }

  /**
   * Each crate is focused at most once in a run: if the crate in focus after
   * `t1` messages is in focus again after `t2`, the loop has not moved on in
   * between, and once it has moved on, no crate focused so far comes back.
   */
  lemma FocusedAtMostOnce(items: seq<string>, input: seq<Msg>, t1: nat, t2: nat)
    requires |items| > 0 && Distinct(items) && t1 <= t2 <= |input|
    ensures var s1, s2 := Feed(Init(items), input[..t1]), Feed(Init(items), input[..t2]);
      && (s2.current == s1.current <==> s2.queue == s1.queue)
      && (s2.queue != s1.queue ==>
            forall i :: 0 <= i < |items| - |s1.queue| ==> items[i] != s2.current && items[i] !in s2.queue)
  {
    FeedPrefixFollows(Init(items), input[..t2], t1);
    assert input[..t2][..t1] == input[..t1];
    LeftBehindForGood(items, Init(items), Feed(Init(items), input[..t1]), Feed(Init(items), input[..t2]));
  }

  /**
   * Without distinct names the guarantee fails: with `items` `[b, a, a]`, a
   * repeated crate `a` is focused twice and its kept cache entry is printed
   * twice.
   */
  lemma RepeatedNamePrintsTwice(a: string, b: string, n: nat)
    requires a != b
    ensures var r := Run(Init([b, a, a]), [Msg(a, Some(n)), Msg(a, None), Msg(b, None)]);
      r.phase == Returned && r.output == [(a, n), (a, n)]
  {
    RepeatedNameRun(Init([b, a, a]), a, b, n);
  }

  /** `RepeatedNamePrintsTwice` from any state with `b` in focus and `[a, a]` queued. */
  lemma RepeatedNameRun(s0: State, a: string, b: string, n: nat)
    requires a != b && Wf(s0) && s0.phase == Receiving && s0.output == []
    requires s0.current == b && s0.queue == [a, a] && a in s0.cache && s0.cache[a] == []
    ensures var r := Run(s0, [Msg(a, Some(n)), Msg(a, None), Msg(b, None)]);
      r.phase == Returned && r.output == [(a, n), (a, n)]
  {
    var m0, m1, m2 := Msg(a, Some(n)), Msg(a, None), Msg(b, None);
    var s2 := s0.(cache := s0.cache[a := [Some(n), None]]);
    TwoBehind(s0, a, n);
    RepeatedNameFlushes(s2, a, n);
    ReceiveFocusEnd(s2, m2);
    FeedThree(s0, m0, m1, m2);
    FeedTwo(Receive(s0, m0), m1, m2);
    FeedOne(s2, m2);
  }

  /**
   * A repeated name can also leave the loop waiting: with `items` `[a, b, a]`,
   * the second pop of `a` finds its entry empty, because `a`'s messages went
   * to the focus, and the loop waits for an end that has already arrived. On
   * a complete input the run ends `Disconnected`, having printed `(a, n)`
   * once where `InItemsOrder` has it twice.
   */
  lemma RepeatedNameWaits(a: string, b: string, n: nat)
    requires a != b
    ensures var input := [Msg(a, Some(n)), Msg(a, None), Msg(b, None)];
      var r := Run(Init([a, b, a]), input);
      && Complete([a, b, a], input)
      && r.phase == Disconnected && r.output == [(a, n)]
      && InItemsOrder([a, b, a], input) == [(a, n), (a, n)]
  {
    var input := [Msg(a, Some(n)), Msg(a, None), Msg(b, None)];
    RepeatedNameWaitRun(Init([a, b, a]), a, b, n);
    RepeatedNameProgress(input, a, b, n);
  }

  /** `RepeatedNameWaits` from any state with `a` in focus and `[b, a]` queued. */
  lemma RepeatedNameWaitRun(s0: State, a: string, b: string, n: nat)
    requires a != b && Wf(s0) && s0.phase == Receiving && s0.output == []
    requires s0.current == a && s0.queue == [b, a] && a in s0.cache && b in s0.cache
    requires s0.cache[a] == [] && s0.cache[b] == []
    ensures var r := Run(s0, [Msg(a, Some(n)), Msg(a, None), Msg(b, None)]);
      r.phase == Disconnected && r.output == [(a, n)]
  {
    var m0, m1, m2 := Msg(a, Some(n)), Msg(a, None), Msg(b, None);
    ReceiveFocusProgress(s0, m0);
    var s1 := s0.(output := [(a, n)]);
    ReceiveFocusEnd(s1, m1);
    AdvancePastEmpty(s1);
    var s2 := s1.(current := b, queue := [a]);
    assert [b, a][1..] == [a];
    ReceiveFocusEnd(s2, m2);
    AdvancePastEmpty(s2);
    assert [a][1..] == [];
    FeedThree(s0, m0, m1, m2);
    FeedTwo(s1, m1, m2);
    FeedOne(s2, m2);
  }

  /** Popping a crate with an empty cache entry prints nothing and focuses it. */
  lemma AdvancePastEmpty(s: State)
    requires Wf(s) && s.phase == Receiving && s.queue != [] && s.cache[s.queue[0]] == []
    ensures AdvanceFocus(s) == s.(current := s.queue[0], queue := s.queue[1..])
  {
    assert Flushed(s.queue[0], []) == [];
    assert s.output + [] == s.output;
  }

  /** In the input of `RepeatedNameWaits`, each crate ends and `a` has one progress line. */
  lemma RepeatedNameProgress(input: seq<Msg>, a: string, b: string, n: nat)
    requires a != b && input == [Msg(a, Some(n)), Msg(a, None), Msg(b, None)]
    ensures Complete([a, b, a], input)
    ensures InItemsOrder([a, b, a], input) == [(a, n), (a, n)]
  {
    var i1, i2 := input[..1], input[..2];
    assert i2[..1] == i1 && i1[..0] == [];
    RepeatedNameProj(input, i1, i2, a, b, n);
    RepeatedNameLines(input, i1, i2, a, b, n);
    RepeatedNameOrder(input, a, b, n);
  }

  lemma RepeatedNameProj(input: seq<Msg>, i1: seq<Msg>, i2: seq<Msg>, a: string, b: string, n: nat)
    requires a != b && input == [Msg(a, Some(n)), Msg(a, None), Msg(b, None)]
    requires i1 == input[..1] && i2 == input[..2] && i2[..1] == i1 && i1[..0] == []
    ensures Proj(input, a) == [Some(n), None] && Proj(input, b) == [None]
  {
    assert Proj(i1, a) == [Some(n)] && Proj(i1, b) == [];
    assert Proj(i2, a) == [Some(n), None] && Proj(i2, b) == [];
  }

  lemma RepeatedNameLines(input: seq<Msg>, i1: seq<Msg>, i2: seq<Msg>, a: string, b: string, n: nat)
    requires a != b && input == [Msg(a, Some(n)), Msg(a, None), Msg(b, None)]
    requires i1 == input[..1] && i2 == input[..2] && i2[..1] == i1 && i1[..0] == []
    ensures ProgressOf(input, a) == [(a, n)] && ProgressOf(input, b) == []
  {
    assert ProgressOf(i1, a) == [(a, n)];
    assert ProgressOf(i1, b) == [];
    assert ProgressOf(i2, a) == [(a, n)] && ProgressOf(i2, b) == [];
  }

  lemma RepeatedNameOrder(input: seq<Msg>, a: string, b: string, n: nat)
    requires ProgressOf(input, a) == [(a, n)] && ProgressOf(input, b) == []
    ensures InItemsOrder([a, b, a], input) == [(a, n), (a, n)]
  {
    assert InItemsOrder([a], input) == [(a, n)] by {
      assert [a][1..] == [];
    }
    assert InItemsOrder([b, a], input) == [(a, n)] by {
      assert [b, a][1..] == [a];
    }
    assert [a, b, a][1..] == [b, a];
  }

  /** Two messages of a queued crate are cached, and nothing else changes. */
  lemma TwoBehind(s0: State, a: string, n: nat)
    requires Wf(s0) && s0.phase == Receiving && s0.current != a && a in s0.cache && s0.cache[a] == []
    ensures Receive(s0, Msg(a, Some(n))).phase == Receiving
    ensures Receive(Receive(s0, Msg(a, Some(n))), Msg(a, None)) == s0.(cache := s0.cache[a := [Some(n), None]])
  {
    var s1 := s0.(cache := s0.cache[a := [Some(n)]]);
    ReceiveBehind(s0, Msg(a, Some(n)));
    assert s0.cache[a] + [Some(n)] == [Some(n)];
    ReceiveBehind(s1, Msg(a, None));
    assert s1.cache[a] + [None] == [Some(n), None];
    assert s1.cache[a := [Some(n), None]] == s0.cache[a := [Some(n), None]];
  }

  /** Feeding three messages, while the loop is receiving, starts with the first. */
  lemma FeedThree(s: State, m0: Msg, m1: Msg, m2: Msg)
    requires Wf(s) && s.phase == Receiving
    ensures Feed(s, [m0, m1, m2]) == Feed(Receive(s, m0), [m1, m2])
  {
    assert [m0, m1, m2][1..] == [m1, m2];
  }

  /** Feeding two messages, while the loop is receiving, starts with the first. */
  lemma FeedTwo(s: State, m1: Msg, m2: Msg)
    requires Wf(s) && s.phase == Receiving
    ensures Feed(s, [m1, m2]) == Feed(Receive(s, m1), [m2])
  {
    assert [m1, m2][1..] == [m2];
  }

  /** Feeding one message, while the loop is receiving, is receiving it. */
  lemma FeedOne(s: State, m2: Msg)
    requires Wf(s) && s.phase == Receiving
    ensures Feed(s, [m2]) == Receive(s, m2)
  {
    assert [m2][1..] == [];
  }

  /** The advance over a queue `[a, a]` whose entry has ended prints that entry twice. */
  lemma RepeatedNameFlushes(s: State, a: string, n: nat)
    requires Wf(s) && s.phase == Receiving && s.output == []
    requires s.queue == [a, a] && a in s.cache && s.cache[a] == [Some(n), None]
    ensures AdvanceFocus(s).phase == Returned && AdvanceFocus(s).output == [(a, n), (a, n)]
  {
    AdvanceFocusPops(s);
    assert Flushed(a, [Some(n), None]) == [(a, n)];
    assert FlushAll([a], s.cache) == [(a, n)];
    assert [a, a][1..] == [a];
    assert FlushAll([a, a], s.cache) == [(a, n), (a, n)];
    assert s.queue[..2] == [a, a];
  }

  // ---------------------------------------------------------------------
  // Test crates

  /** A test crate prints its test numbers in order and nothing else. */
  lemma TestCrateProgress(input: seq<Msg>, id: string)
    requires IsTestCrateStream(id, Sent(input, id))
    ensures EndOnlyLast(Proj(input, id)) && None in Proj(input, id)
    ensures |ProgressOf(input, id)| == NumTestsInCrate
    ensures forall x :: 0 <= x < NumTestsInCrate ==> ProgressOf(input, id)[x] == (id, x)
  {
    var p := Proj(input, id);
    ProjIsSent(input, id);
    assert p[NumTestsInCrate] == None;
    assert forall x :: 0 <= x < NumTestsInCrate ==> p[x] == Some(x);
    FlushedIsProgress(input, id);
    FlushedUpToEnd(id, p);
  }

  /** Output made of one block of numbered lines per crate, in `items` order. */
  lemma {:induction false} InItemsOrderBlocks(items: seq<string>, input: seq<Msg>)
    requires forall k :: 0 <= k < |items| ==> |ProgressOf(input, items[k])| == NumTestsInCrate
    requires forall k, x :: 0 <= k < |items| && 0 <= x < NumTestsInCrate ==>
      ProgressOf(input, items[k])[x] == (items[k], x)
    ensures |InItemsOrder(items, input)| == NumTestsInCrate * |items|
    ensures forall i :: 0 <= i < |InItemsOrder(items, input)| ==>
      InItemsOrder(items, input)[i] == (items[i / NumTestsInCrate], i % NumTestsInCrate)
    decreases |items|
  {
    if items != [] {
      var first, rest := ProgressOf(input, items[0]), InItemsOrder(items[1..], input);
      InItemsOrderBlocks(items[1..], input);
      assert InItemsOrder(items, input) == first + rest;
      assert |first| == NumTestsInCrate;
      assert NumTestsInCrate * |items| == NumTestsInCrate + |rest|;
      forall i | 0 <= i < NumTestsInCrate * |items|
        ensures (first + rest)[i] == (items[i / NumTestsInCrate], i % NumTestsInCrate)
      {
        BlockLine(items, first, rest, i);
      }
    }
  }

  /** Line `i` of one crate's block followed by the blocks of the crates after it. */
  lemma BlockLine(items: seq<string>, first: seq<Line>, rest: seq<Line>, i: nat)
    requires |items| > 0 && |first| == NumTestsInCrate && |rest| == NumTestsInCrate * |items[1..]|
    requires i < NumTestsInCrate * |items|
    requires forall x :: 0 <= x < NumTestsInCrate ==> first[x] == (items[0], x)
    requires forall i :: 0 <= i < |rest| ==>
      rest[i] == (items[1..][i / NumTestsInCrate], i % NumTestsInCrate)
    ensures (first + rest)[i] == (items[i / NumTestsInCrate], i % NumTestsInCrate)
  {
    if i >= NumTestsInCrate {
      var i' := i - NumTestsInCrate;
      ShiftBlock(i);
      assert (first + rest)[i] == rest[i'];
    }
  }

  /** Line `i` of a block output is line `i - NumTestsInCrate` of the output without its first block. */
  lemma ShiftBlock(i: int)
    requires NumTestsInCrate <= i
    ensures (i - NumTestsInCrate) / NumTestsInCrate == i / NumTestsInCrate - 1
    ensures (i - NumTestsInCrate) % NumTestsInCrate == i % NumTestsInCrate
  {
  }

  /** Crates that each send a test-crate stream make a complete input. */
  lemma TestCratesComplete(items: seq<string>, input: seq<Msg>)
    requires forall i :: 0 <= i < |input| ==> input[i].exe in items
    requires forall k :: 0 <= k < |items| ==> IsTestCrateStream(items[k], Sent(input, items[k]))
    ensures Complete(items, input)
    ensures forall k :: 0 <= k < |items| ==> |ProgressOf(input, items[k])| == NumTestsInCrate
    ensures forall k, x :: 0 <= k < |items| && 0 <= x < NumTestsInCrate ==>
      ProgressOf(input, items[k])[x] == (items[k], x)
  {
    forall k | 0 <= k < |items|
      ensures EndOnlyLast(Proj(input, items[k])) && None in Proj(input, items[k])
      ensures |ProgressOf(input, items[k])| == NumTestsInCrate
      ensures forall x :: 0 <= x < NumTestsInCrate ==> ProgressOf(input, items[k])[x] == (items[k], x)
    {
      TestCrateProgress(input, items[k]);
    }
  }

  /** Numbered blocks of distinct crates never repeat a line. */
  lemma BlocksDistinct(items: seq<string>, out: seq<Line>)
    requires Distinct(items) && |out| == NumTestsInCrate * |items|
    requires forall i :: 0 <= i < |out| ==> out[i] == (items[i / NumTestsInCrate], i % NumTestsInCrate)
    ensures forall i, j :: 0 <= i < j < |out| ==> out[i] != out[j]
  {
    forall i, j | 0 <= i < j < |out| ensures out[i] != out[j] {
      if i / NumTestsInCrate == j / NumTestsInCrate {
        assert i % NumTestsInCrate != j % NumTestsInCrate;
      } else {
        assert i / NumTestsInCrate < j / NumTestsInCrate < |items|;
      }
    }
  }

  /**
   * Whatever the interleaving of test crates that each send their tests
   * `0, ..., NumTestsInCrate - 1` and then their end, the loop returns having
   * printed every crate's tests in order, crate by crate in `items` order,
   * and no line twice.
   */
  lemma TestCratesPrintInOrder(items: seq<string>, input: seq<Msg>)
    requires |items| > 0 && Distinct(items)
    requires forall i :: 0 <= i < |input| ==> input[i].exe in items
    requires forall k :: 0 <= k < |items| ==> IsTestCrateStream(items[k], Sent(input, items[k]))
    ensures Run(Init(items), input).phase == Returned
    ensures |Run(Init(items), input).output| == NumTestsInCrate * |items|
    ensures forall i :: 0 <= i < |Run(Init(items), input).output| ==>
      Run(Init(items), input).output[i] == (items[i / NumTestsInCrate], i % NumTestsInCrate)
    ensures forall i, j :: 0 <= i < j < |Run(Init(items), input).output| ==>
      Run(Init(items), input).output[i] != Run(Init(items), input).output[j]
  {
    TestCratesComplete(items, input);
    PrinterOrdersOutput(items, input);
    InItemsOrderBlocks(items, input);
    BlocksDistinct(items, Run(Init(items), input).output);
  }
}
