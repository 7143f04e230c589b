/**
 * The printer loop of the test runner as a pure state machine.
 *
 * Test crates run concurrently and send `(name, Some(n))` for each finished
 * test and `(name, None)` when the crate is done. The printer prints every
 * crate's progress in the fixed order of `items`: messages of the crate in
 * focus are printed at once, messages of other crates are cached, and when
 * the focused crate finishes the focus advances, flushing caches and skipping
 * crates that have already finished.
 *
 * A printed line `"<name> - <n>"` is the pair `(name, n)`.
 */
module PrinterSpec {

  datatype Option<T> = None | Some(value: T)

  /** One message on the print channel. */
  datatype Msg = Msg(exe: string, num: Option<nat>)

  /** A progress line printed as "<name> - <n>". */
  type Line = (string, nat)

  /** Per crate, the messages received while it was not in focus, in arrival order. */
  type Cache = map<string, seq<Option<nat>>>

  /**
   * Where the loop stands: still receiving; returned because the queue ran
   * out while advancing; stopped after a receive error, having printed "done";
   * or panicked on the `unwrap` of a name that has no cache entry.
   */
  datatype Phase = Receiving | Returned | Disconnected | Panicked

  datatype State = State(
    cache: Cache,
    queue: seq<string>,   // crates not yet focused, in `items` order
    current: string,      // the crate in focus
    output: seq<Line>,    // everything printed so far
    phase: Phase)

  predicate AllCached(ids: seq<string>, cache: Cache) {
    forall i :: 0 <= i < |ids| ==> ids[i] in cache
  }

  /** Every name the loop may look up in the cache has an entry there. */
  predicate Wf(s: State) {
    s.current in s.cache && AllCached(s.queue, s.cache)
  }

  /**
   * The lines printed when a crate's cache entry is walked: its progress
   * numbers in arrival order, up to the first `None`.
   */
  function Flushed(id: string, entries: seq<Option<nat>>): seq<Line>
  {
    if entries == [] then []
    else match entries[0]
      case None => []
      case Some(n) => [(id, n)] + Flushed(id, entries[1..])
  }

  /**
   * The flushed lines are the crate's cached progress numbers up to, and
   * not including, the first `None`, each paired with the crate's name.
   */
  lemma {:induction false} FlushedUpToEnd(id: string, entries: seq<Option<nat>>)
    ensures var r := Flushed(id, entries);
      && |r| <= |entries|
      && (forall i :: 0 <= i < |r| ==> r[i].0 == id && entries[i] == Some(r[i].1))
      && (|r| < |entries| ==> entries[|r|] == None)
    decreases |entries|
  {
    if entries != [] && entries[0].Some? {
      FlushedUpToEnd(id, entries[1..]);
    }
  }

  /** Position in `ids` of the first crate whose cache entry holds no `None`, or `|ids|`. */
  function FirstOpen(ids: seq<string>, cache: Cache): (k: nat)
    requires AllCached(ids, cache)
    ensures k <= |ids|
    ensures forall i :: 0 <= i < k ==> None in cache[ids[i]]
    ensures k < |ids| ==> None !in cache[ids[k]]
  {
    if ids == [] then 0
    else if None in cache[ids[0]] then 1 + FirstOpen(ids[1..], cache)
    else 0
  }

  /** The cache entries of `ids` flushed one after the other. */
  function FlushAll(ids: seq<string>, cache: Cache): seq<Line>
    requires AllCached(ids, cache)
  {
    if ids == [] then [] else Flushed(ids[0], cache[ids[0]]) + FlushAll(ids[1..], cache)
  }

  /** How many names the advance loop pops off `queue`. */
  function Popped(queue: seq<string>, cache: Cache): (n: nat)
    requires AllCached(queue, cache)
    ensures n <= |queue|
  {
    var k := FirstOpen(queue, cache);
    if k < |queue| then k + 1 else k
  }

  /** The state right after the cache and the queue are built from `items`. */
  function Init(items: seq<string>): (s: State)
    requires |items| > 0
    ensures Wf(s) && s.phase == Receiving && s.output == []
    ensures s.current == items[0] && s.queue == items[1..]
    ensures forall id :: id in s.cache <==> id in items
    ensures forall id :: id in s.cache ==> s.cache[id] == []
  {
    State(map id | id in items :: [], items[1..], items[0], [], Receiving)
  }

  /**
   * The `'mrloopy` loop: pop the next crate, print its cached progress, and
   * go on to the next one if the cache shows it has already finished.
   */
  function AdvanceFocus(s: State): (r: State)
    requires Wf(s) && s.phase == Receiving
    ensures Wf(r) && r.cache == s.cache && r.phase in {Receiving, Returned}
    decreases |s.queue|
  {
    if s.queue == [] then s.(phase := Returned)
    else
      var next := s.queue[0];
      var s' := s.(current := next, queue := s.queue[1..],
                   output := s.output + Flushed(next, s.cache[next]));
      if None in s.cache[next] then AdvanceFocus(s') else s'
  }

  /**
   * The advance loop pops every queued crate up to and including the first
   * whose cache holds no `None`, printing their caches in queue order, and
   * leaves that crate in focus; when every queued crate has already
   * finished it empties the queue and returns.
   */
  lemma {:induction false} AdvanceFocusPops(s: State)
    requires Wf(s) && s.phase == Receiving
    ensures var r, k, n := AdvanceFocus(s), FirstOpen(s.queue, s.cache), Popped(s.queue, s.cache);
      && r.queue == s.queue[n..]
      && r.output == s.output + FlushAll(s.queue[..n], s.cache)
      && r.current == (if n == 0 then s.current else s.queue[n - 1])
      && (k < |s.queue| ==> r.phase == Receiving)
      && (k == |s.queue| ==> r.phase == Returned)
    decreases |s.queue|
  {
    if s.queue != [] {
      var next := s.queue[0];
      var s' := s.(current := next, queue := s.queue[1..],
                   output := s.output + Flushed(next, s.cache[next]));
      if None in s.cache[next] {
        PoppedSkip(s.queue, s.cache);
        AdvanceFocusPops(s');
        var n' := Popped(s'.queue, s.cache);
        assert s'.queue[n'..] == s.queue[n' + 1..];
      } else {
        assert s.queue[..1] == [next];
      }
    }
  }

  /** Popping past a finished crate prints its cache and continues with the rest of the queue. */
  lemma PoppedSkip(queue: seq<string>, cache: Cache)
    requires AllCached(queue, cache) && queue != [] && None in cache[queue[0]]
    ensures AllCached(queue[1..], cache)
    ensures FirstOpen(queue, cache) == 1 + FirstOpen(queue[1..], cache)
    ensures Popped(queue, cache) == 1 + Popped(queue[1..], cache)
    ensures FlushAll(queue[..Popped(queue, cache)], cache)
      == Flushed(queue[0], cache[queue[0]]) + FlushAll(queue[1..][..Popped(queue[1..], cache)], cache)
  {
    var n := Popped(queue, cache);
    assert queue[..n][1..] == queue[1..][..n - 1];
  }

  /**
   * `r` is a later state than `s` of the same loop: no cache entry was added
   * or removed and each only grew at its end, nothing printed was taken back,
   * the queue only lost names at its front, and the focus is the old one or
   * the last name popped.
   */
  predicate Follows(s: State, r: State) {
    && r.cache.Keys == s.cache.Keys
    && (forall id :: id in s.cache ==> s.cache[id] <= r.cache[id])
    && |s.output| <= |r.output| && r.output[..|s.output|] == s.output
    && |r.queue| <= |s.queue|
    && r.queue == s.queue[|s.queue| - |r.queue|..]
    && r.current == (if |r.queue| == |s.queue| then s.current else s.queue[|s.queue| - |r.queue| - 1])
  }

  lemma FollowsTransitive(s1: State, s2: State, s3: State)
    requires Follows(s1, s2) && Follows(s2, s3)
    ensures Follows(s1, s3)
  {
    var d1, d2 := |s1.queue| - |s2.queue|, |s2.queue| - |s3.queue|;
    assert s3.queue == s1.queue[d1 + d2..];
    assert s3.output[..|s1.output|] == s3.output[..|s2.output|][..|s1.output|];
    if d2 > 0 {
      assert s3.current == s2.queue[d2 - 1] == s1.queue[d1 + d2 - 1];
    }
  }

  /** One successful `recv`. */
  function Receive(s: State, m: Msg): (r: State)
    requires Wf(s) && s.phase == Receiving
    ensures Wf(r)
    ensures r.phase == Panicked <==> m.exe != s.current && m.exe !in s.cache
    ensures Follows(s, r)
  {
    match m.num
    case Some(n) =>
      if m.exe == s.current then
        var r := s.(output := s.output + [(m.exe, n)]);
        assert r.output[..|s.output|] == s.output;
        r
      else if m.exe in s.cache then
        PushFollows(s, m.exe, Some(n));
        s.(cache := s.cache[m.exe := s.cache[m.exe] + [Some(n)]])
      else s.(phase := Panicked)
    case None =>
      if m.exe == s.current then
        var r := AdvanceFocus(s);
        AdvanceFocusPops(s);
        assert r.output[..|s.output|] == s.output;
        r
      else if m.exe in s.cache then
        PushFollows(s, m.exe, None);
        s.(cache := s.cache[m.exe := s.cache[m.exe] + [None]])
      else s.(phase := Panicked)
  }

  /** Appending to one cache entry keeps every lookup valid and yields a later state. */
  lemma PushFollows(s: State, id: string, x: Option<nat>)
    requires Wf(s) && id in s.cache
    ensures var r := s.(cache := s.cache[id := s.cache[id] + [x]]);
      Wf(r) && Follows(s, r)
  {
    var r := s.(cache := s.cache[id := s.cache[id] + [x]]);
    assert r.output[..|s.output|] == s.output;
  }

  /**
   * A progress message of the crate in focus is printed at once; nothing
   * else changes.
   */
  lemma ReceiveFocusProgress(s: State, m: Msg)
    requires Wf(s) && s.phase == Receiving && m.exe == s.current && m.num.Some?
    ensures Receive(s, m) == s.(output := s.output + [(m.exe, m.num.value)])
  {
  }

  /**
   * A message of a known crate that is not in focus is appended to that
   * crate's cache entry; nothing is printed and nothing else changes.
   */
  lemma ReceiveBehind(s: State, m: Msg)
    requires Wf(s) && s.phase == Receiving && m.exe != s.current && m.exe in s.cache
    ensures Receive(s, m) == s.(cache := s.cache[m.exe := s.cache[m.exe] + [m.num]])
  {
  }

  /** The end of the crate in focus advances the focus. */
  lemma ReceiveFocusEnd(s: State, m: Msg)
    requires Wf(s) && s.phase == Receiving && m.exe == s.current && m.num == None
    ensures Receive(s, m) == AdvanceFocus(s)
  {
  }

  /** Receive the messages of `input` in order until the loop stops. */
  function Feed(s: State, input: seq<Msg>): (r: State)
    requires Wf(s)
    ensures Wf(r) && Follows(s, r)
    ensures s.phase != Receiving ==> r == s
    decreases |input|
  {
    if s.phase != Receiving || input == [] then s
    else
      var s1 := Receive(s, input[0]);
      var r := Feed(s1, input[1..]);
      FollowsTransitive(s, s1, r);
      r
  }

  /**
   * The whole loop over a finite input: when the input is exhausted while
   * still receiving, `recv` fails, "done" is printed and the loop stops.
   */
  function Run(s: State, input: seq<Msg>): (r: State)
    requires Wf(s)
    ensures r.phase != Receiving
    ensures r.phase == Disconnected <==> Feed(s, input).phase in {Receiving, Disconnected}
    ensures r.output == Feed(s, input).output && r.cache == Feed(s, input).cache
  {
    var f := Feed(s, input);
    if f.phase == Receiving then f.(phase := Disconnected) else f
  }

  /** Appending one entry behind an entry list with no `None` extends the flushed lines by it. */
  lemma {:induction false} FlushedSnoc(id: string, entries: seq<Option<nat>>, x: Option<nat>)
    requires None !in entries
    ensures Flushed(id, entries + [x]) == Flushed(id, entries) + (if x.Some? then [(id, x.value)] else [])
    decreases |entries|
  {
    if entries == [] {
      assert [x][1..] == [];
    } else {
      assert (entries + [x])[1..] == entries[1..] + [x];
      FlushedSnoc(id, entries[1..], x);
    }
  }

  /** Flushing a prefix prints a prefix; once the prefix holds a `None` it prints everything. */
  lemma FlushedPrefix(id: string, a: seq<Option<nat>>, b: seq<Option<nat>>)
    requires a <= b
    ensures Flushed(id, a) <= Flushed(id, b)
    ensures None in a ==> Flushed(id, a) == Flushed(id, b)
  {
    var fa, fb := Flushed(id, a), Flushed(id, b);
    FlushedUpToEnd(id, a);
    FlushedUpToEnd(id, b);
    assert |fa| < |a| ==> b[|fa|] == None;
    assert |fa| <= |fb|;
    forall i | 0 <= i < |fa| ensures fa[i] == fb[i] {
      assert a[i] == b[i];
    }
    if None in a {
      var j :| 0 <= j < |a| && a[j] == None;
      assert |fb| <= j;
    }
  }

  /** One step of walking a cache entry: a number is printed, a `None` ends the walk. */
  lemma FlushedStep(id: string, entries: seq<Option<nat>>, i: nat)
    requires i < |entries| && None !in entries[..i]
    ensures entries[i].Some? ==>
      && None !in entries[..i + 1]
      && Flushed(id, entries[..i + 1]) == Flushed(id, entries[..i]) + [(id, entries[i].value)]
    ensures entries[i] == None ==> Flushed(id, entries) == Flushed(id, entries[..i])
  {
    assert entries[..i + 1] == entries[..i] + [entries[i]];
    FlushedSnoc(id, entries[..i], entries[i]);
    FlushedPrefix(id, entries[..i + 1], entries);
  }

  lemma {:induction false} FlushAllAppend(a: seq<string>, b: seq<string>, cache: Cache)
    requires AllCached(a, cache) && AllCached(b, cache)
    ensures AllCached(a + b, cache)
    ensures FlushAll(a + b, cache) == FlushAll(a, cache) + FlushAll(b, cache)
    decreases |a|
  {
    if a == [] {
      assert a + b == b;
    } else {
      assert (a + b)[1..] == a[1..] + b;
      FlushAllAppend(a[1..], b, cache);
    }
  }

  /** Flushing depends only on the cache entries of the names flushed. */
  lemma {:induction false} FlushAllAgree(ids: seq<string>, c1: Cache, c2: Cache)
    requires AllCached(ids, c1) && AllCached(ids, c2)
    requires forall i :: 0 <= i < |ids| ==> c1[ids[i]] == c2[ids[i]]
    ensures FlushAll(ids, c1) == FlushAll(ids, c2)
    decreases |ids|
  {
    if ids != [] {
      FlushAllAgree(ids[1..], c1, c2);
    }
  }

  /** Receiving `m` after `input` is feeding `input` and then, if still receiving, `m`. */
  lemma {:induction false} FeedSnoc(s: State, input: seq<Msg>, m: Msg)
    requires Wf(s)
    ensures Feed(s, input + [m]) ==
      (var f := Feed(s, input); if f.phase == Receiving then Receive(f, m) else f)
    decreases |input|
  {
    if s.phase != Receiving {
    } else if input == [] {
      assert [m][1..] == [];
    } else {
      assert (input + [m])[1..] == input[1..] + [m];
      FeedSnoc(Receive(s, input[0]), input[1..], m);
    }
  }

  /** Feeding two inputs one after the other is feeding their concatenation. */
  lemma {:induction false} FeedAppend(s: State, a: seq<Msg>, b: seq<Msg>)
    requires Wf(s)
    ensures Feed(s, a + b) == Feed(Feed(s, a), b)
    decreases |a|
  {
    if s.phase != Receiving {
    } else if a == [] {
      assert a + b == b;
    } else {
      assert (a + b)[1..] == a[1..] + b;
      FeedAppend(Receive(s, a[0]), a[1..], b);
    }
  }

  /**
   * Any later point of a run follows any earlier one: the queue only loses
   * names at its front, cache entries only grow at their end, and printed
   * lines are never taken back.
   */
  lemma FeedPrefixFollows(s: State, input: seq<Msg>, t: nat)
    requires Wf(s) && t <= |input|
    ensures Follows(Feed(s, input[..t]), Feed(s, input))
  {
    assert input[..t] + input[t..] == input;
    FeedAppend(s, input[..t], input[t..]);
  }
}

