/**
 The replay cache for accepted nonce pairs (crates/uk-auth/src/lib.rs): a lookup map with its
 insertion order beside it, pruned by age and evicted by count. Instants are natural numbers.
 */
module AuthReplay {
  import opened Bytes
  import opened AuthCodec
  import opened Protocol
  import opened Queues

  datatype Key = Key(serverNonce: Block, clientNonce: Block)

  datatype Stamp = Stamp(at: nat, key: Key)

  datatype Limits = Limits(window: nat, maxEntries: nat)

  function Keys(order: seq<Stamp>): (keys: seq<Key>)
    ensures |keys| == |order| && forall i :: 0 <= i < |order| ==> keys[i] == order[i].key
  {
    seq(|order|, i requires 0 <= i < |order| => order[i].key)
  }

  /** `now.saturating_duration_since(at) <= window`. */
  predicate Live(s: Stamp, now: nat, window: nat)
  {
    now <= s.at || now - s.at <= window
  }

  // ---------------------------------------------------------------------------------------------
  // The reference: the whole history of acceptances.
  // ---------------------------------------------------------------------------------------------

  /** The pair is among the last `maxEntries` accepted and was accepted at most `window` ago. */
  predicate Recent(history: seq<Stamp>, key: Key, now: nat, l: Limits)
  {
    exists i :: 0 <= i < |history| && |history| - l.maxEntries <= i && history[i].key == key && Live(history[i], now, l.window)
  }

  function Recorded(history: seq<Stamp>, key: Key, now: nat, l: Limits): (h: seq<Stamp>)
  {
    if Recent(history, key, now, l) then history else history + [Stamp(now, key)]
  }

  // ---------------------------------------------------------------------------------------------
  // The queue: what survives pruning and eviction.
  // ---------------------------------------------------------------------------------------------

  function Pruned(order: seq<Stamp>, now: nat, window: nat): (o: seq<Stamp>)
  {
    if order != [] && !Live(order[0], now, window) then Pruned(order[1..], now, window) else order
  }

  function Evicted(order: seq<Stamp>, maxEntries: nat): (o: seq<Stamp>)
  {
    if order != [] && |order| >= maxEntries then Evicted(order[1..], maxEntries) else order
  }

  predicate Held(order: seq<Stamp>, key: Key)
  {
    exists i :: 0 <= i < |order| && order[i].key == key
  }

  function Inserted(order: seq<Stamp>, key: Key, now: nat, l: Limits): (o: seq<Stamp>)
  {
    var live := Pruned(order, now, l.window);
    if Held(live, key) then live else Evicted(live, l.maxEntries) + [Stamp(now, key)]
  }

  lemma {:induction false} PrunedIsTail(order: seq<Stamp>, now: nat, window: nat)
    ensures var o := Pruned(order, now, window);
      var k := |order| - |o|;
      && |o| <= |order| && o == order[k..]
      && (forall i :: 0 <= i < k ==> !Live(order[i], now, window))
      && (o != [] ==> Live(o[0], now, window))
  {
    if order != [] && !Live(order[0], now, window) {
      var later, o := order[1..], Pruned(order, now, window);
      PrunedIsTail(later, now, window);
      var k := |later| - |o|;
      assert order[k + 1..] == later[k..];
      forall i | 0 < i <= k
        ensures !Live(order[i], now, window)
      {
        assert order[i] == later[i - 1];
      }
    }
  }

  lemma {:induction false} EvictedIsTail(order: seq<Stamp>, maxEntries: nat)
    requires maxEntries > 0
    ensures Evicted(order, maxEntries) ==
      if |order| < maxEntries then order else order[|order| - maxEntries + 1..]
  {
    if order != [] && |order| >= maxEntries {
      EvictedIsTail(order[1..], maxEntries);
    }
  }

  predicate InOrder(history: seq<Stamp>, last: nat)
  {
    && (forall i, j :: 0 <= i < j < |history| ==> history[i].at <= history[j].at)
    && (forall i :: 0 <= i < |history| ==> history[i].at <= last)
  }

  /** The queue is the tail of the history; what it lacks is crowded out or too old for good. */
  predicate Tracks(order: seq<Stamp>, history: seq<Stamp>, last: nat, l: Limits)
  {
    && InOrder(history, last)
    && |order| <= |history| && |order| <= l.maxEntries
    && order == history[|history| - |order|..]
    && (forall i :: 0 <= i < |history| - |order| && |history| - l.maxEntries <= i ==> !Live(history[i], last, l.window))
  }

  /** After pruning at a later instant the queue still tracks, and holds live entries only. */
  lemma PruneTracks(order: seq<Stamp>, history: seq<Stamp>, last: nat, now: nat, l: Limits)
    requires Tracks(order, history, last, l) && last <= now
    ensures var live := Pruned(order, now, l.window);
      Tracks(live, history, now, l) && forall i :: 0 <= i < |live| ==> Live(live[i], now, l.window)
  {
    PrunedIsTail(order, now, l.window);
    var live := Pruned(order, now, l.window);
    var start, k := |history| - |order|, |order| - |live|;
    forall i | 0 <= i < |history| - |live| && |history| - l.maxEntries <= i
      ensures !Live(history[i], now, l.window)
    {
      if i >= start {
        assert history[i] == order[i - start];
      }
    }
    forall i | 0 <= i < |live|
      ensures Live(live[i], now, l.window)
    {
      assert live[0] == history[start + k] && live[i] == history[start + k + i];
    }
  }

  /** A tracking, live queue holds exactly the recent pairs. */
  lemma HeldIffRecent(live: seq<Stamp>, history: seq<Stamp>, key: Key, now: nat, l: Limits)
    requires Tracks(live, history, now, l) && forall i :: 0 <= i < |live| ==> Live(live[i], now, l.window)
    ensures Held(live, key) <==> Recent(history, key, now, l)
  {
    var start := |history| - |live|;
    if Held(live, key) {
      var i :| 0 <= i < |live| && live[i].key == key;
      assert history[start + i] == live[i];
    }
    if Recent(history, key, now, l) {
      var i :| 0 <= i < |history| && |history| - l.maxEntries <= i && history[i].key == key && Live(history[i], now, l.window);
      assert i >= start && live[i - start] == history[i];
    }
  }

  /** The queue, pruned, knows a pair exactly when it is recent. */
  lemma QueueDecides(order: seq<Stamp>, history: seq<Stamp>, last: nat, key: Key, now: nat, l: Limits)
    requires Tracks(order, history, last, l) && last <= now
    ensures Held(Pruned(order, now, l.window), key) <==> Recent(history, key, now, l)
  {
    PruneTracks(order, history, last, now, l);
    HeldIffRecent(Pruned(order, now, l.window), history, key, now, l);
  }

  /** One insertion keeps the queue tracking the history. */
  lemma InsertTracks(order: seq<Stamp>, history: seq<Stamp>, last: nat, key: Key, now: nat, l: Limits)
    requires Tracks(order, history, last, l) && last <= now && l.maxEntries > 0
    ensures Tracks(Inserted(order, key, now, l), Recorded(history, key, now, l), now, l)
  {
    var live := Pruned(order, now, l.window);
    QueueDecides(order, history, last, key, now, l);
    assert Tracks(live, history, now, l) by { PruneTracks(order, history, last, now, l); }
    if !Held(live, key) {
      EvictedIsTail(live, l.maxEntries);
      AppendTracks(live, Evicted(live, l.maxEntries), history, Stamp(now, key), l);
      assert Inserted(order, key, now, l) == Evicted(live, l.maxEntries) + [Stamp(now, key)];
      assert Recorded(history, key, now, l) == history + [Stamp(now, key)];
    } else {
      assert Inserted(order, key, now, l) == live && Recorded(history, key, now, l) == history;
    }
  }

  lemma AppendTracks(live: seq<Stamp>, kept: seq<Stamp>, history: seq<Stamp>, s: Stamp, l: Limits)
    requires Tracks(live, history, s.at, l) && l.maxEntries > 0
    requires kept == if |live| < l.maxEntries then live else live[|live| - l.maxEntries + 1..]
    ensures Tracks(kept + [s], history + [s], s.at, l)
  {
    var h, o := history + [s], kept + [s];
    assert o == h[|h| - |o|..];
  }

  // ---------------------------------------------------------------------------------------------
  // Whole runs.
  // ---------------------------------------------------------------------------------------------

  /** The instants of a run never go back, starting from `last`. */
  predicate Monotone(run: seq<Stamp>, last: nat)
  {
    run == [] || (last <= run[0].at && Monotone(run[1..], run[0].at))
  }

  function CacheAnswers(order: seq<Stamp>, run: seq<Stamp>, l: Limits): (replayed: seq<bool>)
    decreases |run|
  {
    if run == [] then []
    else
      [Held(Pruned(order, run[0].at, l.window), run[0].key)]
      + CacheAnswers(Inserted(order, run[0].key, run[0].at, l), run[1..], l)
  }

  function HistoryAnswers(history: seq<Stamp>, run: seq<Stamp>, l: Limits): (replayed: seq<bool>)
    decreases |run|
  {
    if run == [] then []
    else
      [Recent(history, run[0].key, run[0].at, l)]
      + HistoryAnswers(Recorded(history, run[0].key, run[0].at, l), run[1..], l)
  }

  /**
   Over any run with a clock that never goes back, the cache rejects exactly the pairs among the last
   `maxEntries` accepted that were accepted at most `window` ago.
   */
  lemma {:induction false} CacheIsHistory(order: seq<Stamp>, history: seq<Stamp>, last: nat, run: seq<Stamp>, l: Limits)
    requires Tracks(order, history, last, l) && Monotone(run, last) && l.maxEntries > 0
    ensures CacheAnswers(order, run, l) == HistoryAnswers(history, run, l)
    decreases |run|
  {
    if run != [] {
      QueueDecides(order, history, last, run[0].key, run[0].at, l);
      InsertTracks(order, history, last, run[0].key, run[0].at, l);
      CacheIsHistory(Inserted(order, run[0].key, run[0].at, l), Recorded(history, run[0].key, run[0].at, l),
                     run[0].at, run[1..], l);
    }
  }

  // ---------------------------------------------------------------------------------------------
  // The cache as the server holds it.
  // ---------------------------------------------------------------------------------------------

  class ReplayCache {
    const limits: Limits
    var entries: map<Key, nat>
    var order: seq<Stamp>
    ghost var history: seq<Stamp>  // every acceptance
    ghost var last: nat            // the latest instant seen

    /** Map and queue hold the same pairs, each once; together they track the history. */
    ghost predicate Valid()
      reads this
    {
      && limits.maxEntries > 0
      && Lists(Keys(order), entries.Keys)
      && Tracks(order, history, last, limits)
    }

    constructor (window: nat, maxEntries: nat)
      ensures Valid() && order == history == [] && last == 0
      ensures limits == Limits(window, if maxEntries == 0 then 1 else maxEntries)
    {
      limits := Limits(window, if maxEntries == 0 then 1 else maxEntries);
      entries, order, history, last := map[], [], [], 0;
      new;
      assert Keys(order) == [];
    }

    /** Drops the front of the queue from both structures. */
    method PopOldest()
      requires order != [] && Lists(Keys(order), entries.Keys)
      modifies this`entries, this`order
      ensures order == old(order)[1..] && Lists(Keys(order), entries.Keys) && entries.Keys <= old(entries).Keys
    {
      PopFront(Keys(order), entries.Keys);
      assert Keys(order)[1..] == Keys(order[1..]);
      UpdateKeys(entries, order[0].key, 0);
      entries := entries - {order[0].key};
      order := order[1..];
    }

    /** Drops entries whose retention window has elapsed, from the front. */
    method Prune(now: nat)
      requires Lists(Keys(order), entries.Keys)
      modifies this`entries, this`order
      ensures order == Pruned(old(order), now, limits.window) && Lists(Keys(order), entries.Keys)
    {
      while order != [] && !Live(order[0], now, limits.window)
        invariant Lists(Keys(order), entries.Keys)
        invariant Pruned(order, now, limits.window) == Pruned(old(order), now, limits.window)
        decreases |order|
      {
        PopOldest();
      }
    }

    /** Evicts from the front until one more pair fits. */
    method MakeRoom()
      requires Lists(Keys(order), entries.Keys)
      modifies this`entries, this`order
      ensures order == Evicted(old(order), limits.maxEntries)
      ensures Lists(Keys(order), entries.Keys) && entries.Keys <= old(entries).Keys
    {
      ListsMeans(Keys(order), entries.Keys);
      while |entries| >= limits.maxEntries && order != []
        invariant Lists(Keys(order), entries.Keys) && |entries.Keys| == |order| && entries.Keys <= old(entries).Keys
        invariant Evicted(order, limits.maxEntries) == Evicted(old(order), limits.maxEntries)
        decreases |order|
      {
        PopOldest();
        ListsMeans(Keys(order), entries.Keys);
      }
    }

    /** Appends a new pair to both structures. */
    method Push(now: nat, key: Key)
      requires Lists(Keys(order), entries.Keys) && key !in entries
      modifies this`entries, this`order
      ensures order == old(order) + [Stamp(now, key)] && Lists(Keys(order), entries.Keys)
    {
      PushBack(Keys(order), entries.Keys, key);
      assert Keys(order) + [key] == Keys(order + [Stamp(now, key)]);
      UpdateKeys(entries, key, now);
      entries := entries[key := now];
      order := order + [Stamp(now, key)];
    }

    /** Records a nonce pair or rejects it: rejected exactly when it is recent. */
    method CheckAndInsertAt(now: nat, serverNonce: Block, clientNonce: Block) returns (r: Result<(), AuthError>)
      requires Valid() && last <= now
      modifies this
      ensures Valid() && last == now
      ensures r == if Recent(old(history), Key(serverNonce, clientNonce), now, limits) then Err(Replay) else Ok(())
      ensures history == Recorded(old(history), Key(serverNonce, clientNonce), now, limits)
    {
      var key := Key(serverNonce, clientNonce);
      QueueDecides(order, history, last, key, now, limits);
      InsertTracks(order, history, last, key, now, limits);
      ghost var next := Inserted(order, key, now, limits);
      Prune(now);
      HeldMeansPresent(order, entries.Keys, key);
      last, history := now, Recorded(history, key, now, limits);
      if key in entries {
        assert order == next;
        return Err(Replay);
      }
      MakeRoom();
      Push(now, key);
      assert order == next;
      r := Ok(());
    }
  }

  lemma HeldMeansPresent(order: seq<Stamp>, keys: set<Key>, key: Key)
    requires Lists(Keys(order), keys)
    ensures Held(order, key) <==> key in keys
  {
    ListsMeans(Keys(order), keys);
    if key in keys {
      var i :| 0 <= i < |Keys(order)| && Keys(order)[i] == key;
      assert order[i].key == key;
    }
    if Held(order, key) {
      var i :| 0 <= i < |order| && order[i].key == key;
      assert Keys(order)[i] == key;
    }
  }
}
