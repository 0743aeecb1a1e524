/** The bounded FIFO registry of replay windows (crates/uk-mask/src/replay.rs). */
module PreludeReplay {
  import opened Bytes
  import opened Queues
  import opened ReplayWindow

  const WORD_BITS := 64
  const WINDOW_WORDS := REPLAY_WINDOW / WORD_BITS

  // ---------------------------------------------------------------------------------------------
  // The 1024-bit bitmap, packed into sixteen words.
  // ---------------------------------------------------------------------------------------------

  type Bitmap = s: seq<bv64> | |s| == WINDOW_WORDS witness Fill(WINDOW_WORDS, 0)

  const CLEAR: Bitmap := Fill(WINDOW_WORDS, 0)

  predicate BitAt(seen: Bitmap, word: nat, bit: bv7)
    requires word < WINDOW_WORDS && bit < 64
  {
    seen[word] & (1 << bit) != 0
  }

  predicate Bit(seen: Bitmap, distance: nat)
    requires distance < REPLAY_WINDOW
  {
    BitAt(seen, distance / 64, Position(distance))
  }

  function SetAt(seen: Bitmap, word: nat, bit: bv7): (seen': Bitmap)
    requires word < WINDOW_WORDS && bit < 64
  {
    seen[word := seen[word] | (1 << bit)]
  }

  function SetBit(seen: Bitmap, distance: nat): (seen': Bitmap)
    requires distance < REPLAY_WINDOW
  {
    SetAt(seen, distance / 64, Position(distance))
  }

  /** The bit of its word that stands for a distance. */
  function Position(distance: nat): (bit: bv7)
    ensures bit < 64 && bit as int == distance % 64
  {
    ShiftIsSmall(distance % 64);
    ShiftIsExact(distance % 64);
    (distance % 64) as bv7
  }

  lemma ShiftIsSmall(a: nat)
    requires a < WORD_BITS
    ensures (a as bv7) < 64
  {
  }

  lemma ShiftIsExact(a: nat)
    requires a < WORD_BITS
    ensures (a as bv7) as int == a
  {
  }

  function MarksOf(seen: Bitmap): (m: Marks)
  {
    seq(REPLAY_WINDOW, d requires 0 <= d < REPLAY_WINDOW => Bit(seen, d))
  }

  lemma SetThenTest(word: bv64, a: bv7, b: bv7)
    requires a < 64 && b < 64
    ensures (word | (1 << a)) & (1 << b) != 0 <==> word & (1 << b) != 0 || a == b
  {
  }

  lemma AfterSetAt(seen: Bitmap, word: nat, bit: bv7, w: nat, b: bv7)
    requires word < WINDOW_WORDS && w < WINDOW_WORDS && bit < 64 && b < 64
    ensures BitAt(SetAt(seen, word, bit), w, b) <==> BitAt(seen, w, b) || (w == word && b == bit)
  {
    if w == word {
      SetThenTest(seen[word], bit, b);
    }
  }

  lemma BitAfterSet(seen: Bitmap, distance: nat, d: nat)
    requires distance < REPLAY_WINDOW && d < REPLAY_WINDOW
    ensures Bit(SetBit(seen, distance), d) <==> Bit(seen, d) || d == distance
  {
    AfterSetAt(seen, distance / 64, Position(distance), d / 64, Position(d));
    if d / 64 == distance / 64 {
      SameBit(d, distance);
    }
  }

  lemma SameBit(a: nat, b: nat)
    requires a / 64 == b / 64
    ensures Position(a) == Position(b) <==> a == b
  {
  }

  /** Setting a bit marks that distance and no other. */
  lemma SetBitMarks(seen: Bitmap, distance: nat)
    requires distance < REPLAY_WINDOW
    ensures MarksOf(SetBit(seen, distance)) == MarksOf(seen)[distance := true]
  {
    forall d | 0 <= d < REPLAY_WINDOW
      ensures MarksOf(SetBit(seen, distance))[d] == MarksOf(seen)[distance := true][d]
    {
      BitAfterSet(seen, distance, d);
    }
  }

  method MarkDistance(seen: Bitmap, distance: nat) returns (seen': Bitmap)
    requires distance < REPLAY_WINDOW
    ensures MarksOf(seen') == MarksOf(seen)[distance := true]
  {
    SetBitMarks(seen, distance);
    seen' := SetBit(seen, distance);
  }

  lemma ClearMarksNothing()
    ensures forall d :: 0 <= d < REPLAY_WINDOW ==> !MarksOf(CLEAR)[d]
  {
    forall d | 0 <= d < REPLAY_WINDOW
      ensures !Bit(CLEAR, d)
    {
      var mask: bv64 := 1 << Position(d);
      assert 0 & mask == 0;
    }
  }

  /** The word-packed window of one identity. */
  datatype Entry = Entry(highest: U64, seen: Bitmap)

  function WindowOf(e: Entry): (w: Window)
  {
    Window(e.highest, MarksOf(e.seen))
  }

  function FreshEntry(counter: U64): (e: Entry)
  {
    Entry(counter, CLEAR[0 := 1])
  }

  lemma FreshEntryIsFresh(counter: U64)
    ensures WindowOf(FreshEntry(counter)) == Fresh(counter)
  {
    ClearMarksNothing();
    SetBitMarks(CLEAR, 0);
    assert SetBit(CLEAR, 0) == CLEAR[0 := 1];
    assert MarksOf(CLEAR)[0 := true] == Fresh(counter).marks;
  }

  /** The bit-by-bit move of replay.rs:72-85, in the direction the loop there takes. */
  method Advance(seen: Bitmap, advance: nat) returns (shifted: Bitmap)
    ensures MarksOf(shifted) == Moved(MarksOf(seen), advance, AsWritten)
  {
    ClearMarksNothing();
    shifted := CLEAR;
    if advance >= REPLAY_WINDOW {
      return;
    }
    for target := 0 to REPLAY_WINDOW
      invariant forall d :: 0 <= d < REPLAY_WINDOW ==>
        MarksOf(shifted)[d] == (d < target && Moved(MarksOf(seen), advance, AsWritten)[d])
    {
      var source := target + advance;
      if source < REPLAY_WINDOW && Bit(seen, source) {
        shifted := MarkDistance(shifted, target);
      }
    }
  }

  /** Marks an admitted counter in a packed window. */
  method Mark(e: Entry, counter: U64) returns (e': Entry)
    requires Admits(WindowOf(e), counter) == Accepted
    ensures WindowOf(e') == Committed(WindowOf(e), counter, AsWritten)
  {
    if counter > e.highest {
      var shifted := Advance(e.seen, counter - e.highest);
      shifted := MarkDistance(shifted, 0);
      e' := Entry(counter, shifted);
    } else {
      var seen := MarkDistance(e.seen, e.highest - counter);
      e' := Entry(e.highest, seen);
    }
  }

  // ---------------------------------------------------------------------------------------------
  // The registry as a value.
  // ---------------------------------------------------------------------------------------------

  datatype Registry = Registry(order: seq<U64>, windows: map<U64, Window>)

  /** Queue and map hold the same identities, each once, within capacity. */
  ghost predicate Kept(s: Registry, capacity: nat)
  {
    Lists(s.order, s.windows.Keys) && |s.order| <= capacity
  }

  function Answer(s: Registry, id: U64, counter: U64): (d: Decision)
  {
    if id in s.windows then Admits(s.windows[id], counter)
    else if counter == 0 then Rejected(Zero)
    else Accepted
  }

  function Evict(s: Registry, capacity: nat): (s': Registry)
  {
    if |s.windows| == capacity && s.order != [] then Registry(s.order[1..], s.windows - {s.order[0]}) else s
  }

  function AfterCommit(s: Registry, capacity: nat, id: U64, counter: U64, shift: Shift): (s': Registry)
  {
    if Answer(s, id, counter) != Accepted then s
    else if id in s.windows then s.(windows := s.windows[id := Committed(s.windows[id], counter, shift)])
    else
      var room := Evict(s, capacity);
      Registry(room.order + [id], room.windows[id := Fresh(counter)])
  }

  lemma EvictKeeps(s: Registry, capacity: nat)
    requires Kept(s, capacity) && capacity > 0
    ensures Kept(Evict(s, capacity), capacity) && |Evict(s, capacity).order| < capacity
    ensures Evict(s, capacity).windows.Keys <= s.windows.Keys
  {
    ListsMeans(s.order, s.windows.Keys);
    if |s.windows| == capacity {
      PopFront(s.order, s.windows.Keys);
      UpdateKeys(s.windows, s.order[0], s.windows[s.order[0]]);
    }
  }

  /** Every commit keeps queue and map in step and within capacity, with either shift. */
  lemma CommitKeeps(s: Registry, capacity: nat, id: U64, counter: U64, shift: Shift)
    requires Kept(s, capacity) && capacity > 0
    ensures Kept(AfterCommit(s, capacity, id, counter, shift), capacity)
  {
    if Answer(s, id, counter) == Accepted {
      if id in s.windows {
        UpdateKeys(s.windows, id, Committed(s.windows[id], counter, shift));
        assert s.windows.Keys + {id} == s.windows.Keys;
      } else {
        var room := Evict(s, capacity);
        EvictKeeps(s, capacity);
        PushBack(room.order, room.windows.Keys, id);
        UpdateKeys(room.windows, id, Fresh(counter));
      }
    }
  }

  datatype Attempt = Attempt(identity: U64, counter: U64)

  /** The registry's state before each attempt of a run, and after the last. */
  function Trace(s: Registry, capacity: nat, run: seq<Attempt>, shift: Shift): (states: seq<Registry>)
    ensures |states| == |run| + 1 && states[0] == s
    ensures forall i :: 0 <= i < |run| ==>
      states[i + 1] == AfterCommit(states[i], capacity, run[i].identity, run[i].counter, shift)
    decreases |run|
  {
    if run == [] then [s]
    else [s] + Trace(AfterCommit(s, capacity, run[0].identity, run[0].counter, shift), capacity, run[1..], shift)
  }

  predicate AcceptedAt(states: seq<Registry>, run: seq<Attempt>, i: nat)
    requires i < |run| < |states|
  {
    Answer(states[i], run[i].identity, run[i].counter) == Accepted
  }

  /** The identity is registered in every state after attempt `i` up to the one before attempt `j`. */
  predicate RegisteredBetween(states: seq<Registry>, identity: U64, i: nat, j: nat)
    requires j < |states|
  {
    forall k :: i < k <= j ==> identity in states[k].windows
  }

  /** While its identity stays registered, an accepted counter stays remembered (documented shift). */
  lemma {:induction false} MemoryLastsWhileRegistered(
      s: Registry, capacity: nat, run: seq<Attempt>, i: nat, j: nat)
    requires Kept(s, capacity) && capacity > 0
    requires i < j <= |run| && AcceptedAt(Trace(s, capacity, run, Documented), run, i)
    requires RegisteredBetween(Trace(s, capacity, run, Documented), run[i].identity, i, j)
    ensures var states := Trace(s, capacity, run, Documented);
      Remembers(states[j].windows[run[i].identity], run[i].counter)
    decreases j
  {
    var states := Trace(s, capacity, run, Documented);
    var id, counter := run[i].identity, run[i].counter;
    if j == i + 1 {
      assert states[j] == AfterCommit(states[i], capacity, id, counter, Documented);
      if id in states[i].windows {
        CommitRemembers(states[i].windows[id], counter, Documented);
      }
    } else {
      MemoryLastsWhileRegistered(s, capacity, run, i, j - 1);
      var before, last := states[j - 1], run[j - 1];
      assert states[j] == AfterCommit(before, capacity, last.identity, last.counter, Documented);
      if last.identity == id {
        DocumentedKeepsMemory(before.windows[id], counter, last.counter);
      }
    }
  }

  /**
   With the documented shift, over any run of any identities: a counter accepted twice for one
   identity means that identity was evicted in between.
   */
  lemma {:induction false} AcceptedOncePerRegistration(s: Registry, capacity: nat, run: seq<Attempt>, i: nat, j: nat)
    requires Kept(s, capacity) && capacity > 0
    requires i < j < |run| && run[i] == run[j]
    requires AcceptedAt(Trace(s, capacity, run, Documented), run, i)
    requires AcceptedAt(Trace(s, capacity, run, Documented), run, j)
    ensures !RegisteredBetween(Trace(s, capacity, run, Documented), run[i].identity, i, j)
  {
    var states := Trace(s, capacity, run, Documented);
    if RegisteredBetween(states, run[i].identity, i, j) {
      MemoryLastsWhileRegistered(s, capacity, run, i, j);
      RememberedIsRejected(states[j].windows[run[i].identity], run[i].counter);
    }
  }

  // ---------------------------------------------------------------------------------------------
  // The registry against the history of its run.
  // ---------------------------------------------------------------------------------------------

  /** The attempt that last registered the identity, for an identity registered before attempt `j`. */
  function Since(states: seq<Registry>, id: U64, j: nat): (i: nat)
    requires j < |states|
    ensures i <= j && (forall k :: i < k < j ==> id in states[k].windows) && (i > 0 && i < j ==> id !in states[i].windows)
  {
    if j == 0 then 0
    else if id in states[j - 1].windows then Since(states, id, j - 1)
    else j - 1
  }

  /** The counters of the identity accepted by the attempts from `i` up to before `j`. */
  function AcceptedFrom(states: seq<Registry>, run: seq<Attempt>, id: U64, i: nat, j: nat): (seen: set<int>)
    requires j <= |run| < |states|
  {
    if j <= i then {}
    else
      var last := run[j - 1];
      AcceptedFrom(states, run, id, i, j - 1)
      + if last.identity == id && AcceptedAt(states, run, j - 1) then {last.counter as int} else {}
  }

  lemma {:induction false} AcceptedFromMeans(states: seq<Registry>, run: seq<Attempt>, id: U64, i: nat, j: nat, c: U64)
    requires j <= |run| < |states|
    ensures c in AcceptedFrom(states, run, id, i, j) <==>
      exists k :: i <= k < j && run[k] == Attempt(id, c) && AcceptedAt(states, run, k)
    decreases j
  {
    if j > i {
      AcceptedFromMeans(states, run, id, i, j - 1, c);
      if run[j - 1] == Attempt(id, c) && AcceptedAt(states, run, j - 1) {
        assert c in AcceptedFrom(states, run, id, i, j);
      }
    }
  }

  /** The registered window of the identity is exact for these counters. */
  ghost predicate Summarises(s: Registry, id: U64, seen: set<int>)
  {
    id in s.windows && Exact(s.windows[id], seen)
  }

  lemma RegistrationIsExact(s: Registry, capacity: nat, a: Attempt)
    requires a.identity !in s.windows && Answer(s, a.identity, a.counter) == Accepted
    ensures Summarises(AfterCommit(s, capacity, a.identity, a.counter, Documented), a.identity, {a.counter as int})
  {
    FreshIsExact(a.counter);
  }

  lemma StepStaysExact(s: Registry, capacity: nat, a: Attempt, id: U64, seen: set<int>)
    requires Summarises(s, id, seen) && id in AfterCommit(s, capacity, a.identity, a.counter, Documented).windows
    ensures var counts := a.identity == id && Answer(s, a.identity, a.counter) == Accepted;
      Summarises(AfterCommit(s, capacity, a.identity, a.counter, Documented), id, seen + if counts then {a.counter as int} else {})
  {
    if a.identity == id && Answer(s, id, a.counter) == Accepted {
      DocumentedStaysExact(s.windows[id], seen, a.counter);
    } else {
      assert seen + {} == seen;
    }
  }

  lemma {:induction false} ExactSinceRegistration(capacity: nat, run: seq<Attempt>, id: U64, j: nat)
    requires j <= |run| && id in Trace(Registry([], map[]), capacity, run, Documented)[j].windows
    ensures var states := Trace(Registry([], map[]), capacity, run, Documented);
      Summarises(states[j], id, AcceptedFrom(states, run, id, Since(states, id, j), j))
    decreases j
  {
    var states := Trace(Registry([], map[]), capacity, run, Documented);
    var last := run[j - 1];
    assert states[j] == AfterCommit(states[j - 1], capacity, last.identity, last.counter, Documented);
    if id in states[j - 1].windows {
      ExactSinceRegistration(capacity, run, id, j - 1);
      StepStaysExact(states[j - 1], capacity, last, id, AcceptedFrom(states, run, id, Since(states, id, j - 1), j - 1));
    } else {
      assert AcceptedFrom(states, run, id, j - 1, j - 1) == {};
      RegistrationIsExact(states[j - 1], capacity, last);
    }
  }

  /**
   With the documented shift, over every run of all identities from an empty registry, every answer is
   the history's: a registered identity is answered from the counters accepted since it was last
   registered, cut 1023 below the highest of them, and any other gets in with every counter but zero.
   */
  lemma RegistryRefinesHistory(capacity: nat, run: seq<Attempt>, id: U64, j: nat, c: U64)
    requires j <= |run|
    ensures var states := Trace(Registry([], map[]), capacity, run, Documented);
      Answer(states[j], id, c) ==
        if id in states[j].windows
        then Expected(states[j].windows[id].highest, AcceptedFrom(states, run, id, Since(states, id, j), j), c)
        else if c == 0 then Rejected(Zero) else Accepted
    ensures var states := Trace(Registry([], map[]), capacity, run, Documented);
      id in states[j].windows ==>
        History(states[j].windows[id].highest, AcceptedFrom(states, run, id, Since(states, id, j), j))
  {
    var states := Trace(Registry([], map[]), capacity, run, Documented);
    if id in states[j].windows {
      ExactSinceRegistration(capacity, run, id, j);
      ExactDecides(states[j].windows[id], AcceptedFrom(states, run, id, Since(states, id, j), j), c);
    }
  }

  /** `Duplicate` is answered only for a counter that was accepted since the identity was registered. */
  lemma DuplicateWasAccepted(capacity: nat, run: seq<Attempt>, id: U64, j: nat, c: U64)
    requires j <= |run|
    requires Answer(Trace(Registry([], map[]), capacity, run, Documented)[j], id, c) == Rejected(Duplicate)
    ensures var states := Trace(Registry([], map[]), capacity, run, Documented);
      exists k :: Since(states, id, j) <= k < j && run[k] == Attempt(id, c) && AcceptedAt(states, run, k)
  {
    var states := Trace(Registry([], map[]), capacity, run, Documented);
    RegistryRefinesHistory(capacity, run, id, j, c);
    AcceptedFromMeans(states, run, id, Since(states, id, j), j, c);
  }

  // ---------------------------------------------------------------------------------------------
  // Who is registered.
  // ---------------------------------------------------------------------------------------------

  /** The attempt registers its identity: a legal counter of an identity the registry does not hold. */
  predicate Registers(states: seq<Registry>, run: seq<Attempt>, k: nat)
    requires k < |run| < |states|
  {
    run[k].identity !in states[k].windows && run[k].counter != 0
  }

  /** The identities registered by the attempts before `j`, in order; one that comes back is listed again. */
  function Registrations(states: seq<Registry>, run: seq<Attempt>, j: nat): (ids: seq<U64>)
    requires j <= |run| < |states|
  {
    if j == 0 then []
    else Registrations(states, run, j - 1) + if Registers(states, run, j - 1) then [run[j - 1].identity] else []
  }

  /** The last `n` of a sequence, or all of it when it is shorter. */
  function LastOf<T>(s: seq<T>, n: nat): (t: seq<T>)
    ensures |t| == if |s| < n then |s| else n
  {
    if |s| <= n then s else s[|s| - n..]
  }

  lemma LastOfAppend<T>(s: seq<T>, x: T, n: nat)
    requires n > 0
    ensures LastOf(s + [x], n) == (if |LastOf(s, n)| == n then LastOf(s, n)[1..] else LastOf(s, n)) + [x]
  {
  }

  /** One commit and the queue: untouched, grown at the back, or at capacity moved on by one. */
  lemma CommitMovesQueue(s: Registry, capacity: nat, a: Attempt, shift: Shift)
    requires Kept(s, capacity) && capacity > 0
    ensures AfterCommit(s, capacity, a.identity, a.counter, shift).order ==
      if a.identity in s.windows || a.counter == 0 then s.order
      else (if |s.order| == capacity then s.order[1..] else s.order) + [a.identity]
  {
    ListsMeans(s.order, s.windows.Keys);
    assert |s.windows| == |s.windows.Keys|;
  }

  /**
   Over every run from an empty registry, with either shift, the registry holds exactly the identities of
   the last `capacity` registrations, oldest first: only at capacity is one evicted, and then the oldest.
   */
  lemma {:induction false} HoldsLastRegistrations(capacity: nat, run: seq<Attempt>, j: nat, shift: Shift)
    requires capacity > 0 && j <= |run|
    ensures var states := Trace(Registry([], map[]), capacity, run, shift);
      Kept(states[j], capacity) && states[j].order == LastOf(Registrations(states, run, j), capacity)
    decreases j
  {
    var states := Trace(Registry([], map[]), capacity, run, shift);
    if j > 0 {
      var s, a := states[j - 1], run[j - 1];
      HoldsLastRegistrations(capacity, run, j - 1, shift);
      assert states[j] == AfterCommit(s, capacity, a.identity, a.counter, shift);
      CommitKeeps(s, capacity, a.identity, a.counter, shift);
      CommitMovesQueue(s, capacity, a, shift);
      QueueFollows(states, run, j, capacity);
    }
  }

  lemma QueueFollows(states: seq<Registry>, run: seq<Attempt>, j: nat, capacity: nat)
    requires 0 < j <= |run| < |states| && capacity > 0
    requires states[j - 1].order == LastOf(Registrations(states, run, j - 1), capacity)
    requires states[j].order ==
      if Registers(states, run, j - 1)
      then (if |states[j - 1].order| == capacity then states[j - 1].order[1..] else states[j - 1].order) + [run[j - 1].identity]
      else states[j - 1].order
    ensures states[j].order == LastOf(Registrations(states, run, j), capacity)
  {
    var before := Registrations(states, run, j - 1);
    if Registers(states, run, j - 1) {
      LastOfAppend(before, run[j - 1].identity, capacity);
    } else {
      assert before + [] == before;
    }
  }

  /** An identity is held exactly while it is among the last `capacity` registrations. */
  lemma HeldIffAmongLast(capacity: nat, run: seq<Attempt>, j: nat, shift: Shift, id: U64)
    requires capacity > 0 && j <= |run|
    ensures var states := Trace(Registry([], map[]), capacity, run, shift);
      id in states[j].windows <==> id in LastOf(Registrations(states, run, j), capacity)
  {
    var states := Trace(Registry([], map[]), capacity, run, shift);
    HoldsLastRegistrations(capacity, run, j, shift);
    ListsMeans(states[j].order, states[j].windows.Keys);
  }

  /** Once registered, an identity stays until `capacity` others have registered after it. */
  lemma StaysUntilCrowdedOut(capacity: nat, run: seq<Attempt>, i: nat, j: nat, shift: Shift)
    requires capacity > 0 && i < j <= |run| && Registers(Trace(Registry([], map[]), capacity, run, shift), run, i)
    requires var states := Trace(Registry([], map[]), capacity, run, shift);
      |Registrations(states, run, j)| - |Registrations(states, run, i + 1)| < capacity
    ensures run[i].identity in Trace(Registry([], map[]), capacity, run, shift)[j].windows
  {
    var states := Trace(Registry([], map[]), capacity, run, shift);
    RegistrationsGrow(states, run, i + 1, j);
    var ids, p := Registrations(states, run, j), |Registrations(states, run, i)|;
    assert Registrations(states, run, i + 1)[p] == run[i].identity;
    assert ids[p] == run[i].identity;
    InLast(ids, p, capacity);
    HeldIffAmongLast(capacity, run, j, shift, run[i].identity);
  }

  lemma InLast<T>(s: seq<T>, p: nat, n: nat)
    requires p < |s| && |s| - p <= n
    ensures s[p] in LastOf(s, n)
  {
    if |s| > n {
      assert LastOf(s, n)[p - (|s| - n)] == s[p];
    }
  }

  lemma {:induction false} RegistrationsGrow(states: seq<Registry>, run: seq<Attempt>, i: nat, j: nat)
    requires i <= j <= |run| < |states|
    ensures Registrations(states, run, i) <= Registrations(states, run, j)
    decreases j
  {
    if i < j {
      RegistrationsGrow(states, run, i, j - 1);
    }
  }

  // ---------------------------------------------------------------------------------------------
  // The registry as the server holds it.
  // ---------------------------------------------------------------------------------------------

  ghost function Windows(entries: map<U64, Entry>): (windows: map<U64, Window>)
    ensures windows.Keys == entries.Keys
  {
    map id | id in entries :: WindowOf(entries[id])
  }

  lemma WindowsFollow(entries: map<U64, Entry>, id: U64, e: Entry)
    ensures Windows(entries[id := e]) == Windows(entries)[id := WindowOf(e)]
    ensures Windows(entries - {id}) == Windows(entries) - {id}
  {
  }

  class ReplayRegistry {
    var order: seq<U64>
    var entries: map<U64, Entry>
    const capacity: nat

    ghost function View(): (s: Registry)
      reads this
    {
      Registry(order, Windows(entries))
    }

    ghost predicate Valid()
      reads this
    {
      capacity > 0 && Kept(View(), capacity)
    }

    constructor (capacity: nat)
      requires capacity > 0
      ensures Valid() && this.capacity == capacity && View() == Registry([], map[])
    {
      this.capacity := capacity;
      order, entries := [], map[];
    }

    method Precheck(identity: U64, counter: U64) returns (d: Decision)
      requires Valid()
      ensures d == Answer(View(), identity, counter)
    {
      if identity in entries {
        d := AdmitsEntry(entries[identity], counter);
      } else if counter == 0 {
        d := Rejected(Zero);
      } else {
        d := Accepted;
      }
    }

    /** Re-validates and commits a counter, exactly as the value-level step with the shift as written. */
    method Commit(identity: U64, counter: U64) returns (d: Decision)
      requires Valid()
      modifies this
      ensures Valid()
      ensures d == Answer(old(View()), identity, counter)
      ensures View() == AfterCommit(old(View()), capacity, identity, counter, AsWritten)
    {
      CommitKeeps(View(), capacity, identity, counter, AsWritten);
      d := Precheck(identity, counter);
      if d != Accepted {
        return;
      }
      if identity in entries {
        var entry := Mark(entries[identity], counter);
        WindowsFollow(entries, identity, entry);
        entries := entries[identity := entry];
      } else {
        if |entries| == capacity && order != [] {
          WindowsFollow(entries, order[0], FreshEntry(counter));
          entries := entries - {order[0]};
          order := order[1..];
        }
        FreshEntryIsFresh(counter);
        WindowsFollow(entries, identity, FreshEntry(counter));
        order := order + [identity];
        entries := entries[identity := FreshEntry(counter)];
      }
    }
  }

  function AdmitsEntry(e: Entry, counter: U64): (d: Decision)
    ensures d == Admits(WindowOf(e), counter)
  {
    if counter == 0 then Rejected(Zero)
    else if counter > e.highest then Accepted
    else
      var distance := e.highest - counter;
      if distance == 0 || (distance < REPLAY_WINDOW && Bit(e.seen, distance)) then Rejected(Duplicate)
      else if distance < REPLAY_WINDOW then Accepted
      else Rejected(BelowWindow)
  }
}
