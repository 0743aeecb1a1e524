/**
 The per-identity sliding replay window (crates/uk-mask/src/replay.rs), as a value.

 A window is the highest committed counter and 1024 marks; mark `d` stands for `highest - d`
 (replay.rs:48). Committing a new highest moves the marks. The comment at line 48 fixes the
 direction they must move in; the loop at lines 78-83 moves them the other way. Both are
 modelled: `Documented` is the comment's shift and `AsWritten` is the loop's.
 */
module ReplayWindow {
  import opened Bytes

  const REPLAY_WINDOW := 1024

  datatype Replayed = Zero | Duplicate | BelowWindow

  datatype Decision = Accepted | Rejected(reason: Replayed)

  datatype Shift = AsWritten | Documented

  type Marks = m: seq<bool> | |m| == REPLAY_WINDOW witness seq(REPLAY_WINDOW, _ => false)

  datatype Window = Window(highest: U64, marks: Marks)

  function Fresh(counter: U64): (w: Window)
  {
    Window(counter, seq(REPLAY_WINDOW, d => d == 0))
  }

  function Moved(marks: Marks, advance: nat, shift: Shift): (m: Marks)
  {
    seq(REPLAY_WINDOW, target requires 0 <= target < REPLAY_WINDOW =>
      match shift
      case AsWritten => target + advance < REPLAY_WINDOW && marks[target + advance]
      case Documented => advance <= target && marks[target - advance])
  }

  function Admits(w: Window, counter: U64): (d: Decision)
  {
    if counter == 0 then Rejected(Zero)
    else if counter > w.highest then Accepted
    else
      var distance := w.highest - counter;
      if distance == 0 || (distance < REPLAY_WINDOW && w.marks[distance]) then Rejected(Duplicate)
      else if distance < REPLAY_WINDOW then Accepted
      else Rejected(BelowWindow)
  }

  /** The window after an attempt to commit `counter`; a rejected counter leaves it alone. */
  function Committed(w: Window, counter: U64, shift: Shift): (w': Window)
  {
    if Admits(w, counter) != Accepted then w
    else if counter > w.highest then Window(counter, Moved(w.marks, counter - w.highest, shift)[0 := true])
    else w.(marks := w.marks[w.highest - counter := true])
  }

  function AfterRun(w: Window, counters: seq<U64>, shift: Shift): (w': Window)
    decreases |counters|
  {
    if counters == [] then w else AfterRun(Committed(w, counters[0], shift), counters[1..], shift)
  }

  function Decisions(w: Window, counters: seq<U64>, shift: Shift): (ds: seq<Decision>)
    ensures |ds| == |counters|
    decreases |counters|
  {
    if counters == [] then []
    else [Admits(w, counters[0])] + Decisions(Committed(w, counters[0], shift), counters[1..], shift)
  }

  // ---------------------------------------------------------------------------------------------
  // The reference: everything ever committed, cut at the window's lower edge.
  // ---------------------------------------------------------------------------------------------

  function Expected(highest: U64, seen: set<int>, counter: U64): (d: Decision)
  {
    if counter == 0 then Rejected(Zero)
    else if counter > highest then Accepted
    else if counter + REPLAY_WINDOW <= highest then Rejected(BelowWindow)
    else if counter in seen then Rejected(Duplicate)
    else Accepted
  }

  function ExpectedDecisions(highest: U64, seen: set<int>, counters: seq<U64>): (ds: seq<Decision>)
    ensures |ds| == |counters|
    decreases |counters|
  {
    if counters == [] then []
    else
      var c, d := counters[0], Expected(highest, seen, counters[0]);
      [d] + if d != Accepted then ExpectedDecisions(highest, seen, counters[1..])
            else ExpectedDecisions(if c > highest then c else highest, seen + {c}, counters[1..])
  }

  /** `seen` is a history with `highest` on top; counter zero is never committed. */
  predicate History(highest: U64, seen: set<int>)
  {
    highest in seen && forall c :: c in seen ==> 0 < c <= highest
  }

  /** The marks are exactly the committed counters inside the window. */
  ghost predicate Exact(w: Window, seen: set<int>)
  {
    && History(w.highest, seen)
    && forall d :: 0 <= d < REPLAY_WINDOW ==> (w.marks[d] <==> w.highest - d in seen)
  }

  lemma FreshIsExact(counter: U64)
    requires counter > 0
    ensures Exact(Fresh(counter), {counter as int})
  {
  }

  lemma ExactDecides(w: Window, seen: set<int>, counter: U64)
    requires Exact(w, seen)
    ensures Admits(w, counter) == Expected(w.highest, seen, counter)
  {
    if 0 < counter <= w.highest && w.highest - counter < REPLAY_WINDOW {
      assert w.highest - (w.highest - counter) == counter;
    }
  }

  /** The documented shift keeps the marks exact. */
  lemma DocumentedStaysExact(w: Window, seen: set<int>, counter: U64)
    requires Exact(w, seen) && Admits(w, counter) == Accepted
    ensures Exact(Committed(w, counter, Documented), seen + {counter as int})
  {
    var w', seen' := Committed(w, counter, Documented), seen + {counter as int};
    forall d | 0 <= d < REPLAY_WINDOW
      ensures w'.marks[d] <==> w'.highest - d in seen'
    {
      if counter > w.highest && d >= counter - w.highest {
        assert w'.highest - d == w.highest - (d - (counter - w.highest));
      }
    }
  }

  /** With the documented shift, over any run, the window answers as the full history would. */
  lemma {:induction false} DocumentedRefinesHistory(w: Window, seen: set<int>, counters: seq<U64>)
    requires Exact(w, seen)
    ensures Decisions(w, counters, Documented) == ExpectedDecisions(w.highest, seen, counters)
    decreases |counters|
  {
    if counters != [] {
      var c := counters[0];
      ExactDecides(w, seen, c);
      if Admits(w, c) == Accepted {
        DocumentedStaysExact(w, seen, c);
        DocumentedRefinesHistory(Committed(w, c, Documented), seen + {c as int}, counters[1..]);
      } else {
        DocumentedRefinesHistory(w, seen, counters[1..]);
      }
    }
  }

  // ---------------------------------------------------------------------------------------------
  // No counter twice.
  // ---------------------------------------------------------------------------------------------

  /** `counter` can never be admitted again: it is marked or has fallen below the window. */
  predicate Remembers(w: Window, counter: U64)
  {
    counter <= w.highest && (counter + REPLAY_WINDOW <= w.highest || w.marks[w.highest - counter])
  }

  lemma CommitRemembers(w: Window, counter: U64, shift: Shift)
    requires Admits(w, counter) == Accepted
    ensures Remembers(Committed(w, counter, shift), counter)
  {
  }

  lemma RememberedIsRejected(w: Window, counter: U64)
    requires Remembers(w, counter)
    ensures Admits(w, counter) != Accepted
  {
  }

  lemma DocumentedKeepsMemory(w: Window, counter: U64, other: U64)
    requires Remembers(w, counter)
    ensures Remembers(Committed(w, other, Documented), counter)
  {
    var w' := Committed(w, other, Documented);
    if w'.highest > w.highest && counter + REPLAY_WINDOW > w'.highest {
      assert Moved(w.marks, other - w.highest, Documented)[w'.highest - counter] == w.marks[w.highest - counter];
    }
  }

  /** With the documented shift no counter is accepted twice, whatever comes in between. */
  lemma {:induction false} DocumentedAtMostOnce(w: Window, counters: seq<U64>, i: nat, j: nat)
    requires i < j < |counters| && counters[i] == counters[j]
    ensures var ds := Decisions(w, counters, Documented); ds[i] != Accepted || ds[j] != Accepted
    decreases |counters|
  {
    var next := Committed(w, counters[0], Documented);
    if i > 0 {
      DocumentedAtMostOnce(next, counters[1..], i - 1, j - 1);
    } else if Admits(w, counters[0]) == Accepted {
      CommitRemembers(w, counters[0], Documented);
      MemoryLasts(next, counters[0], counters[1..], j - 1);
    }
  }

  lemma {:induction false} MemoryLasts(w: Window, counter: U64, counters: seq<U64>, j: nat)
    requires Remembers(w, counter) && j < |counters| && counters[j] == counter
    ensures Decisions(w, counters, Documented)[j] != Accepted
    decreases |counters|
  {
    if j == 0 {
      RememberedIsRejected(w, counter);
    } else {
      DocumentedKeepsMemory(w, counter, counters[0]);
      MemoryLasts(Committed(w, counters[0], Documented), counter, counters[1..], j - 1);
    }
  }

  // ---------------------------------------------------------------------------------------------
  // The shift as written.
  // ---------------------------------------------------------------------------------------------

  /** The run 10, 11, 10 commits 10 twice, and after 10, 4, 12 the never-committed 8 is a duplicate. */
  lemma AsWrittenParts()
    ensures Decisions(Fresh(10), [11, 10], AsWritten) == [Accepted, Accepted]
    ensures ExpectedDecisions(10, {10}, [11, 10]) == [Accepted, Rejected(Duplicate)]
    ensures Decisions(Fresh(10), [4, 12, 8], AsWritten) == [Accepted, Accepted, Rejected(Duplicate)]
    ensures ExpectedDecisions(10, {10}, [4, 12, 8]) == [Accepted, Accepted, Accepted]
  {
    var w := Committed(Fresh(10), 11, AsWritten);
    assert Admits(w, 10) == Accepted;
    Unroll2(Fresh(10), 11, 10);
    var v := Committed(Committed(Fresh(10), 4, AsWritten), 12, AsWritten);
    assert v.marks[4];
    Unroll3(Fresh(10), 4, 12, 8);
    assert ExpectedDecisions(11, {10, 11}, [10]) == [Rejected(Duplicate)];
    assert [11 as U64, 10][1..] == [10];
    assert [4 as U64, 12, 8][1..] == [12, 8];
    assert [12 as U64, 8][1..] == [8];
    assert ExpectedDecisions(12, {10, 4, 12}, [8]) == [Accepted];
    assert ExpectedDecisions(10, {10, 4}, [12, 8]) == [Accepted, Accepted];
  }

  lemma Unroll2(w: Window, a: U64, b: U64)
    ensures Decisions(w, [a, b], AsWritten) == [Admits(w, a), Admits(Committed(w, a, AsWritten), b)]
  {
    assert [a, b][1..] == [b];
  }

  lemma Unroll3(w: Window, a: U64, b: U64, c: U64)
    ensures var v := Committed(w, a, AsWritten);
      Decisions(w, [a, b, c], AsWritten) == [Admits(w, a), Admits(v, b), Admits(Committed(v, b, AsWritten), c)]
  {
    assert [a, b, c][1..] == [b, c];
    Unroll2(Committed(w, a, AsWritten), b, c);
  }

  /**
   Committing `counter` on top of this history does no harm as written: it is no new highest, or it
   jumps past the whole window, or the history happens to repeat with period twice the advance.
   */
  ghost predicate Harmless(highest: U64, seen: set<int>, counter: U64)
  {
    || counter <= highest
    || counter >= highest + REPLAY_WINDOW
    || forall c :: counter - REPLAY_WINDOW < c < counter ==> Repeats(highest, seen, counter, c)
  }

  /** `c` was committed just when the counter twice the advance below it was, inside the old window. */
  ghost predicate Repeats(highest: U64, seen: set<int>, counter: U64, c: int)
  {
    var source := c - 2 * (counter - highest);
    c in seen <==> highest - REPLAY_WINDOW < source && source in seen
  }

  ghost predicate HarmlessRun(highest: U64, seen: set<int>, counters: seq<U64>)
    decreases |counters|
  {
    counters == [] ||
    var c := counters[0];
    if Expected(highest, seen, c) != Accepted then HarmlessRun(highest, seen, counters[1..])
    else Harmless(highest, seen, c) && HarmlessRun(if c > highest then c else highest, seen + {c as int}, counters[1..])
  }

  /** At every point of the run the window would answer any counter as the history does. */
  ghost predicate AgreesThroughout(w: Window, seen: set<int>, counters: seq<U64>)
    decreases |counters|
  {
    && (forall c: U64 :: Admits(w, c) == Expected(w.highest, seen, c))
    && (counters == [] ||
        var c := counters[0];
        if Expected(w.highest, seen, c) != Accepted then AgreesThroughout(w, seen, counters[1..])
        else AgreesThroughout(Committed(w, c, AsWritten), seen + {c as int}, counters[1..]))
  }

  /** Mark `d` after a new highest: as written it was taken from twice the advance further down. */
  lemma AsWrittenMark(w: Window, seen: set<int>, counter: U64, d: nat)
    requires Exact(w, seen) && counter > w.highest && 0 < d < REPLAY_WINDOW
    ensures var source := counter - d - 2 * (counter - w.highest);
      Committed(w, counter, AsWritten).marks[d] <==> w.highest - REPLAY_WINDOW < source && source in seen
  {
    var a := counter - w.highest;
    if d + a < REPLAY_WINDOW {
      assert w.highest - (d + a) == counter - d - 2 * a;
    }
  }

  /** One commit as written leaves exact marks exactly when it is harmless. */
  lemma AsWrittenStaysExactIff(w: Window, seen: set<int>, counter: U64)
    requires Exact(w, seen) && Admits(w, counter) == Accepted
    ensures Exact(Committed(w, counter, AsWritten), seen + {counter as int}) <==> Harmless(w.highest, seen, counter)
  {
    if counter > w.highest {
      if Harmless(w.highest, seen, counter) {
        HarmlessStaysExact(w, seen, counter);
      }
      if Exact(Committed(w, counter, AsWritten), seen + {counter as int}) {
        ExactWasHarmless(w, seen, counter);
      }
    }
  }

  lemma HarmlessStaysExact(w: Window, seen: set<int>, counter: U64)
    requires Exact(w, seen) && counter > w.highest && Harmless(w.highest, seen, counter)
    ensures Exact(Committed(w, counter, AsWritten), seen + {counter as int})
  {
    var w', seen' := Committed(w, counter, AsWritten), seen + {counter as int};
    forall d | 0 < d < REPLAY_WINDOW
      ensures w'.marks[d] <==> counter - d in seen'
    {
      AsWrittenMark(w, seen, counter, d);
      assert counter < w.highest + REPLAY_WINDOW ==> Repeats(w.highest, seen, counter, counter - d);
    }
  }

  lemma ExactWasHarmless(w: Window, seen: set<int>, counter: U64)
    requires Exact(w, seen) && counter > w.highest
    requires Exact(Committed(w, counter, AsWritten), seen + {counter as int})
    ensures Harmless(w.highest, seen, counter)
  {
    var w' := Committed(w, counter, AsWritten);
    forall c | counter - REPLAY_WINDOW < c < counter
      ensures Repeats(w.highest, seen, counter, c)
    {
      AsWrittenMark(w, seen, counter, counter - c);
      assert w'.marks[counter - c] <==> w'.highest - (counter - c) in seen + {counter as int};
    }
  }

  /** Marks that answer every counter rightly are exact, if none of them stands for a counter below one. */
  lemma AgreementIsExactness(w: Window, seen: set<int>)
    requires History(w.highest, seen) && w.marks[0]
    requires forall d :: w.highest <= d < REPLAY_WINDOW ==> !w.marks[d]
    requires forall c: U64 :: Admits(w, c) == Expected(w.highest, seen, c)
    ensures Exact(w, seen)
  {
    forall d | 0 <= d < REPLAY_WINDOW
      ensures w.marks[d] <==> w.highest - d in seen
    {
      if 0 < d < w.highest {
        var c: U64 := w.highest - d;
        assert Admits(w, c) == Expected(w.highest, seen, c);
      }
    }
  }

  /**
   As written, the window agrees with the history throughout a run if and only if every new
   highest in it was harmless.
   */
  lemma {:induction false} AsWrittenAgreesIff(w: Window, seen: set<int>, counters: seq<U64>)
    requires Exact(w, seen)
    ensures AgreesThroughout(w, seen, counters) <==> HarmlessRun(w.highest, seen, counters)
    decreases |counters|
  {
    forall c: U64
      ensures Admits(w, c) == Expected(w.highest, seen, c)
    {
      ExactDecides(w, seen, c);
    }
    if counters != [] {
      var c, rest := counters[0], counters[1..];
      var w', seen' := Committed(w, c, AsWritten), seen + {c as int};
      if Expected(w.highest, seen, c) != Accepted {
        AsWrittenAgreesIff(w, seen, rest);
      } else {
        AsWrittenStaysExactIff(w, seen, c);
        if Harmless(w.highest, seen, c) {
          AsWrittenAgreesIff(w', seen', rest);
        } else if AgreesThroughout(w', seen', rest) {
          AgreementIsExactness(w', seen');
        }
      }
    }
  }

  /** After a first counter, the second is harmless exactly when it is lower or jumps past the window. */
  lemma SecondCounterHarmlessIff(first: U64, second: U64)
    ensures Harmless(first, {first as int}, second) <==> second <= first || second >= first + REPLAY_WINDOW
  {
    if first < second < first + REPLAY_WINDOW {
      assert !Repeats(first, {first as int}, second, first);
    }
  }

  /** Either way the highest never falls and is itself always refused as a duplicate. */
  lemma {:induction false} HighestIsHeld(w: Window, counters: seq<U64>, shift: Shift)
    ensures var w' := AfterRun(w, counters, shift);
      && w.highest <= w'.highest
      && (w'.highest > 0 ==> Admits(w', w'.highest) == Rejected(Duplicate))
      && forall i :: 0 <= i < |counters| && Decisions(w, counters, shift)[i] == Accepted ==> counters[i] <= w'.highest
    decreases |counters|
  {
    if counters != [] {
      var next := Committed(w, counters[0], shift);
      HighestIsHeld(next, counters[1..], shift);
      forall i | 0 <= i < |counters| && Decisions(w, counters, shift)[i] == Accepted
        ensures counters[i] <= AfterRun(w, counters, shift).highest
      {
        if i > 0 {
          assert counters[1..][i - 1] == counters[i];
        }
      }
    }
  }
}
