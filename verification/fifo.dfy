/** The FIFO replacement engine: resident pages form a queue in order of
    admission; a fault on full frames evicts the head of the queue. */
module Fifo {
  import opened Paging

  /** Everything one FIFO run keeps between accesses: the admission queue
      of resident pages, the dirty pages and the two counters. */
  datatype FifoState = FifoState(frames: seq<Page>, dirty: set<Page>, faults: nat, writes: nat)

  /** The state a run starts from. */
  const Empty := FifoState([], {}, 0, 0)

  /** The replacement invariant: at most `cap` residents, none held twice,
      and only resident pages are dirty. */
  predicate Valid(s: FifoState, cap: nat)
  {
    |s.frames| <= cap && NoDup(s.frames) && s.dirty <= Resident(s.frames)
  }

  /** One access `e` against state `s` with `cap` frames. */
  function Step(s: FifoState, cap: nat, e: Event): (r: FifoState)
    requires cap >= 1 && Valid(s, cap)
    ensures Valid(r, cap)
    // the page is resident afterwards, and dirty after a write
    ensures e.0 in r.frames && (e.1 == W ==> e.0 in r.dirty)
    // a fault is counted exactly when the page was not resident
    ensures r.faults == s.faults + (if e.0 in s.frames then 0 else 1)
    // at most one write-back, and only when a dirty victim leaves the frames
    ensures s.writes <= r.writes <= s.writes + 1
    ensures r.writes == s.writes + 1 ==>
              e.0 !in s.frames && |s.frames| == cap && s.frames[0] in s.dirty && s.frames[0] !in r.frames
    // a hit, even a write hit, keeps the queue as it was
    ensures e.0 in s.frames ==> r.frames == s.frames
    // a fault on free frames admits the page at the tail
    ensures e.0 !in s.frames && |s.frames| < cap ==> r.frames == s.frames + [e.0] && r.writes == s.writes
    // a fault on full frames evicts the earliest-admitted page, the head
    ensures e.0 !in s.frames && |s.frames| == cap ==>
              r.frames == s.frames[1..] + [e.0] &&
              r.writes == s.writes + (if s.frames[0] in s.dirty then 1 else 0)
    // dirtiness is only ever set by a write and only ever cleared by eviction
    ensures forall p :: p in r.dirty ==> p in s.dirty || (p == e.0 && e.1 == W)
    ensures forall p :: p in s.dirty && p in r.frames ==> p in r.dirty
  {
    var (page, access) := e;
    if page in s.frames then
      FifoState(s.frames, if access == W then s.dirty + {page} else s.dirty, s.faults, s.writes)
    else
      var (frames, dirty, writes) :=
        if |s.frames| < cap then
          (s.frames + [page], s.dirty, s.writes)
        else
          var victim := s.frames[0];
          if victim in s.dirty then (s.frames[1..] + [page], s.dirty - {victim}, s.writes + 1)
          else (s.frames[1..] + [page], s.dirty, s.writes);
      assert forall i :: 0 <= i < |frames| - 1 ==> frames[i] in s.frames;
      FifoState(frames, if access == W then dirty + {page} else dirty, s.faults + 1, writes)
  }

  /** The state after processing every access of `t` in order, from empty
      frames. */
  function Run(t: seq<Event>, cap: nat): (r: FifoState)
    requires cap >= 1 || |t| == 0
    ensures Valid(r, cap)
    ensures r.writes <= r.faults <= |t|
    decreases |t|
  {
    if t == [] then Empty else Step(Run(t[..|t| - 1], cap), cap, t[|t| - 1])
  }

  /** The simulator: returns the number of page faults and of disk writes
      for `trace` on `framesCount` frames. */
  method Fifo(trace: seq<Event>, framesCount: nat) returns (pageFaults: nat, diskWrites: nat)
    requires framesCount >= 1 || |trace| == 0
    ensures pageFaults == Run(trace, framesCount).faults
    ensures diskWrites == Run(trace, framesCount).writes
    ensures diskWrites <= pageFaults <= |trace|
  {
    var frames: seq<Page> := [];
    var dirtyPages: set<Page> := {};
    pageFaults, diskWrites := 0, 0;
    // on an empty trace the frame count is never consulted
    ghost var cap := if framesCount == 0 then 1 else framesCount;
    ghost var state := Empty;
    for i := 0 to |trace|
      invariant state == Run(trace[..i], cap)
      invariant frames == state.frames && dirtyPages == state.dirty
      invariant pageFaults == state.faults && diskWrites == state.writes
    {
      RunPrefix(trace, i, cap);
      var (page, access) := trace[i];
      if page in frames {
        if access == W {
          dirtyPages := dirtyPages + {page};
        }
      } else {
        pageFaults := pageFaults + 1;
        if |frames| < framesCount {
          frames := frames + [page];
        } else {
          var victim := frames[0];
          frames := frames[1..];
          if victim in dirtyPages {
            diskWrites := diskWrites + 1;
            dirtyPages := dirtyPages - {victim};
          }
          frames := frames + [page];
        }
        if access == W {
          dirtyPages := dirtyPages + {page};
        }
      }
      state := Step(state, cap, trace[i]);
    }
    assert trace[..|trace|] == trace;
  }

  /** Running a prefix one access longer is one more step. */
  lemma RunPrefix(t: seq<Event>, n: nat, cap: nat)
    requires cap >= 1 && n < |t|
    ensures Run(t[..n + 1], cap) == Step(Run(t[..n], cap), cap, t[n])
  {
    assert t[..n + 1][..n] == t[..n];
  }

  /** `states` is the step-by-step record of a run over `t`: it starts
      empty and each access takes one entry, when valid, to the next. */
  predicate IsTrail(t: seq<Event>, cap: nat, states: seq<FifoState>)
    requires cap >= 1
  {
    && |states| == |t| + 1
    && states[0] == Empty
    && forall k | 0 <= k < |t| && Valid(states[k], cap) :: Step(states[k], cap, t[k]) == states[k + 1]
  }

  /** A step-by-step record agrees with the run after every prefix. */
  lemma {:induction false} TrailAgreesWithRun(t: seq<Event>, cap: nat, states: seq<FifoState>, n: nat)
    requires cap >= 1 && IsTrail(t, cap, states) && n <= |t|
    ensures Run(t[..n], cap) == states[n]
  {
    if n > 0 {
      TrailAgreesWithRun(t, cap, states, n - 1);
      RunPrefix(t, n - 1, cap);
    }
  }

  /** Cold start: when every page of the trace fits in the frames, each page
      faults once, on its first access, and nothing is ever written back. */
  lemma {:induction false} ColdStart(t: seq<Event>, cap: nat)
    requires cap >= 1 && |Pages(t)| <= cap
    ensures Resident(Run(t, cap).frames) == Pages(t)
    ensures Run(t, cap).faults == |Pages(t)| && Run(t, cap).writes == 0
  {
    if t != [] {
      var n := |t| - 1;
      assert t[..n + 1] == t;
      PagesSnoc(t, n);
      SubsetCard(Pages(t[..n]), Pages(t));
      ColdStart(t[..n], cap);
      var s := Run(t[..n], cap);
      ResidentCard(s.frames);
    }
  }

  /** Every disk write flushes a page that some write access dirtied, and a
      page dirtied once is flushed at most once per load: disk writes plus
      pages still dirty never exceed the write accesses of the trace. */
  lemma {:induction false} DiskWritesBound(t: seq<Event>, cap: nat)
    requires cap >= 1
    ensures Run(t, cap).writes + |Run(t, cap).dirty| <= WriteCount(t)
  {
    if t != [] {
      var n := |t| - 1;
      var e := t[n];
      assert t[..n] + [e] == t;
      DiskWritesBound(t[..n], cap);
      WriteCountSnoc(t[..n], e);
      var s := Run(t[..n], cap);
      var r := Step(s, cap, e);
      var written := if e.1 == W then {e.0} else {};
      if r.writes == s.writes {
        SubsetCard(r.dirty, s.dirty + written);
      } else {
        var victim := s.frames[0];
        assert victim !in r.dirty;
        SubsetCard(r.dirty, (s.dirty - {victim}) + written);
      }
    }
  }

  /** A trace without writes never causes a disk write. */
  lemma ReadOnlyTraceNeverWrites(t: seq<Event>, cap: nat)
    requires cap >= 1 && WriteCount(t) == 0
    ensures Run(t, cap).writes == 0
  {
    DiskWritesBound(t, cap);
  }

  /** Reads of pages 1, 2, 3, a read of 1 and a write of 4. */
  const ScenarioATrace: seq<Event> := [(1, R), (2, R), (3, R), (1, R), (4, W)]

  /** The state after each prefix of ScenarioATrace with 3 frames. */
  const ScenarioAStates: seq<FifoState> :=
    [Empty,
     FifoState([1], {}, 1, 0),
     FifoState([1, 2], {}, 2, 0),
     FifoState([1, 2, 3], {}, 3, 0),
     FifoState([1, 2, 3], {}, 3, 0),
     FifoState([2, 3, 4], {4}, 4, 0)]

  /** Accesses 0 to 2 of ScenarioATrace take each state of ScenarioAStates to the next. */
  lemma ScenarioASteps1(k: nat)
    requires 0 <= k < 3 && Valid(ScenarioAStates[k], 3)
    ensures Step(ScenarioAStates[k], 3, ScenarioATrace[k]) == ScenarioAStates[k + 1]
  {
    if k == 0 {
      assert ScenarioATrace[0] == (1, R) && ScenarioAStates[0] == Empty && ScenarioAStates[1] == FifoState([1], {}, 1, 0);
    } else if k == 1 {
      assert ScenarioATrace[1] == (2, R) && ScenarioAStates[1] == FifoState([1], {}, 1, 0) && ScenarioAStates[2] == FifoState([1, 2], {}, 2, 0);
    } else {
      assert ScenarioATrace[2] == (3, R) && ScenarioAStates[2] == FifoState([1, 2], {}, 2, 0) && ScenarioAStates[3] == FifoState([1, 2, 3], {}, 3, 0);
    }
  }

  /** Accesses 3 to 4 of ScenarioATrace take each state of ScenarioAStates to the next. */
  lemma ScenarioASteps2(k: nat)
    requires 3 <= k < 5 && Valid(ScenarioAStates[k], 3)
    ensures Step(ScenarioAStates[k], 3, ScenarioATrace[k]) == ScenarioAStates[k + 1]
  {
    if k == 3 {
      assert ScenarioATrace[3] == (1, R) && ScenarioAStates[3] == FifoState([1, 2, 3], {}, 3, 0) && ScenarioAStates[4] == FifoState([1, 2, 3], {}, 3, 0);
      assert [1, 2, 3][0] == 1;
    } else {
      assert ScenarioATrace[4] == (4, W) && ScenarioAStates[4] == FifoState([1, 2, 3], {}, 3, 0) && ScenarioAStates[5] == FifoState([2, 3, 4], {4}, 4, 0);
      assert [1, 2, 3][1..] + [4] == [2, 3, 4];
    }
  }

  /** On ScenarioATrace with three frames: four faults, no disk write, and
      page 1, the first admitted, is the one evicted when 4 arrives. */
  lemma ScenarioA()
    ensures Run(ScenarioATrace, 3) == FifoState([2, 3, 4], {4}, 4, 0)
  {
    forall k | 0 <= k < 5 && Valid(ScenarioAStates[k], 3)
      ensures Step(ScenarioAStates[k], 3, ScenarioATrace[k]) == ScenarioAStates[k + 1]
    {
      if k < 3 {
        ScenarioASteps1(k);
      } else {
        ScenarioASteps2(k);
      }
    }
    TrailAgreesWithRun(ScenarioATrace, 3, ScenarioAStates, 5);
    assert ScenarioATrace[..5] == ScenarioATrace;
  }

  /** Twelve reads of pages 1, 2, 3, 4, 1, 2, 5, 1, 2, 3, 4, 5: the classic
      trace on which FIFO faults more often with more frames. */
  const BeladyTrace: seq<Event> :=
    [(1, R), (2, R), (3, R), (4, R), (1, R), (2, R), (5, R), (1, R), (2, R), (3, R), (4, R), (5, R)]

  /** The state after each prefix of BeladyTrace with 3 frames. */
  const BeladyThreeStates: seq<FifoState> :=
    [Empty,
     FifoState([1], {}, 1, 0),
     FifoState([1, 2], {}, 2, 0),
     FifoState([1, 2, 3], {}, 3, 0),
     FifoState([2, 3, 4], {}, 4, 0),
     FifoState([3, 4, 1], {}, 5, 0),
     FifoState([4, 1, 2], {}, 6, 0),
     FifoState([1, 2, 5], {}, 7, 0),
     FifoState([1, 2, 5], {}, 7, 0),
     FifoState([1, 2, 5], {}, 7, 0),
     FifoState([2, 5, 3], {}, 8, 0),
     FifoState([5, 3, 4], {}, 9, 0),
     FifoState([5, 3, 4], {}, 9, 0)]

  /** Accesses 0 to 2 of BeladyTrace take each state of BeladyThreeStates to the next. */
  lemma BeladyThreeSteps1(k: nat)
    requires 0 <= k < 3 && Valid(BeladyThreeStates[k], 3)
    ensures Step(BeladyThreeStates[k], 3, BeladyTrace[k]) == BeladyThreeStates[k + 1]
  {
    if k == 0 {
      assert BeladyTrace[0] == (1, R) && BeladyThreeStates[0] == Empty && BeladyThreeStates[1] == FifoState([1], {}, 1, 0);
    } else if k == 1 {
      assert BeladyTrace[1] == (2, R) && BeladyThreeStates[1] == FifoState([1], {}, 1, 0) && BeladyThreeStates[2] == FifoState([1, 2], {}, 2, 0);
    } else {
      assert BeladyTrace[2] == (3, R) && BeladyThreeStates[2] == FifoState([1, 2], {}, 2, 0) && BeladyThreeStates[3] == FifoState([1, 2, 3], {}, 3, 0);
    }
  }

  /** Accesses 3 to 5 of BeladyTrace take each state of BeladyThreeStates to the next. */
  lemma BeladyThreeSteps2(k: nat)
    requires 3 <= k < 6 && Valid(BeladyThreeStates[k], 3)
    ensures Step(BeladyThreeStates[k], 3, BeladyTrace[k]) == BeladyThreeStates[k + 1]
  {
    if k == 3 {
      assert BeladyTrace[3] == (4, R) && BeladyThreeStates[3] == FifoState([1, 2, 3], {}, 3, 0) && BeladyThreeStates[4] == FifoState([2, 3, 4], {}, 4, 0);
      assert [1, 2, 3][1..] + [4] == [2, 3, 4];
    } else if k == 4 {
      assert BeladyTrace[4] == (1, R) && BeladyThreeStates[4] == FifoState([2, 3, 4], {}, 4, 0) && BeladyThreeStates[5] == FifoState([3, 4, 1], {}, 5, 0);
      assert [2, 3, 4][1..] + [1] == [3, 4, 1];
    } else {
      assert BeladyTrace[5] == (2, R) && BeladyThreeStates[5] == FifoState([3, 4, 1], {}, 5, 0) && BeladyThreeStates[6] == FifoState([4, 1, 2], {}, 6, 0);
      assert [3, 4, 1][1..] + [2] == [4, 1, 2];
    }
  }

  /** Accesses 6 to 8 of BeladyTrace take each state of BeladyThreeStates to the next. */
  lemma BeladyThreeSteps3(k: nat)
    requires 6 <= k < 9 && Valid(BeladyThreeStates[k], 3)
    ensures Step(BeladyThreeStates[k], 3, BeladyTrace[k]) == BeladyThreeStates[k + 1]
  {
    if k == 6 {
      assert BeladyTrace[6] == (5, R) && BeladyThreeStates[6] == FifoState([4, 1, 2], {}, 6, 0) && BeladyThreeStates[7] == FifoState([1, 2, 5], {}, 7, 0);
      assert [4, 1, 2][1..] + [5] == [1, 2, 5];
    } else if k == 7 {
      assert BeladyTrace[7] == (1, R) && BeladyThreeStates[7] == FifoState([1, 2, 5], {}, 7, 0) && BeladyThreeStates[8] == FifoState([1, 2, 5], {}, 7, 0);
      assert [1, 2, 5][0] == 1;
    } else {
      assert BeladyTrace[8] == (2, R) && BeladyThreeStates[8] == FifoState([1, 2, 5], {}, 7, 0) && BeladyThreeStates[9] == FifoState([1, 2, 5], {}, 7, 0);
      assert [1, 2, 5][1] == 2;
    }
  }

  /** Accesses 9 to 11 of BeladyTrace take each state of BeladyThreeStates to the next. */
  lemma BeladyThreeSteps4(k: nat)
    requires 9 <= k < 12 && Valid(BeladyThreeStates[k], 3)
    ensures Step(BeladyThreeStates[k], 3, BeladyTrace[k]) == BeladyThreeStates[k + 1]
  {
    if k == 9 {
      assert BeladyTrace[9] == (3, R) && BeladyThreeStates[9] == FifoState([1, 2, 5], {}, 7, 0) && BeladyThreeStates[10] == FifoState([2, 5, 3], {}, 8, 0);
      assert [1, 2, 5][1..] + [3] == [2, 5, 3];
    } else if k == 10 {
      assert BeladyTrace[10] == (4, R) && BeladyThreeStates[10] == FifoState([2, 5, 3], {}, 8, 0) && BeladyThreeStates[11] == FifoState([5, 3, 4], {}, 9, 0);
      assert [2, 5, 3][1..] + [4] == [5, 3, 4];
    } else {
      assert BeladyTrace[11] == (5, R) && BeladyThreeStates[11] == FifoState([5, 3, 4], {}, 9, 0) && BeladyThreeStates[12] == FifoState([5, 3, 4], {}, 9, 0);
      assert [5, 3, 4][0] == 5;
    }
  }

  /** With three frames FIFO faults nine times on BeladyTrace. */
  lemma BeladyThreeFrames()
    ensures Run(BeladyTrace, 3) == FifoState([5, 3, 4], {}, 9, 0)
  {
    forall k | 0 <= k < 12 && Valid(BeladyThreeStates[k], 3)
      ensures Step(BeladyThreeStates[k], 3, BeladyTrace[k]) == BeladyThreeStates[k + 1]
    {
      if k < 3 {
        BeladyThreeSteps1(k);
      } else if k < 6 {
        BeladyThreeSteps2(k);
      } else if k < 9 {
        BeladyThreeSteps3(k);
      } else {
        BeladyThreeSteps4(k);
      }
    }
    TrailAgreesWithRun(BeladyTrace, 3, BeladyThreeStates, 12);
    assert BeladyTrace[..12] == BeladyTrace;
  }

  /** The state after each prefix of BeladyTrace with 4 frames. */
  const BeladyFourStates: seq<FifoState> :=
    [Empty,
     FifoState([1], {}, 1, 0),
     FifoState([1, 2], {}, 2, 0),
     FifoState([1, 2, 3], {}, 3, 0),
     FifoState([1, 2, 3, 4], {}, 4, 0),
     FifoState([1, 2, 3, 4], {}, 4, 0),
     FifoState([1, 2, 3, 4], {}, 4, 0),
     FifoState([2, 3, 4, 5], {}, 5, 0),
     FifoState([3, 4, 5, 1], {}, 6, 0),
     FifoState([4, 5, 1, 2], {}, 7, 0),
     FifoState([5, 1, 2, 3], {}, 8, 0),
     FifoState([1, 2, 3, 4], {}, 9, 0),
     FifoState([2, 3, 4, 5], {}, 10, 0)]

  /** Accesses 0 to 2 of BeladyTrace take each state of BeladyFourStates to the next. */
  lemma BeladyFourSteps1(k: nat)
    requires 0 <= k < 3 && Valid(BeladyFourStates[k], 4)
    ensures Step(BeladyFourStates[k], 4, BeladyTrace[k]) == BeladyFourStates[k + 1]
  {
    if k == 0 {
      assert BeladyTrace[0] == (1, R) && BeladyFourStates[0] == Empty && BeladyFourStates[1] == FifoState([1], {}, 1, 0);
    } else if k == 1 {
      assert BeladyTrace[1] == (2, R) && BeladyFourStates[1] == FifoState([1], {}, 1, 0) && BeladyFourStates[2] == FifoState([1, 2], {}, 2, 0);
    } else {
      assert BeladyTrace[2] == (3, R) && BeladyFourStates[2] == FifoState([1, 2], {}, 2, 0) && BeladyFourStates[3] == FifoState([1, 2, 3], {}, 3, 0);
    }
  }

  /** Accesses 3 to 5 of BeladyTrace take each state of BeladyFourStates to the next. */
  lemma BeladyFourSteps2(k: nat)
    requires 3 <= k < 6 && Valid(BeladyFourStates[k], 4)
    ensures Step(BeladyFourStates[k], 4, BeladyTrace[k]) == BeladyFourStates[k + 1]
  {
    if k == 3 {
      assert BeladyTrace[3] == (4, R) && BeladyFourStates[3] == FifoState([1, 2, 3], {}, 3, 0) && BeladyFourStates[4] == FifoState([1, 2, 3, 4], {}, 4, 0);
    } else if k == 4 {
      assert BeladyTrace[4] == (1, R) && BeladyFourStates[4] == FifoState([1, 2, 3, 4], {}, 4, 0) && BeladyFourStates[5] == FifoState([1, 2, 3, 4], {}, 4, 0);
      assert [1, 2, 3, 4][0] == 1;
    } else {
      assert BeladyTrace[5] == (2, R) && BeladyFourStates[5] == FifoState([1, 2, 3, 4], {}, 4, 0) && BeladyFourStates[6] == FifoState([1, 2, 3, 4], {}, 4, 0);
      assert [1, 2, 3, 4][1] == 2;
    }
  }

  /** Accesses 6 to 8 of BeladyTrace take each state of BeladyFourStates to the next. */
  lemma BeladyFourSteps3(k: nat)
    requires 6 <= k < 9 && Valid(BeladyFourStates[k], 4)
    ensures Step(BeladyFourStates[k], 4, BeladyTrace[k]) == BeladyFourStates[k + 1]
  {
    if k == 6 {
      assert BeladyTrace[6] == (5, R) && BeladyFourStates[6] == FifoState([1, 2, 3, 4], {}, 4, 0) && BeladyFourStates[7] == FifoState([2, 3, 4, 5], {}, 5, 0);
      assert [1, 2, 3, 4][1..] + [5] == [2, 3, 4, 5];
    } else if k == 7 {
      assert BeladyTrace[7] == (1, R) && BeladyFourStates[7] == FifoState([2, 3, 4, 5], {}, 5, 0) && BeladyFourStates[8] == FifoState([3, 4, 5, 1], {}, 6, 0);
      assert [2, 3, 4, 5][1..] + [1] == [3, 4, 5, 1];
    } else {
      assert BeladyTrace[8] == (2, R) && BeladyFourStates[8] == FifoState([3, 4, 5, 1], {}, 6, 0) && BeladyFourStates[9] == FifoState([4, 5, 1, 2], {}, 7, 0);
      assert [3, 4, 5, 1][1..] + [2] == [4, 5, 1, 2];
    }
  }

  /** Accesses 9 to 11 of BeladyTrace take each state of BeladyFourStates to the next. */
  lemma BeladyFourSteps4(k: nat)
    requires 9 <= k < 12 && Valid(BeladyFourStates[k], 4)
    ensures Step(BeladyFourStates[k], 4, BeladyTrace[k]) == BeladyFourStates[k + 1]
  {
    if k == 9 {
      assert BeladyTrace[9] == (3, R) && BeladyFourStates[9] == FifoState([4, 5, 1, 2], {}, 7, 0) && BeladyFourStates[10] == FifoState([5, 1, 2, 3], {}, 8, 0);
      assert [4, 5, 1, 2][1..] + [3] == [5, 1, 2, 3];
    } else if k == 10 {
      assert BeladyTrace[10] == (4, R) && BeladyFourStates[10] == FifoState([5, 1, 2, 3], {}, 8, 0) && BeladyFourStates[11] == FifoState([1, 2, 3, 4], {}, 9, 0);
      assert [5, 1, 2, 3][1..] + [4] == [1, 2, 3, 4];
    } else {
      assert BeladyTrace[11] == (5, R) && BeladyFourStates[11] == FifoState([1, 2, 3, 4], {}, 9, 0) && BeladyFourStates[12] == FifoState([2, 3, 4, 5], {}, 10, 0);
      assert [1, 2, 3, 4][1..] + [5] == [2, 3, 4, 5];
    }
  }

  /** With four frames FIFO faults ten times on BeladyTrace. */
  lemma BeladyFourFrames()
    ensures Run(BeladyTrace, 4) == FifoState([2, 3, 4, 5], {}, 10, 0)
  {
    forall k | 0 <= k < 12 && Valid(BeladyFourStates[k], 4)
      ensures Step(BeladyFourStates[k], 4, BeladyTrace[k]) == BeladyFourStates[k + 1]
    {
      if k < 3 {
        BeladyFourSteps1(k);
      } else if k < 6 {
        BeladyFourSteps2(k);
      } else if k < 9 {
        BeladyFourSteps3(k);
      } else {
        BeladyFourSteps4(k);
      }
    }
    TrailAgreesWithRun(BeladyTrace, 4, BeladyFourStates, 12);
    assert BeladyTrace[..12] == BeladyTrace;
  }

  /** Belady's anomaly: FIFO faults more often on BeladyTrace with four
      frames than with three, so FIFO's fault count is not monotone in the
      number of frames. */
  lemma BeladyAnomaly()
    ensures Run(BeladyTrace, 3).faults < Run(BeladyTrace, 4).faults
  {
    BeladyThreeFrames();
    BeladyFourFrames();
  }
}
