/** The LRU replacement engine: every access stamps its page with the
    access index; a fault on full frames evicts the resident page with the
    oldest stamp. */
module Lru {
  import opened Paging

  /** Everything one LRU run keeps between accesses: the resident pages in
      the order they were loaded, the dirty pages, the last-access index of
      every page seen so far, and the two counters. */
  datatype LruState = LruState(frames: seq<Page>, dirty: set<Page>, recent: map<Page, nat>, faults: nat, writes: nat)

  /** The state a run starts from. */
  const Empty := LruState([], {}, map[], 0, 0)

  /** The key victim selection compares: the page's last-access index, or
      -1 for a page that has none. */
  function Stamp(recent: map<Page, nat>, p: Page): int
  {
    if p in recent then recent[p] else -1
  }

  /** The replacement invariant after `n` accesses: at most `cap` residents,
      none held twice, only resident pages dirty, every resident page
      stamped, and the stamps distinct indices below `n`. */
  predicate Valid(s: LruState, cap: nat, n: nat)
  {
    && |s.frames| <= cap
    && NoDup(s.frames)
    && s.dirty <= Resident(s.frames)
    && Resident(s.frames) <= s.recent.Keys
    && Stamps(s.recent, n)
  }

  /** Stamps are indices below `n`, no two pages sharing one. */
  predicate Stamps(recent: map<Page, nat>, n: nat)
  {
    && (forall p | p in recent :: recent[p] < n)
    && (forall p, q | p in recent && q in recent && p != q :: recent[p] != recent[q])
  }

  /** The index of the resident page `min` picks: the first one, in frame
      order, whose stamp is smallest. */
  function LeastRecent(frames: seq<Page>, recent: map<Page, nat>): (k: nat)
    requires frames != []
    ensures k < |frames|
    ensures forall j | 0 <= j < |frames| :: Stamp(recent, frames[k]) <= Stamp(recent, frames[j])
    ensures forall j | 0 <= j < k :: Stamp(recent, frames[k]) < Stamp(recent, frames[j])
    decreases |frames|
  {
    if |frames| == 1 then 0
    else
      var k := LeastRecent(frames[..|frames| - 1], recent);
      if Stamp(recent, frames[|frames| - 1]) < Stamp(recent, frames[k]) then |frames| - 1 else k
  }

  /** When every resident page is stamped and stamps are distinct, the
      victim's stamp is strictly older than that of every other resident:
      no tie is ever broken. */
  lemma VictimIsUnique(s: LruState, cap: nat, n: nat)
    requires Valid(s, cap, n) && s.frames != []
    ensures var v := s.frames[LeastRecent(s.frames, s.recent)];
            forall q | q in s.frames && q != v :: s.recent[v] < s.recent[q]
  {
    var k := LeastRecent(s.frames, s.recent);
    forall q | q in s.frames && q != s.frames[k]
      ensures s.recent[s.frames[k]] < s.recent[q]
    {
      var j :| 0 <= j < |s.frames| && s.frames[j] == q;
      assert Stamp(s.recent, s.frames[k]) <= Stamp(s.recent, s.frames[j]);
    }
  }

  /** Stamping page `p` with the current index `n` keeps the stamps distinct
      and below the next index. */
  lemma StampKeepsValid(recent: map<Page, nat>, n: nat, p: Page)
    requires Stamps(recent, n)
    ensures Stamps(recent[p := n], n + 1)
  {
  }

  /** A hit: the frames stay, a write marks the page dirty. */
  function Hit(s: LruState, cap: nat, i: nat, e: Event): (r: LruState)
    requires Valid(s, cap, i) && e.0 in s.frames
    ensures Valid(r, cap, i + 1)
    ensures r.frames == s.frames && r.faults == s.faults && r.writes == s.writes
    ensures r.dirty == if e.1 == W then s.dirty + {e.0} else s.dirty
    ensures r.recent == s.recent[e.0 := i]
  {
    StampKeepsValid(s.recent, i, e.0);
    LruState(s.frames, if e.1 == W then s.dirty + {e.0} else s.dirty, s.recent[e.0 := i], s.faults, s.writes)
  }

  /** A fault with a free frame: the page is appended. */
  function Load(s: LruState, cap: nat, i: nat, e: Event): (r: LruState)
    requires Valid(s, cap, i) && e.0 !in s.frames && |s.frames| < cap
    ensures Valid(r, cap, i + 1)
    ensures r.frames == s.frames + [e.0] && r.faults == s.faults + 1 && r.writes == s.writes
    ensures r.dirty == if e.1 == W then s.dirty + {e.0} else s.dirty
    ensures r.recent == s.recent[e.0 := i]
  {
    StampKeepsValid(s.recent, i, e.0);
    var frames := s.frames + [e.0];
    assert Resident(frames) == Resident(s.frames) + {e.0};
    LruState(frames, if e.1 == W then s.dirty + {e.0} else s.dirty, s.recent[e.0 := i], s.faults + 1, s.writes)
  }

  /** A fault on full frames: the least recently used page is taken out
      (written back first when dirty) and the new page appended. */
  function Evict(s: LruState, cap: nat, i: nat, e: Event): (r: LruState)
    requires cap >= 1 && Valid(s, cap, i) && e.0 !in s.frames && |s.frames| == cap
    ensures Valid(r, cap, i + 1)
    ensures var k := LeastRecent(s.frames, s.recent);
            var v := s.frames[k];
            && r.frames == RemoveAt(s.frames, k) + [e.0]
            && Resident(r.frames) == Resident(s.frames) - {v} + {e.0}
            && r.faults == s.faults + 1
            && r.writes == s.writes + (if v in s.dirty then 1 else 0)
            && r.dirty == (if e.1 == W then s.dirty - {v} + {e.0} else s.dirty - {v})
    ensures r.recent == s.recent[e.0 := i]
  {
    StampKeepsValid(s.recent, i, e.0);
    var k := LeastRecent(s.frames, s.recent);
    var v := s.frames[k];
    var rest := RemoveAt(s.frames, k);
    var frames := rest + [e.0];
    assert Resident(frames) == Resident(rest) + {e.0};
    var (kept, writes) := if v in s.dirty then (s.dirty - {v}, s.writes + 1) else (s.dirty, s.writes);
    LruState(frames, if e.1 == W then kept + {e.0} else kept, s.recent[e.0 := i], s.faults + 1, writes)
  }

  /** Access `e`, the `i`-th of the trace, against state `s` with `cap`
      frames. */
  function Step(s: LruState, cap: nat, i: nat, e: Event): (r: LruState)
    requires cap >= 1 && Valid(s, cap, i)
    ensures Valid(r, cap, i + 1)
    // the page is resident afterwards, and dirty after a write
    ensures e.0 in r.frames && (e.1 == W ==> e.0 in r.dirty)
    // hit or fault, the page is stamped with the current index
    ensures r.recent == s.recent[e.0 := i]
    // a fault is counted exactly when the page was not resident
    ensures r.faults == s.faults + (if e.0 in s.frames then 0 else 1)
    // at most one write-back, and only when a dirty victim leaves the frames
    ensures s.writes <= r.writes <= s.writes + 1
    ensures r.writes == s.writes + 1 ==> e.0 !in s.frames && |s.frames| == cap
    // a hit keeps the frames as they were
    ensures e.0 in s.frames ==> r.frames == s.frames
    // a fault on free frames loads the page into a free frame
    ensures e.0 !in s.frames && |s.frames| < cap ==> r.frames == s.frames + [e.0] && r.writes == s.writes
    // a fault on full frames evicts the least recently used resident page
    ensures e.0 !in s.frames && |s.frames| == cap ==>
              var v := s.frames[LeastRecent(s.frames, s.recent)];
              && (forall q | q in s.frames && q != v :: s.recent[v] < s.recent[q])
              && Resident(r.frames) == Resident(s.frames) - {v} + {e.0}
              && r.writes == s.writes + (if v in s.dirty then 1 else 0)
    // dirtiness is only ever set by a write and only ever cleared by eviction
    ensures forall p :: p in r.dirty ==> p in s.dirty || (p == e.0 && e.1 == W)
    ensures forall p :: p in s.dirty && p in r.frames ==> p in r.dirty
  {
    if e.0 in s.frames then Hit(s, cap, i, e)
    else if |s.frames| < cap then Load(s, cap, i, e)
    else
      VictimIsUnique(s, cap, i);
      Evict(s, cap, i, e)
  }

  /** The state after processing every access of `t` in order, from empty
      frames. */
  function Run(t: seq<Event>, cap: nat): (r: LruState)
    requires cap >= 1 || |t| == 0
    ensures Valid(r, cap, |t|)
    ensures r.writes <= r.faults <= |t|
    decreases |t|
  {
    if t == [] then Empty else Step(Run(t[..|t| - 1], cap), cap, |t| - 1, t[|t| - 1])
  }

  /** Running a prefix one access longer is one more step. */
  lemma RunPrefix(t: seq<Event>, n: nat, cap: nat)
    requires cap >= 1 && n < |t|
    ensures Run(t[..n + 1], cap) == Step(Run(t[..n], cap), cap, n, t[n])
  {
    assert t[..n + 1][..n] == t[..n];
  }

  /** The simulator: returns the number of page faults and of disk writes
      for `trace` on `framesCount` frames. */
  method Lru(trace: seq<Event>, framesCount: nat) returns (pageFaults: nat, diskWrites: nat)
    requires framesCount >= 1 || |trace| == 0
    ensures pageFaults == Run(trace, framesCount).faults
    ensures diskWrites == Run(trace, framesCount).writes
    ensures diskWrites <= pageFaults <= |trace|
  {
    var frames: seq<Page> := [];
    var dirtyPages: set<Page> := {};
    var recentUse: map<Page, nat> := map[];
    pageFaults, diskWrites := 0, 0;
    // on an empty trace the frame count is never consulted
    ghost var cap := if framesCount == 0 then 1 else framesCount;
    ghost var state := Empty;
    for i := 0 to |trace|
      invariant state == Run(trace[..i], cap)
      invariant frames == state.frames && dirtyPages == state.dirty && recentUse == state.recent
      invariant pageFaults == state.faults && diskWrites == state.writes
    {
      RunPrefix(trace, i, cap);
      var (page, access) := trace[i];
      if page in frames {
        if access == W {
          dirtyPages := dirtyPages + {page};
        }
      } else {
        pageFaults := pageFaults + 1;
        if |frames| < framesCount {
          frames := frames + [page];
        } else {
          var k := LeastRecent(frames, recentUse);
          var lruPage := frames[k];
          frames := RemoveAt(frames, k);
          if lruPage in dirtyPages {
            diskWrites := diskWrites + 1;
            dirtyPages := dirtyPages - {lruPage};
          }
          frames := frames + [page];
        }
        if access == W {
          dirtyPages := dirtyPages + {page};
        }
      }
      recentUse := recentUse[page := i];
      state := Step(state, cap, i, trace[i]);
    }
    assert trace[..|trace|] == trace;
  }

  /** `recent` records, for exactly the pages of `t`, the index of their
      last access in `t`. */
  predicate LastAccess(t: seq<Event>, recent: map<Page, nat>)
  {
    && recent.Keys == Pages(t)
    && forall p | p in recent ::
         && recent[p] < |t|
         && t[recent[p]].0 == p
         && forall m | recent[p] < m < |t| :: t[m].0 != p
  }

  /** Stamping the page of one more access with its index keeps the record
      of last accesses. */
  lemma LastAccessSnoc(t: seq<Event>, recent: map<Page, nat>, e: Event)
    requires LastAccess(t, recent)
    ensures LastAccess(t + [e], recent[e.0 := |t|])
  {
    var t' := t + [e];
    assert t'[..|t|] == t;
    PagesSnoc(t', |t|);
    assert forall m | 0 <= m < |t| :: t'[m] == t[m];
  }

  /** The last-access bookkeeping: a page has a stamp exactly when the trace
      touched it, and its stamp is the index of its last access. */
  lemma {:induction false} RecencyIsLastAccess(t: seq<Event>, cap: nat)
    requires cap >= 1
    ensures Run(t, cap).recent.Keys == Pages(t)
    ensures forall p | p in Run(t, cap).recent ::
              && Run(t, cap).recent[p] < |t|
              && t[Run(t, cap).recent[p]].0 == p
              && forall m | Run(t, cap).recent[p] < m < |t| :: t[m].0 != p
  {
    if t != [] {
      var n := |t| - 1;
      RecencyIsLastAccess(t[..n], cap);
      assert t[..n] + [t[n]] == t;
      LastAccessSnoc(t[..n], Run(t[..n], cap).recent, t[n]);
    }
  }

  /** Cold start: when every page of the trace fits in the frames, each page
      faults once, on its first access, and nothing is ever written back. */
  lemma {:induction false} ColdStart(t: seq<Event>, cap: nat)
    requires cap >= 1 && |Pages(t)| <= cap
    ensures Resident(Run(t, cap).frames) == Pages(t)
    ensures Run(t, cap).faults == |Pages(t)| && Run(t, cap).writes == 0
  {
    if t != [] {
      var n := |t| - 1;
      assert t[..n + 1] == t;
      PagesSnoc(t, n);
      SubsetCard(Pages(t[..n]), Pages(t));
      ColdStart(t[..n], cap);
      var s := Run(t[..n], cap);
      ResidentCard(s.frames);
    }
  }

  /** Every disk write flushes a page that some write access dirtied, and a
      page dirtied once is flushed at most once per load: disk writes plus
      pages still dirty never exceed the write accesses of the trace. */
  lemma {:induction false} DiskWritesBound(t: seq<Event>, cap: nat)
    requires cap >= 1
    ensures Run(t, cap).writes + |Run(t, cap).dirty| <= WriteCount(t)
  {
    if t != [] {
      var n := |t| - 1;
      var e := t[n];
      assert t[..n] + [e] == t;
      DiskWritesBound(t[..n], cap);
      WriteCountSnoc(t[..n], e);
      var s := Run(t[..n], cap);
      var r := Step(s, cap, n, e);
      var written := if e.1 == W then {e.0} else {};
      if r.writes == s.writes {
        SubsetCard(r.dirty, s.dirty + written);
      } else {
        var victim := s.frames[LeastRecent(s.frames, s.recent)];
        assert victim !in r.dirty;
        SubsetCard(r.dirty, (s.dirty - {victim}) + written);
      }
    }
  }

  /** A trace without writes never causes a disk write. */
  lemma ReadOnlyTraceNeverWrites(t: seq<Event>, cap: nat)
    requires cap >= 1 && WriteCount(t) == 0
    ensures Run(t, cap).writes == 0
  {
    DiskWritesBound(t, cap);
  }

  /** `states` is the step-by-step record of a run over `t`: it starts
      empty and each access takes one entry, when valid, to the next. */
  predicate IsTrail(t: seq<Event>, cap: nat, states: seq<LruState>)
    requires cap >= 1
  {
    && |states| == |t| + 1
    && states[0] == Empty
    && forall k | 0 <= k < |t| && Valid(states[k], cap, k) :: Step(states[k], cap, k, t[k]) == states[k + 1]
  }

  /** A step-by-step record agrees with the run after every prefix. */
  lemma {:induction false} TrailAgreesWithRun(t: seq<Event>, cap: nat, states: seq<LruState>, n: nat)
    requires cap >= 1 && IsTrail(t, cap, states) && n <= |t|
    ensures Run(t[..n], cap) == states[n]
  {
    if n > 0 {
      TrailAgreesWithRun(t, cap, states, n - 1);
      RunPrefix(t, n - 1, cap);
    }
  }

  /** One write of page 1, reads of 2, 3 and 1, then a write of 4. */
  const ScenarioBTrace: seq<Event> := [(1, W), (2, R), (3, R), (1, R), (4, W)]

  /** The state after each prefix of ScenarioBTrace with 3 frames. */
  const ScenarioBStates: seq<LruState> :=
    [Empty,
     LruState([1], {1}, map[1 := 0], 1, 0),
     LruState([1, 2], {1}, map[1 := 0, 2 := 1], 2, 0),
     LruState([1, 2, 3], {1}, map[1 := 0, 2 := 1, 3 := 2], 3, 0),
     LruState([1, 2, 3], {1}, map[1 := 3, 2 := 1, 3 := 2], 3, 0),
     LruState([1, 3, 4], {1, 4}, map[1 := 3, 2 := 1, 3 := 2, 4 := 4], 4, 0)]

  /** Accesses 0 to 1 of ScenarioBTrace take each state of ScenarioBStates to the next. */
  lemma ScenarioBSteps1(k: nat)
    requires 0 <= k < 2 && Valid(ScenarioBStates[k], 3, k)
    ensures Step(ScenarioBStates[k], 3, k, ScenarioBTrace[k]) == ScenarioBStates[k + 1]
  {
    if k == 0 {
      assert ScenarioBTrace[0] == (1, W) && ScenarioBStates[0] == Empty && ScenarioBStates[1] == LruState([1], {1}, map[1 := 0], 1, 0);
    } else {
      assert ScenarioBTrace[1] == (2, R) && ScenarioBStates[1] == LruState([1], {1}, map[1 := 0], 1, 0) && ScenarioBStates[2] == LruState([1, 2], {1}, map[1 := 0, 2 := 1], 2, 0);
    }
  }

  /** Accesses 2 to 3 of ScenarioBTrace take each state of ScenarioBStates to the next. */
  lemma ScenarioBSteps2(k: nat)
    requires 2 <= k < 4 && Valid(ScenarioBStates[k], 3, k)
    ensures Step(ScenarioBStates[k], 3, k, ScenarioBTrace[k]) == ScenarioBStates[k + 1]
  {
    if k == 2 {
      assert ScenarioBTrace[2] == (3, R) && ScenarioBStates[2] == LruState([1, 2], {1}, map[1 := 0, 2 := 1], 2, 0) && ScenarioBStates[3] == LruState([1, 2, 3], {1}, map[1 := 0, 2 := 1, 3 := 2], 3, 0);
    } else {
      assert ScenarioBTrace[3] == (1, R) && ScenarioBStates[3] == LruState([1, 2, 3], {1}, map[1 := 0, 2 := 1, 3 := 2], 3, 0) && ScenarioBStates[4] == LruState([1, 2, 3], {1}, map[1 := 3, 2 := 1, 3 := 2], 3, 0);
      assert [1, 2, 3][0] == 1;
    }
  }

  /** Accesses 4 to 4 of ScenarioBTrace take each state of ScenarioBStates to the next. */
  lemma ScenarioBSteps3(k: nat)
    requires 4 <= k < 5 && Valid(ScenarioBStates[k], 3, k)
    ensures Step(ScenarioBStates[k], 3, k, ScenarioBTrace[k]) == ScenarioBStates[k + 1]
  {
    assert ScenarioBTrace[4] == (4, W) && ScenarioBStates[4] == LruState([1, 2, 3], {1}, map[1 := 3, 2 := 1, 3 := 2], 3, 0) && ScenarioBStates[5] == LruState([1, 3, 4], {1, 4}, map[1 := 3, 2 := 1, 3 := 2, 4 := 4], 4, 0);
    assert LeastRecent([1, 2, 3], map[1 := 3, 2 := 1, 3 := 2]) == 1 && RemoveAt([1, 2, 3], 1) + [4] == [1, 3, 4];
  }

  /** On ScenarioBTrace with three frames: page 2, the least recently used
      when 4 arrives, is evicted (page 1 was loaded first but used later);
      it is clean, so nothing is written back. */
  lemma ScenarioB()
    ensures Run(ScenarioBTrace, 3) == LruState([1, 3, 4], {1, 4}, map[1 := 3, 2 := 1, 3 := 2, 4 := 4], 4, 0)
  {
    forall k | 0 <= k < 5 && Valid(ScenarioBStates[k], 3, k)
      ensures Step(ScenarioBStates[k], 3, k, ScenarioBTrace[k]) == ScenarioBStates[k + 1]
    {
      if k < 2 {
        ScenarioBSteps1(k);
      } else if k < 4 {
        ScenarioBSteps2(k);
      } else {
        ScenarioBSteps3(k);
      }
    }
    TrailAgreesWithRun(ScenarioBTrace, 3, ScenarioBStates, 5);
    assert ScenarioBTrace[..5] == ScenarioBTrace;
  }

  /** As ScenarioBTrace, but page 2 is written rather than read. */
  const ScenarioCTrace: seq<Event> := [(1, W), (2, W), (3, R), (1, R), (4, W)]

  /** The state after each prefix of ScenarioCTrace with 3 frames. */
  const ScenarioCStates: seq<LruState> :=
    [Empty,
     LruState([1], {1}, map[1 := 0], 1, 0),
     LruState([1, 2], {1, 2}, map[1 := 0, 2 := 1], 2, 0),
     LruState([1, 2, 3], {1, 2}, map[1 := 0, 2 := 1, 3 := 2], 3, 0),
     LruState([1, 2, 3], {1, 2}, map[1 := 3, 2 := 1, 3 := 2], 3, 0),
     LruState([1, 3, 4], {1, 4}, map[1 := 3, 2 := 1, 3 := 2, 4 := 4], 4, 1)]

  /** Accesses 0 to 1 of ScenarioCTrace take each state of ScenarioCStates to the next. */
  lemma ScenarioCSteps1(k: nat)
    requires 0 <= k < 2 && Valid(ScenarioCStates[k], 3, k)
    ensures Step(ScenarioCStates[k], 3, k, ScenarioCTrace[k]) == ScenarioCStates[k + 1]
  {
    if k == 0 {
      assert ScenarioCTrace[0] == (1, W) && ScenarioCStates[0] == Empty && ScenarioCStates[1] == LruState([1], {1}, map[1 := 0], 1, 0);
    } else {
      assert ScenarioCTrace[1] == (2, W) && ScenarioCStates[1] == LruState([1], {1}, map[1 := 0], 1, 0) && ScenarioCStates[2] == LruState([1, 2], {1, 2}, map[1 := 0, 2 := 1], 2, 0);
    }
  }

  /** Accesses 2 to 3 of ScenarioCTrace take each state of ScenarioCStates to the next. */
  lemma ScenarioCSteps2(k: nat)
    requires 2 <= k < 4 && Valid(ScenarioCStates[k], 3, k)
    ensures Step(ScenarioCStates[k], 3, k, ScenarioCTrace[k]) == ScenarioCStates[k + 1]
  {
    if k == 2 {
      assert ScenarioCTrace[2] == (3, R) && ScenarioCStates[2] == LruState([1, 2], {1, 2}, map[1 := 0, 2 := 1], 2, 0) && ScenarioCStates[3] == LruState([1, 2, 3], {1, 2}, map[1 := 0, 2 := 1, 3 := 2], 3, 0);
    } else {
      assert ScenarioCTrace[3] == (1, R) && ScenarioCStates[3] == LruState([1, 2, 3], {1, 2}, map[1 := 0, 2 := 1, 3 := 2], 3, 0) && ScenarioCStates[4] == LruState([1, 2, 3], {1, 2}, map[1 := 3, 2 := 1, 3 := 2], 3, 0);
      assert [1, 2, 3][0] == 1;
    }
  }

  /** Accesses 4 to 4 of ScenarioCTrace take each state of ScenarioCStates to the next. */
  lemma ScenarioCSteps3(k: nat)
    requires 4 <= k < 5 && Valid(ScenarioCStates[k], 3, k)
    ensures Step(ScenarioCStates[k], 3, k, ScenarioCTrace[k]) == ScenarioCStates[k + 1]
  {
    assert ScenarioCTrace[4] == (4, W) && ScenarioCStates[4] == LruState([1, 2, 3], {1, 2}, map[1 := 3, 2 := 1, 3 := 2], 3, 0) && ScenarioCStates[5] == LruState([1, 3, 4], {1, 4}, map[1 := 3, 2 := 1, 3 := 2, 4 := 4], 4, 1);
    assert LeastRecent([1, 2, 3], map[1 := 3, 2 := 1, 3 := 2]) == 1 && RemoveAt([1, 2, 3], 1) + [4] == [1, 3, 4];
  }

  /** On ScenarioCTrace with three frames the evicted page 2 is dirty, so its
      eviction costs one disk write. */
  lemma ScenarioC()
    ensures Run(ScenarioCTrace, 3) == LruState([1, 3, 4], {1, 4}, map[1 := 3, 2 := 1, 3 := 2, 4 := 4], 4, 1)
  {
    forall k | 0 <= k < 5 && Valid(ScenarioCStates[k], 3, k)
      ensures Step(ScenarioCStates[k], 3, k, ScenarioCTrace[k]) == ScenarioCStates[k + 1]
    {
      if k < 2 {
        ScenarioCSteps1(k);
      } else if k < 4 {
        ScenarioCSteps2(k);
      } else {
        ScenarioCSteps3(k);
      }
    }
    TrailAgreesWithRun(ScenarioCTrace, 3, ScenarioCStates, 5);
    assert ScenarioCTrace[..5] == ScenarioCTrace;
  }
}
