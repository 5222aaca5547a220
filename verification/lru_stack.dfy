/** The inclusion property of LRU: the pages resident with `k` frames are
    always the top `k` entries of the trace's recency stack, so adding a
    frame can only turn faults into hits. */
module LruStack {
  import opened Paging
  import opened Lru

  /** `s` with every occurrence of `p` taken out, the rest kept in order. */
  function Without(s: seq<Page>, p: Page): (r: seq<Page>)
    ensures Resident(r) == Resident(s) - {p}
    ensures |r| <= |s|
  {
    if s == [] then []
    else
      var head := if s[0] == p then [] else [s[0]];
      var rest := Without(s[1..], p);
      ResidentConcat([s[0]], s[1..]);
      assert s == [s[0]] + s[1..];
      ResidentConcat(head, rest);
      head + rest
  }

  /** The recency stack after an access to `p`: `p` on top, the others
      below in their previous order. */
  function Push(stack: seq<Page>, p: Page): (r: seq<Page>)
    ensures Resident(r) == Resident(stack) + {p}
  {
    ResidentConcat([p], Without(stack, p));
    [p] + Without(stack, p)
  }

  /** The pages touched by `t`, most recently used first. */
  function Stack(t: seq<Event>): (stack: seq<Page>)
    ensures Resident(stack) == Pages(t)
  {
    if t == [] then []
    else
      PagesSnoc(t, |t| - 1);
      assert t[..|t|] == t;
      Push(Stack(t[..|t| - 1]), t[|t| - 1].0)
  }

  /** The pages in the top `k` entries of a stack. */
  function Top(stack: seq<Page>, k: nat): set<Page>
  {
    Resident(stack[..if k < |stack| then k else |stack|])
  }

  /** Every entry of the stack was used more recently than every entry
      below it. */
  predicate Ordered(stack: seq<Page>, recent: map<Page, nat>)
  {
    forall i, j | 0 <= i < j < |stack| :: Stamp(recent, stack[j]) < Stamp(recent, stack[i])
  }

  /** Taking a page out keeps the order of the rest. */
  lemma {:induction false} WithoutOrdered(s: seq<Page>, p: Page, recent: map<Page, nat>)
    requires Ordered(s, recent)
    ensures Ordered(Without(s, p), recent)
  {
    if s != [] {
      WithoutOrdered(s[1..], p, recent);
      var w := Without(s[1..], p);
      if s[0] != p {
        forall j | 0 <= j < |w|
          ensures Stamp(recent, w[j]) < Stamp(recent, s[0])
        {
          assert w[j] in Resident(w);
          var m :| 0 <= m < |s[1..]| && s[1..][m] == w[j];
          assert s[m + 1] == w[j];
        }
        assert Without(s, p) == [s[0]] + w;
      }
    }
  }

  /** Taking out a page absent from the first `m` entries keeps those
      entries. */
  lemma {:induction false} WithoutKeepsPrefix(s: seq<Page>, p: Page, m: nat)
    requires m <= |s| && p !in s[..m]
    ensures m <= |Without(s, p)| && Without(s, p)[..m] == s[..m]
  {
    if m > 0 {
      assert s[0] == s[..m][0];
      assert s[1..][..m - 1] == s[1..m];
      assert p !in s[1..][..m - 1];
      WithoutKeepsPrefix(s[1..], p, m - 1);
      assert Without(s, p) == [s[0]] + Without(s[1..], p);
      assert s[..m] == [s[0]] + s[1..][..m - 1];
    }
  }

  /** In a stack without duplicates, taking out the page at `pos` closes
      the gap it leaves. */
  lemma {:induction false} WithoutAt(s: seq<Page>, pos: nat)
    requires NoDup(s) && pos < |s|
    ensures Without(s, s[pos]) == s[..pos] + s[pos + 1..]
  {
    var p := s[pos];
    if pos == 0 {
      assert p !in s[1..][..|s| - 1];
      WithoutKeepsPrefix(s[1..], p, |s| - 1);
      assert s[1..][..|s| - 1] == s[1..];
    } else {
      assert NoDup(s[1..]);
      assert s[1..][pos - 1] == p;
      WithoutAt(s[1..], pos - 1);
      assert Without(s, p) == [s[0]] + Without(s[1..], p);
      assert s[1..][..pos - 1] == s[1..pos];
      assert s[1..][pos..] == s[pos + 1..];
      assert s[..pos] == [s[0]] + s[1..pos];
    }
  }

  /** A hit on a page among the top `k` leaves the top `k` pages as they
      were. */
  lemma TopAfterHit(s: seq<Page>, p: Page, k: nat)
    requires NoDup(s) && p in Top(s, k)
    ensures Top(Push(s, p), k) == Top(s, k)
  {
    var m := if k < |s| then k else |s|;
    var pos :| 0 <= pos < m && s[..m][pos] == p;
    PushPrefixAt(s, pos, m);
    assert s[..m] == s[..pos] + [p] + s[pos + 1..m];
    MoveToFront(p, s[..pos], s[pos + 1..m]);
  }

  /** Pushing the page at `pos` moves it to the front of every prefix
      that holds it. */
  lemma PushPrefixAt(s: seq<Page>, pos: nat, m: nat)
    requires NoDup(s) && pos < m <= |s|
    ensures |Push(s, s[pos])| == |s|
    ensures Push(s, s[pos])[..m] == [s[pos]] + s[..pos] + s[pos + 1..m]
  {
    WithoutAt(s, pos);
    assert Push(s, s[pos]) == [s[pos]] + s[..pos] + s[pos + 1..];
  }

  /** Moving a page to the front does not change which pages are held. */
  lemma MoveToFront(p: Page, a: seq<Page>, b: seq<Page>)
    ensures Resident([p] + a + b) == Resident(a + [p] + b)
  {
    ResidentConcat([p] + a, b);
    ResidentConcat([p], a);
    ResidentConcat(a + [p], b);
    ResidentConcat(a, [p]);
  }

  /** A fault while the stack is shorter than `k` puts the page on top of
      the whole stack. */
  lemma TopAfterLoad(s: seq<Page>, p: Page, k: nat)
    requires p !in s && |s| < k
    ensures Top(Push(s, p), k) == Top(s, k) + {p}
  {
    assert s[..|s|] == s;
    WithoutKeepsPrefix(s, p, |s|);
    assert Without(s, p) == s;
  }

  /** A fault on a page outside the top `k` drops the `k`-th entry from the
      top and puts the page there. */
  lemma TopAfterEvict(s: seq<Page>, p: Page, k: nat)
    requires NoDup(s) && 1 <= k <= |s| && p !in Top(s, k)
    ensures Top(Push(s, p), k) == Top(s, k) - {s[k - 1]} + {p}
  {
    assert p !in s[..k];
    WithoutKeepsPrefix(s, p, k);
    var s' := Push(s, p);
    assert s'[..k] == [p] + s[..k - 1];
    assert s[..k] == s[..k - 1] + [s[k - 1]];
    assert s[k - 1] !in s[..k - 1];
  }

  /** The victim LRU picks from frames holding the top `k` of an ordered
      stack is the `k`-th entry of the stack. */
  lemma VictimIsStackEntry(stack: seq<Page>, recent: map<Page, nat>, frames: seq<Page>, k: nat, v: Page)
    requires Ordered(stack, recent) && 1 <= k <= |stack|
    requires Resident(frames) == Resident(stack[..k]) && Resident(frames) <= recent.Keys
    requires v in frames && forall q | q in frames && q != v :: recent[v] < recent[q]
    ensures v == stack[k - 1]
  {
    assert v in Resident(stack[..k]);
    var j :| 0 <= j < k && stack[..k][j] == v;
    assert stack[..k][k - 1] in Resident(frames);
    assert j < k - 1 ==> Stamp(recent, stack[k - 1]) < Stamp(recent, stack[j]);
  }

  /** How an LRU state with `cap` frames sits on a recency stack: the
      resident pages are its top `cap` entries, the stamped pages are all its
      entries, and the stack is ordered by the stamps. */
  predicate OnStack(s: LruState, stack: seq<Page>, cap: nat)
  {
    && Resident(s.frames) == Top(stack, cap)
    && s.recent.Keys == Resident(stack)
    && Ordered(stack, s.recent)
  }

  /** Pushing a page stamped later than every entry keeps the stack
      ordered. */
  lemma PushOrdered(stack: seq<Page>, recent: map<Page, nat>, p: Page, n: nat)
    requires Ordered(stack, recent) && Resident(stack) <= recent.Keys
    requires forall q | q in recent :: recent[q] < n
    ensures Ordered(Push(stack, p), recent[p := n])
  {
    WithoutOrdered(stack, p, recent);
    var w := Without(stack, p);
    var r := recent[p := n];
    assert forall j | 0 <= j < |w| :: w[j] in Resident(w);
    assert forall j | 0 <= j < |w| :: Stamp(r, w[j]) == Stamp(recent, w[j]) < n;
    assert forall i, j | 0 <= i < j < |w| :: Stamp(r, w[j]) < Stamp(r, w[i]);
    assert Push(stack, p) == [p] + w;
  }

  /** One access keeps the state on the stack pushed with its page. */
  lemma StepOnStack(s: LruState, stack: seq<Page>, cap: nat, n: nat, e: Event)
    requires cap >= 1 && Valid(s, cap, n) && OnStack(s, stack, cap)
    ensures OnStack(Step(s, cap, n, e), Push(stack, e.0), cap)
  {
    var p := e.0;
    PushOrdered(stack, s.recent, p, n);
    StepTopOnStack(s, stack, cap, n, e);
  }

  /** Frames on a stack hold as many pages as the top of the stack. */
  lemma FramesOnStack(s: LruState, stack: seq<Page>, cap: nat, n: nat)
    requires Valid(s, cap, n) && OnStack(s, stack, cap)
    ensures NoDup(stack)
    ensures |s.frames| == if cap < |stack| then cap else |stack|
  {
    var m := if cap < |stack| then cap else |stack|;
    assert NoDup(stack[..m]);
    ResidentCard(s.frames);
    ResidentCard(stack[..m]);
  }

  /** One access keeps the resident pages the top of the pushed stack. */
  lemma StepTopOnStack(s: LruState, stack: seq<Page>, cap: nat, n: nat, e: Event)
    requires cap >= 1 && Valid(s, cap, n) && OnStack(s, stack, cap)
    ensures Resident(Step(s, cap, n, e).frames) == Top(Push(stack, e.0), cap)
  {
    FramesOnStack(s, stack, cap, n);
    if e.0 in s.frames {
      TopAfterHit(stack, e.0, cap);
    } else if |s.frames| < cap {
      LoadOnStack(s, stack, cap, n, e);
    } else {
      EvictOnStack(s, stack, cap, n, e);
    }
  }

  /** A fault with a free frame: the stack was shorter than the frames. */
  lemma LoadOnStack(s: LruState, stack: seq<Page>, cap: nat, n: nat, e: Event)
    requires cap >= 1 && Valid(s, cap, n) && OnStack(s, stack, cap)
    requires e.0 !in s.frames && |s.frames| < cap && |s.frames| == (if cap < |stack| then cap else |stack|)
    ensures Resident(Step(s, cap, n, e).frames) == Top(Push(stack, e.0), cap)
  {
    assert stack[..|stack|] == stack;
    assert e.0 !in Resident(s.frames);
    TopAfterLoad(stack, e.0, cap);
  }

  /** A fault on full frames: the victim is the `cap`-th entry of the
      stack, which the pushed page displaces from the top. */
  lemma EvictOnStack(s: LruState, stack: seq<Page>, cap: nat, n: nat, e: Event)
    requires cap >= 1 && Valid(s, cap, n) && OnStack(s, stack, cap) && NoDup(stack)
    requires e.0 !in s.frames && |s.frames| == cap && cap <= |stack|
    ensures Resident(Step(s, cap, n, e).frames) == Top(Push(stack, e.0), cap)
  {
    var v := s.frames[LeastRecent(s.frames, s.recent)];
    VictimIsStackEntry(stack, s.recent, s.frames, cap, v);
    TopAfterEvict(stack, e.0, cap);
  }

  /** The inclusion invariant: after any trace, the LRU state with `cap`
      frames sits on the trace's recency stack. */
  lemma {:induction false} RunOnStack(t: seq<Event>, cap: nat)
    requires cap >= 1
    ensures OnStack(Run(t, cap), Stack(t), cap)
  {
    if t != [] {
      var n := |t| - 1;
      RunOnStack(t[..n], cap);
      assert t[..n + 1] == t;
      RunPrefix(t, n, cap);
      StepOnStack(Run(t[..n], cap), Stack(t[..n]), cap, n, t[n]);
    }
  }

  /** The reference fault count: an access misses with `k` frames when its
      page is not among the top `k` of the recency stack before it. */
  function Misses(t: seq<Event>, k: nat): (n: nat)
    ensures n <= |t|
  {
    if t == [] then 0
    else Misses(t[..|t| - 1], k) + (if t[|t| - 1].0 in Top(Stack(t[..|t| - 1]), k) then 0 else 1)
  }

  /** LRU faults exactly on the stack misses. */
  lemma {:induction false} FaultsAreMisses(t: seq<Event>, cap: nat)
    requires cap >= 1
    ensures Run(t, cap).faults == Misses(t, cap)
  {
    if t != [] {
      var n := |t| - 1;
      FaultsAreMisses(t[..n], cap);
      RunOnStack(t[..n], cap);
      assert t[..n + 1] == t;
      RunPrefix(t, n, cap);
    }
  }

  /** The top `k` entries are among the top `more` entries. */
  lemma TopGrows(stack: seq<Page>, k: nat, more: nat)
    requires k <= more
    ensures Top(stack, k) <= Top(stack, more)
  {
    var m := if k < |stack| then k else |stack|;
    var m' := if more < |stack| then more else |stack|;
    assert forall i | 0 <= i < m :: stack[..m][i] == stack[..m'][i];
  }

  /** The inclusion property: whatever LRU holds with `cap` frames it also
      holds with more frames, after every trace. */
  lemma Inclusion(t: seq<Event>, cap: nat, more: nat)
    requires 1 <= cap <= more
    ensures Resident(Run(t, cap).frames) <= Resident(Run(t, more).frames)
  {
    RunOnStack(t, cap);
    RunOnStack(t, more);
    TopGrows(Stack(t), cap, more);
  }

  /** More frames never miss more often on the stack. */
  lemma {:induction false} MissesShrink(t: seq<Event>, k: nat, more: nat)
    requires k <= more
    ensures Misses(t, more) <= Misses(t, k)
  {
    if t != [] {
      var n := |t| - 1;
      MissesShrink(t[..n], k, more);
      TopGrows(Stack(t[..n]), k, more);
    }
  }

  /** LRU is a stack algorithm: adding frames never increases the number of
      page faults on any trace (FIFO has no such guarantee). */
  lemma FaultsMonotone(t: seq<Event>, cap: nat, more: nat)
    requires 1 <= cap <= more
    ensures Run(t, more).faults <= Run(t, cap).faults
  {
    FaultsAreMisses(t, cap);
    FaultsAreMisses(t, more);
    MissesShrink(t, cap, more);
  }
}
