/** Vocabulary shared by the two replacement engines: pages, accesses,
    traces, and facts about sequences of resident pages. */
module Paging {

  /** How a page is touched. The simulators compare the access tag with 'W'
      and nothing else, so every tag other than 'W' behaves as a read: R
      stands for all of them. */
  datatype Access = R | W

  /** A virtual page: equality-comparable, no structure. */
  type Page = int

  /** One access of a trace. */
  type Event = (Page, Access)

  /** The pages held by a frame sequence. */
  function Resident(frames: seq<Page>): set<Page>
  {
    set p | p in frames
  }

  /** No page occurs twice. */
  predicate NoDup(s: seq<Page>)
  {
    forall i, j :: 0 <= i < j < |s| ==> s[i] != s[j]
  }

  /** The distinct pages a trace touches. */
  function Pages(t: seq<Event>): set<Page>
  {
    set i | 0 <= i < |t| :: t[i].0
  }

  /** The number of write accesses in a trace. */
  function WriteCount(t: seq<Event>): (n: nat)
    ensures n <= |t|
  {
    if t == [] then 0
    else WriteCount(t[..|t| - 1]) + (if t[|t| - 1].1 == W then 1 else 0)
  }

  /** The frame sequence `s` with its entry at index `k` taken out, the rest
      kept in order (what `list.remove` does to a list without duplicates). */
  function RemoveAt(s: seq<Page>, k: nat): (r: seq<Page>)
    requires k < |s|
    ensures |r| == |s| - 1
    ensures forall i :: 0 <= i < |r| ==> r[i] == if i < k then s[i] else s[i + 1]
    ensures NoDup(s) ==> NoDup(r) && Resident(r) == Resident(s) - {s[k]}
  {
    var r := s[..k] + s[k + 1..];
    assert forall i :: 0 <= i < |r| ==> r[i] == if i < k then s[i] else s[i + 1];
    assert forall p :: p in Resident(s) - {s[k]} ==> p in Resident(r) by {
      forall p | p in Resident(s) - {s[k]} ensures p in Resident(r) {
        var i :| 0 <= i < |s| && s[i] == p;
        assert r[if i < k then i else i - 1] == p;
      }
    }
    r
  }

  /** The pages of a concatenation are the pages of its parts. */
  lemma ResidentConcat(a: seq<Page>, b: seq<Page>)
    ensures Resident(a + b) == Resident(a) + Resident(b)
  {
    assert forall i | 0 <= i < |b| :: (a + b)[|a| + i] == b[i];
  }

  /** A sequence without duplicates has as many distinct pages as entries. */
  lemma {:induction false} ResidentCard(s: seq<Page>)
    requires NoDup(s)
    ensures |Resident(s)| == |s|
  {
    if s != [] {
      var last := s[|s| - 1];
      var init := s[..|s| - 1];
      assert NoDup(init);
      ResidentCard(init);
      assert Resident(s) == Resident(init) + {last};
      assert last !in Resident(init);
    }
  }

  /** Appending one access adds its page to the pages of the trace. */
  lemma PagesSnoc(t: seq<Event>, n: nat)
    requires n < |t|
    ensures Pages(t[..n + 1]) == Pages(t[..n]) + {t[n].0}
  {
    var a, b := t[..n + 1], t[..n];
    assert forall i :: 0 <= i < n ==> a[i] == b[i];
    assert a[n] == t[n];
  }

  /** A subset has no more elements than its superset. */
  lemma {:induction false} SubsetCard<T>(a: set<T>, b: set<T>)
    requires a <= b
    ensures |a| <= |b|
  {
    if a != {} {
      var x :| x in a;
      SubsetCard(a - {x}, b - {x});
    }
  }

  /** Appending one access adds one write exactly when the access writes. */
  lemma WriteCountSnoc(t: seq<Event>, e: Event)
    ensures WriteCount(t + [e]) == WriteCount(t) + (if e.1 == W then 1 else 0)
  {
    assert (t + [e])[..|t|] == t;
  }
}
