/** `thread.sort((a, b) => new Date(a.published) - new Date(b.published))`
    (js/paradise.js): the stable sort of `Array.prototype.sort`, ascending by
    publication time, modelled as insertion sort on values. */
module Chrono {
  import opened Common
  import opened Activity

  /** Every message carries a publication time, so the comparator never
      yields NaN. */
  predicate Stamped(s: seq<Note>)
  {
    forall i :: 0 <= i < |s| ==> s[i].published.Some?
  }

  function Key(m: Note): int
    requires m.published.Some?
  {
    m.published.value
  }

  predicate Chronological(s: seq<Note>)
    requires Stamped(s)
  {
    forall i, j :: 0 <= i < j < |s| ==> Key(s[i]) <= Key(s[j])
  }

  /** Puts `m` after every message of `s` that is not later than it. */
  function Insert(m: Note, s: seq<Note>): (r: seq<Note>)
    requires m.published.Some? && Stamped(s)
    ensures Stamped(r) && |r| == |s| + 1
    ensures multiset(r) == multiset(s) + multiset{m}
  {
    if s == [] then [m]
    else
      var n := |s| - 1;
      if Key(s[n]) <= Key(m) then s + [m]
      else
        assert s == s[..n] + [s[n]];
        Insert(m, s[..n]) + [s[n]]
  }

  /** Sorts by taking the messages in order and inserting each one. */
  function SortByPublished(s: seq<Note>): (r: seq<Note>)
    requires Stamped(s)
    ensures Stamped(r)
  {
    if s == [] then []
    else Insert(s[|s| - 1], SortByPublished(s[..|s| - 1]))
  }

  /** The messages of `s` published at time `k`, in their order in `s`. */
  function PublishedAt(s: seq<Note>, k: int): seq<Note>
  {
    if s == [] then []
    else PublishedAt(s[..|s| - 1], k) + if s[|s| - 1].published == Some(k) then [s[|s| - 1]] else []
  }

  /** Appending a message adds it to the messages of its own time. */
  lemma PublishedAtSnoc(s: seq<Note>, m: Note, k: int)
    ensures PublishedAt(s + [m], k) == PublishedAt(s, k) + if m.published == Some(k) then [m] else []
  {
    assert (s + [m])[..|s|] == s;
  }

  /** A message earlier than the last of `s` goes before it. */
  lemma InsertBeforeLast(m: Note, s: seq<Note>)
    requires m.published.Some? && Stamped(s)
    requires s != [] && Key(s[|s| - 1]) > Key(m)
    ensures Insert(m, s) == Insert(m, s[..|s| - 1]) + [s[|s| - 1]]
  {
  }

  /** Inserting keeps every message at or below a bound that `m` keeps too. */
  lemma {:induction false} InsertBounded(m: Note, s: seq<Note>, b: int)
    requires m.published.Some? && Stamped(s)
    requires Key(m) <= b && forall i :: 0 <= i < |s| ==> Key(s[i]) <= b
    ensures forall i :: 0 <= i < |Insert(m, s)| ==> Key(Insert(m, s)[i]) <= b
  {
    if s != [] {
      var n := |s| - 1;
      if Key(s[n]) > Key(m) {
        var r := Insert(m, s[..n]);
        InsertBounded(m, s[..n], b);
        InsertBeforeLast(m, s);
        forall i | 0 <= i < |Insert(m, s)|
          ensures Key(Insert(m, s)[i]) <= b
        {
          if i < |r| {
            assert Insert(m, s)[i] == r[i];
          }
        }
      }
    }
  }

  /** Inserting into a chronological sequence keeps it chronological. */
  lemma {:induction false} InsertChronological(m: Note, s: seq<Note>)
    requires m.published.Some? && Stamped(s) && Chronological(s)
    ensures Chronological(Insert(m, s))
  {
    if s != [] {
      var n := |s| - 1;
      if Key(s[n]) > Key(m) {
        var init := s[..n];
        assert Chronological(init);
        InsertChronological(m, init);
        InsertBounded(m, init, Key(s[n]));
        var r := Insert(m, init);
        assert Insert(m, s) == r + [s[n]];
      }
    }
  }

  /** A message later than all of `s` goes last. */
  lemma InsertStableAfter(m: Note, s: seq<Note>, k: int)
    requires m.published.Some? && Stamped(s)
    requires s != [] && Key(s[|s| - 1]) <= Key(m)
    ensures PublishedAt(Insert(m, s), k) == PublishedAt(s, k) + if m.published == Some(k) then [m] else []
  {
    assert Insert(m, s) == s + [m];
    PublishedAtSnoc(s, m, k);
  }

  /** Appending a message `x` later than `m` to a sequence whose messages at
      time `k` are those of `init` and then `m` gives those of `init + [x]`
      and then `m`: `x` cannot share the time of `m`. */
  lemma PublishedAtPastLater(m: Note, x: Note, init: seq<Note>, r: seq<Note>, k: int)
    requires m.published.Some? && x.published.Some? && Key(x) > Key(m)
    requires PublishedAt(r, k) == PublishedAt(init, k) + if m.published == Some(k) then [m] else []
    ensures PublishedAt(r + [x], k) == PublishedAt(init + [x], k) + if m.published == Some(k) then [m] else []
  {
    PublishedAtSnoc(r, x, k);
    PublishedAtSnoc(init, x, k);
    var p := PublishedAt(init, k);
    if m.published == Some(k) {
      assert x.published != Some(k);
      assert PublishedAt(r, k) == p + [m];
      assert PublishedAt(init + [x], k) == p;
    } else {
      assert PublishedAt(r, k) == p;
    }
  }

  /** A message earlier than `x` goes before it, where `x` cannot share its
      time. */
  lemma InsertStableBefore(m: Note, init: seq<Note>, x: Note, k: int)
    requires m.published.Some? && x.published.Some? && Stamped(init) && Key(x) > Key(m)
    requires PublishedAt(Insert(m, init), k) == PublishedAt(init, k) + if m.published == Some(k) then [m] else []
    ensures PublishedAt(Insert(m, init + [x]), k) == PublishedAt(init + [x], k) + if m.published == Some(k) then [m] else []
  {
    assert (init + [x])[..|init|] == init;
    InsertBeforeLast(m, init + [x]);
    PublishedAtPastLater(m, x, init, Insert(m, init), k);
  }

  /** Inserting a message puts it after the messages published at the same
      time: the relative order of equal keys is kept. */
  lemma {:induction false} InsertStable(m: Note, s: seq<Note>, k: int)
    requires m.published.Some? && Stamped(s)
    ensures PublishedAt(Insert(m, s), k) == PublishedAt(s, k) + if m.published == Some(k) then [m] else []
  {
    if s == [] {
      PublishedAtSnoc([], m, k);
      assert [] + [m] == [m];
    } else if Key(s[|s| - 1]) <= Key(m) {
      InsertStableAfter(m, s, k);
    } else {
      var n := |s| - 1;
      var init, x := s[..n], s[n];
      assert s == init + [x];
      InsertStable(m, init, k);
      InsertStableBefore(m, init, x, k);
    }
  }

  /** The sort returns the same messages. */
  lemma {:induction false} SortByPublishedPermutes(s: seq<Note>)
    requires Stamped(s)
    ensures multiset(SortByPublished(s)) == multiset(s)
  {
    if s != [] {
      var n := |s| - 1;
      SortByPublishedPermutes(s[..n]);
      assert s == s[..n] + [s[n]];
    }
  }

  /** The sort orders the messages by publication time. */
  lemma {:induction false} SortByPublishedChronological(s: seq<Note>)
    requires Stamped(s)
    ensures Chronological(SortByPublished(s))
  {
    if s != [] {
      var n := |s| - 1;
      SortByPublishedChronological(s[..n]);
      InsertChronological(s[n], SortByPublished(s[..n]));
    }
  }

  /** Messages published at the same time keep their input order. */
  lemma {:induction false} SortByPublishedStable(s: seq<Note>, k: int)
    requires Stamped(s)
    ensures PublishedAt(SortByPublished(s), k) == PublishedAt(s, k)
  {
    if s != [] {
      var n := |s| - 1;
      SortByPublishedStable(s[..n], k);
      InsertStable(s[n], SortByPublished(s[..n]), k);
    }
  }

  /** The sort returns the same messages, ascending by publication time, and
      messages published at the same time keep their input order. */
  lemma SortByPublishedSpec(s: seq<Note>)
    requires Stamped(s)
    ensures multiset(SortByPublished(s)) == multiset(s)
    ensures Chronological(SortByPublished(s))
    ensures forall k :: PublishedAt(SortByPublished(s), k) == PublishedAt(s, k)
  {
    SortByPublishedPermutes(s);
    SortByPublishedChronological(s);
    forall k
      ensures PublishedAt(SortByPublished(s), k) == PublishedAt(s, k)
    {
      SortByPublishedStable(s, k);
    }
  }
}
