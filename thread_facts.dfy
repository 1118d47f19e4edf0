/** What `collectThreads` (js/paradise.js) guarantees about the threads it
    returns, proved of the model in module Threads. */
module ThreadFacts {
  import opened Common
  import opened Activity
  import opened Threads

  // ---- The index -------------------------------------------------------

  /** The replies to `p` among `ms`, in input order. */
  function RepliesTo(ms: seq<Note>, p: string): seq<Note>
  {
    if ms == [] then []
    else RepliesTo(ms[..|ms| - 1], p) + if ms[|ms| - 1].inReplyTo == p then [ms[|ms| - 1]] else []
  }

  lemma {:induction false} RepliesToMembers(ms: seq<Note>, p: string)
    ensures forall r :: r in RepliesTo(ms, p) <==> r in ms && r.inReplyTo == p
  {
    if ms != [] {
      var init := ms[..|ms| - 1];
      RepliesToMembers(init, p);
      assert ms == init + [ms[|ms| - 1]];
    }
  }

  /** `repliesTo[p]` lists exactly the messages that reply to `p`, in the
      order they appear in the input; a root's empty `inReplyTo` is never a
      key. */
  lemma {:induction false} ChildrenAreReplies(ms: seq<Note>, p: string)
    ensures Children(IndexOf(ms), p) == if p == "" then [] else RepliesTo(ms, p)
  {
    if ms != [] {
      ChildrenAreReplies(ms[..|ms| - 1], p);
    }
  }

  /** Every entry of `idMap` is filed under its own id. */
  predicate WellKeyed(ix: Index)
  {
    forall k :: k in ix.byId ==> ix.byId[k].id == k
  }

  /** Every entry of `idMap` is filed under its own id. */
  lemma {:induction false} IndexWellKeyed(ms: seq<Note>)
    ensures WellKeyed(IndexOf(ms))
  {
    if ms != [] {
      IndexWellKeyed(ms[..|ms| - 1]);
    }
  }

  /** `idMap` holds exactly the ids of the input. */
  lemma {:induction false} ByIdKeys(ms: seq<Note>, k: string)
    ensures k in IndexOf(ms).byId <==> exists i :: 0 <= i < |ms| && ms[i].id == k
  {
    if ms != [] {
      var init := ms[..|ms| - 1];
      ByIdKeys(init, k);
      assert forall i :: 0 <= i < |init| ==> init[i] == ms[i];
      if k in IndexOf(init).byId {
        var i :| 0 <= i < |init| && init[i].id == k;
        assert ms[i].id == k;
      }
    }
  }

  /** The entry under `k` is the last message of the input with that id. */
  lemma {:induction false} ByIdLast(ms: seq<Note>, k: string)
    requires k in IndexOf(ms).byId
    ensures exists i :: 0 <= i < |ms| && ms[i] == IndexOf(ms).byId[k] && forall j :: i < j < |ms| ==> ms[j].id != k
  {
    var init := ms[..|ms| - 1];
    var last := |ms| - 1;
    if ms[last].id == k {
      assert ms[last] == IndexOf(ms).byId[k];
    } else {
      ByIdLast(init, k);
      var i :| 0 <= i < |init| && init[i] == IndexOf(init).byId[k] && forall j :: i < j < |init| ==> init[j].id != k;
      assert IndexOf(ms).byId[k] == IndexOf(init).byId[k];
      forall j | i < j < |ms|
        ensures ms[j].id != k
      {
        if j < last {
          assert ms[j] == init[j];
        }
      }
      assert ms[i] == init[i];
    }
  }

  /** `idMap` holds the ids of the input, each mapped to the LAST message
      that carries it. */
  lemma ByIdIsLast(ms: seq<Note>, k: string)
    ensures WellKeyed(IndexOf(ms))
    ensures k in IndexOf(ms).byId <==> exists i :: 0 <= i < |ms| && ms[i].id == k
    ensures k in IndexOf(ms).byId ==>
      exists i :: 0 <= i < |ms| && ms[i] == IndexOf(ms).byId[k] && forall j :: i < j < |ms| ==> ms[j].id != k
  {
    IndexWellKeyed(ms);
    ByIdKeys(ms, k);
    if k in IndexOf(ms).byId {
      ByIdLast(ms, k);
    }
  }

  // ---- One walk ----------------------------------------------------------

  /** Every element is the message `idMap` holds under its id. */
  predicate FromIndex(ix: Index, t: seq<Note>)
  {
    forall i :: 0 <= i < |t| ==> t[i].id in ix.byId && ix.byId[t[i].id] == t[i]
  }

  /** Every element's id was unvisited before and is visited after. */
  predicate Fresh(t: seq<Note>, before: set<string>, after: set<string>)
  {
    forall i :: 0 <= i < |t| ==> t[i].id !in before && t[i].id in after
  }

  predicate DistinctIds(t: seq<Note>)
  {
    forall i, j :: 0 <= i < j < |t| ==> t[i].id != t[j].id
  }

  /** A walk from `id` lists messages of the index, each id once and none
      visited before; it is empty when `id` was visited or is missing from
      `idMap`, and otherwise starts with the message filed under `id`. */
  lemma {:induction false} VisitFacts(ix: Index, id: string, v: set<string>)
    requires WellKeyed(ix)
    ensures var (t, v') := Visit(ix, id, v);
      && FromIndex(ix, t) && Fresh(t, v, v') && DistinctIds(t)
      && (t == [] <==> id in v || id !in ix.byId)
      && (t != [] ==> t[0] == ix.byId[id] && t[0].id == id)
    decreases ix.byId.Keys - v, 0
  {
    if id !in v && id in ix.byId {
      var v0 := v + {id};
      VisitAllFacts(ix, Children(ix, id), v0);
      var (t', v') := VisitAll(ix, Children(ix, id), v0);
      var t := [ix.byId[id]] + t';
      assert Visit(ix, id, v) == (t, v');
      assert forall i :: 1 <= i < |t| ==> t[i] == t'[i - 1];
    }
  }

  lemma {:induction false} VisitAllFacts(ix: Index, rs: seq<Note>, v: set<string>)
    requires WellKeyed(ix)
    ensures var (t, v') := VisitAll(ix, rs, v);
      FromIndex(ix, t) && Fresh(t, v, v') && DistinctIds(t)
    decreases ix.byId.Keys - v, 1, |rs|
  {
    if rs != [] {
      var (t1, v1) := Visit(ix, rs[0].id, v);
      var (t2, v2) := VisitAll(ix, rs[1..], v1);
      VisitFacts(ix, rs[0].id, v);
      VisitAllFacts(ix, rs[1..], v1);
      var t := t1 + t2;
      assert VisitAll(ix, rs, v) == (t, v2);
      assert forall i :: |t1| <= i < |t| ==> t[i] == t2[i - |t1|];
    }
  }

  /** The ids of the replies `repliesTo[p]` lists. */
  function ChildIds(ix: Index, p: string): set<string>
  {
    set r | r in Children(ix, p) :: r.id
  }

  /** The ids `repliesTo` lists under any message of `s`. */
  function RepliedIds(ix: Index, s: seq<Note>): set<string>
  {
    if s == [] then {} else RepliedIds(ix, s[..|s| - 1]) + ChildIds(ix, s[|s| - 1].id)
  }

  lemma {:induction false} RepliedIdsConcat(ix: Index, a: seq<Note>, b: seq<Note>)
    ensures RepliedIds(ix, a + b) == RepliedIds(ix, a) + RepliedIds(ix, b)
  {
    if b != [] {
      assert (a + b)[..|a + b| - 1] == a + b[..|b| - 1];
      RepliedIdsConcat(ix, a, b[..|b| - 1]);
    } else {
      assert a + b == a;
    }
  }

  lemma {:induction false} RepliedIdsMeans(ix: Index, s: seq<Note>, c: string)
    ensures c in RepliedIds(ix, s) <==> exists j :: 0 <= j < |s| && c in ChildIds(ix, s[j].id)
  {
    if s != [] {
      var init := s[..|s| - 1];
      RepliedIdsMeans(ix, init, c);
      assert forall j :: 0 <= j < |init| ==> init[j] == s[j];
    }
  }

  /** Pre-order: after its first message, every message of a walk was
      reached as a reply of a message listed before it. */
  predicate PreOrder(ix: Index, t: seq<Note>)
  {
    forall i :: 0 < i < |t| ==> t[i].id in RepliedIds(ix, t[..i])
  }

  /** The walks of the replies of `p`: every message was reached as a reply
      either of an earlier message or of `p` itself. */
  predicate PreOrderUnder(ix: Index, p: string, t: seq<Note>)
  {
    forall i :: 0 <= i < |t| ==> t[i].id in RepliedIds(ix, t[..i]) + ChildIds(ix, p)
  }

  lemma {:induction false} VisitLinked(ix: Index, id: string, v: set<string>)
    requires WellKeyed(ix)
    ensures PreOrder(ix, Visit(ix, id, v).0)
    decreases ix.byId.Keys - v, 0
  {
    if id !in v && id in ix.byId {
      var v0 := v + {id};
      var rs := Children(ix, id);
      VisitAllLinked(ix, id, rs, v0);
      var t' := VisitAll(ix, rs, v0).0;
      assert Visit(ix, id, v).0 == [ix.byId[id]] + t';
      assert ix.byId[id].id == id;
      LinkedUnder(ix, ix.byId[id], t');
    }
  }

  lemma {:induction false} VisitAllLinked(ix: Index, p: string, rs: seq<Note>, v: set<string>)
    requires WellKeyed(ix)
    requires forall k :: 0 <= k < |rs| ==> rs[k] in Children(ix, p)
    ensures PreOrderUnder(ix, p, VisitAll(ix, rs, v).0)
    decreases ix.byId.Keys - v, 1, |rs|
  {
    if rs != [] {
      var (t1, v1) := Visit(ix, rs[0].id, v);
      var t2 := VisitAll(ix, rs[1..], v1).0;
      VisitFacts(ix, rs[0].id, v);
      VisitLinked(ix, rs[0].id, v);
      VisitAllLinked(ix, p, rs[1..], v1);
      assert VisitAll(ix, rs, v).0 == t1 + t2;
      assert t1 != [] ==> t1[0].id in ChildIds(ix, p) by {
        if t1 != [] {
          assert rs[0] in Children(ix, p) && t1[0].id == rs[0].id;
        }
      }
      LinkedSiblings(ix, p, t1, t2);
    }
  }

  /** A message followed by what was reached from its replies is in pre-order. */
  lemma LinkedUnder(ix: Index, m: Note, t': seq<Note>)
    requires PreOrderUnder(ix, m.id, t')
    ensures PreOrder(ix, [m] + t')
  {
    var t := [m] + t';
    forall i | 0 < i < |t| ensures t[i].id in RepliedIds(ix, t[..i]) {
      assert t[i] == t'[i - 1];
      assert t[..i] == [m] + t'[..i - 1];
      RepliedIdsConcat(ix, [m], t'[..i - 1]);
      assert RepliedIds(ix, [m]) == ChildIds(ix, m.id) by {
        assert [m][..0] == [];
      }
    }
  }

  /** The walk of one reply of `p` followed by the walks of the later ones. */
  lemma LinkedSiblings(ix: Index, p: string, t1: seq<Note>, t2: seq<Note>)
    requires t1 != [] ==> t1[0].id in ChildIds(ix, p)
    requires PreOrder(ix, t1)
    requires PreOrderUnder(ix, p, t2)
    ensures PreOrderUnder(ix, p, t1 + t2)
  {
    var t := t1 + t2;
    forall i | 0 <= i < |t| ensures t[i].id in RepliedIds(ix, t[..i]) + ChildIds(ix, p) {
      if i < |t1| {
        assert t[i] == t1[i] && t[..i] == t1[..i];
      } else {
        var i2 := i - |t1|;
        assert t[i] == t2[i2] && t[..i] == t1 + t2[..i2];
        RepliedIdsConcat(ix, t1, t2[..i2]);
      }
    }
  }

  // ---- The returned threads ---------------------------------------------

  /** The positions in `ms` of the roots whose walk under `ix` is longer than
      one, in increasing order. */
  function Positions(ix: Index, ms: seq<Note>): seq<nat>
  {
    if ms == [] then []
    else
      var n := |ms| - 1;
      Positions(ix, ms[..n]) + if IsRoot(ms[n]) && |Walk(ix, ms[n].id)| > 1 then [n] else []
  }

  /** `ts` are the walks from the roots of `ms` at positions `ps`, in
      increasing order, and `ps` holds every root whose walk is longer than
      one. */
  predicate FollowRoots(ix: Index, ms: seq<Note>, ts: seq<seq<Note>>, ps: seq<nat>)
  {
    && |ps| == |ts|
    && (forall k :: 0 <= k < |ps| ==> ps[k] < |ms| && IsRoot(ms[ps[k]]) && ts[k] == Walk(ix, ms[ps[k]].id))
    && (forall k, l :: 0 <= k < l < |ps| ==> ps[k] < ps[l])
    && (forall i :: 0 <= i < |ms| && IsRoot(ms[i]) && |Walk(ix, ms[i].id)| > 1 ==> i in ps)
  }

  /** The threads are the walks from the roots, one per root whose walk is
      longer than one, in the order the roots appear in the input. */
  lemma {:induction false} ThreadsFollowRoots(ix: Index, ms: seq<Note>)
    ensures FollowRoots(ix, ms, LongOnly(Walks(ix, Roots(ms))), Positions(ix, ms))
  {
    if ms != [] {
      var n := |ms| - 1;
      var init := ms[..n];
      var m := ms[n];
      ThreadsFollowRoots(ix, init);
      assert ms == init + [m];
      ThreadsAppend(ix, init, m);
      var long := IsRoot(m) && |Walk(ix, m.id)| > 1;
      PositionsStep(ix, ms, LongOnly(Walks(ix, Roots(init))), Positions(ix, init), long);
    }
  }

  lemma PositionsStep(ix: Index, ms: seq<Note>, ts0: seq<seq<Note>>, ps0: seq<nat>, long: bool)
    requires ms != []
    requires long == (IsRoot(ms[|ms| - 1]) && |Walk(ix, ms[|ms| - 1].id)| > 1)
    requires FollowRoots(ix, ms[..|ms| - 1], ts0, ps0)
    ensures FollowRoots(ix, ms, ts0 + (if long then [Walk(ix, ms[|ms| - 1].id)] else []),
                        ps0 + if long then [|ms| - 1] else [])
  {
    assert forall i :: 0 <= i < |ms| - 1 ==> ms[..|ms| - 1][i] == ms[i];
  }

  /** No two messages of the input share an id. */
  predicate UniqueIds(ms: seq<Note>)
  {
    forall i, j :: 0 <= i < j < |ms| ==> ms[i].id != ms[j].id
  }

  /** Every thread holds at least two messages, all of them messages of the
      input (each the last one carrying its id), no id twice, in pre-order;
      its first message is filed under the id of a root of the input. */
  lemma ThreadShape(ms: seq<Note>, k: nat)
    requires k < |ThreadsOf(ms)|
    ensures var t := ThreadsOf(ms)[k];
      && |t| >= 2
      && DistinctIds(t)
      && (forall i :: 0 <= i < |t| ==> t[i] in ms && t[i].id in IndexOf(ms).byId && t[i] == IndexOf(ms).byId[t[i].id])
      && PreOrder(IndexOf(ms), t)
      && exists j :: 0 <= j < |ms| && IsRoot(ms[j]) && t[0].id == ms[j].id
  {
    var ix := IndexOf(ms);
    var t := ThreadsOf(ms)[k];
    ThreadsFollowRoots(ix, ms);
    var ps := Positions(ix, ms);
    var root := ms[ps[k]];
    ByIdIsLast(ms, root.id);
    VisitFacts(ix, root.id, {});
    VisitLinked(ix, root.id, {});
    forall i | 0 <= i < |t| ensures t[i] in ms {
      ByIdIsLast(ms, t[i].id);
    }
  }

  /** When ids are unique, a thread starts with a root message of the input
      and every later message replies to a message listed before it. */
  lemma ThreadShapeUnique(ms: seq<Note>, k: nat)
    requires UniqueIds(ms)
    requires k < |ThreadsOf(ms)|
    ensures var t := ThreadsOf(ms)[k];
      && IsRoot(t[0])
      && (forall i :: 0 < i < |t| ==> !IsRoot(t[i]))
      && (forall i :: 0 < i < |t| ==> exists j :: 0 <= j < i && t[i].inReplyTo == t[j].id)
  {
    var ix := IndexOf(ms);
    var t := ThreadsOf(ms)[k];
    ThreadShape(ms, k);
    var j0 :| 0 <= j0 < |ms| && IsRoot(ms[j0]) && t[0].id == ms[j0].id;
    SameIdSameMessage(ms, t[0], ms[j0]);
    forall i | 0 < i < |t|
      ensures !IsRoot(t[i]) && exists j :: 0 <= j < i && t[i].inReplyTo == t[j].id
    {
      ReplyOfEarlier(ms, t, i);
    }
  }

  /** A message reached as a reply of an earlier message of a walk replies to
      it, when ids are unique. */
  lemma ReplyOfEarlier(ms: seq<Note>, t: seq<Note>, i: nat)
    requires UniqueIds(ms) && 0 < i < |t| && t[i] in ms
    requires t[i].id in RepliedIds(IndexOf(ms), t[..i])
    ensures !IsRoot(t[i]) && exists j :: 0 <= j < i && t[i].inReplyTo == t[j].id
  {
    var ix := IndexOf(ms);
    RepliedIdsMeans(ix, t[..i], t[i].id);
    var j :| 0 <= j < i && t[i].id in ChildIds(ix, t[..i][j].id);
    var p := t[j].id;
    var r :| r in Children(ix, p) && r.id == t[i].id;
    ChildrenAreReplies(ms, p);
    RepliesToMembers(ms, p);
    SameIdSameMessage(ms, t[i], r);
    assert t[i].inReplyTo == p != "";
  }

  /** A chain of replies from a root: the first message is a root, every
      later one is not and replies to one listed before it, and all are
      messages of `ms`. */
  predicate RootChain(ms: seq<Note>, t: seq<Note>)
  {
    && |t| > 0 && IsRoot(t[0])
    && (forall i :: 0 <= i < |t| ==> t[i] in ms)
    && (forall i :: 0 < i < |t| ==> !IsRoot(t[i]))
    && (forall i :: 0 < i < |t| ==> exists j :: 0 <= j < i && t[i].inReplyTo == t[j].id)
  }

  /** With unique ids a message leads back to a single root: two chains that
      share a message start with the same root. */
  lemma {:induction false} SameRoot(ms: seq<Note>, t: seq<Note>, u: seq<Note>, a: nat, b: nat)
    requires UniqueIds(ms) && RootChain(ms, t) && RootChain(ms, u)
    requires a < |t| && b < |u| && t[a] == u[b]
    ensures t[0] == u[0]
    decreases a
  {
    if a > 0 {
      assert !IsRoot(t[a]);
      var j :| 0 <= j < a && t[a].inReplyTo == t[j].id;
      var j' :| 0 <= j' < b && u[b].inReplyTo == u[j'].id;
      SameIdSameMessage(ms, t[j], u[j']);
      SameRoot(ms, t, u, j, j');
    }
  }

  /** A thread is a chain of replies from its root, when ids are unique. */
  lemma ThreadIsRootChain(ms: seq<Note>, k: nat)
    requires UniqueIds(ms) && k < |ThreadsOf(ms)|
    ensures RootChain(ms, ThreadsOf(ms)[k])
  {
    ThreadShape(ms, k);
    ThreadShapeUnique(ms, k);
  }

  /** The threads start with the roots they were walked from, so no two
      threads start with the same message. */
  lemma ThreadRootsDiffer(ms: seq<Note>, k: nat, l: nat)
    requires UniqueIds(ms) && k < l < |ThreadsOf(ms)|
    ensures ThreadsOf(ms)[k][0].id != ThreadsOf(ms)[l][0].id
  {
    var ix := IndexOf(ms);
    ThreadsFollowRoots(ix, ms);
    IndexWellKeyed(ms);
    var ps := Positions(ix, ms);
    ThreadShape(ms, k);
    ThreadShape(ms, l);
    VisitFacts(ix, ms[ps[k]].id, {});
    VisitFacts(ix, ms[ps[l]].id, {});
  }

  /** When ids are unique, no message belongs to two threads. */
  lemma ThreadsDisjoint(ms: seq<Note>)
    requires UniqueIds(ms)
    ensures forall k, l, x :: 0 <= k < l < |ThreadsOf(ms)| && x in ThreadsOf(ms)[k] ==> x !in ThreadsOf(ms)[l]
  {
    var ts := ThreadsOf(ms);
    forall k, l, x | 0 <= k < l < |ts| && x in ts[k]
      ensures x !in ts[l]
    {
      if x in ts[l] {
        ThreadIsRootChain(ms, k);
        ThreadIsRootChain(ms, l);
        var a :| 0 <= a < |ts[k]| && ts[k][a] == x;
        var b :| 0 <= b < |ts[l]| && ts[l][b] == x;
        SameRoot(ms, ts[k], ts[l], a, b);
        ThreadRootsDiffer(ms, k, l);
      }
    }
  }

  lemma SameIdSameMessage(ms: seq<Note>, a: Note, b: Note)
    requires UniqueIds(ms) && a in ms && b in ms && a.id == b.id
    ensures a == b
  {
    var i :| 0 <= i < |ms| && ms[i] == a;
    var j :| 0 <= j < |ms| && ms[j] == b;
    assert i == j;
  }

  // ---- Replies in input order --------------------------------------------

  /** What the index of messages with unique ids looks like: every listed
      reply replies to a non-empty id, is filed under its own id, and a list
      of replies holds no id twice. */
  ghost predicate GoodIndex(ix: Index)
  {
    && WellKeyed(ix)
    && (forall p :: Children(ix, p) != [] ==> p != "")
    && (forall p, i :: 0 <= i < |Children(ix, p)| ==>
          && Children(ix, p)[i].inReplyTo == p
          && Children(ix, p)[i].id in ix.byId && ix.byId[Children(ix, p)[i].id] == Children(ix, p)[i])
    && (forall p, i, j :: 0 <= i < j < |Children(ix, p)| ==> Children(ix, p)[i].id != Children(ix, p)[j].id)
  }

  /** `x` comes before `y` in the replies to the message `x` replies to. */
  ghost predicate Before(ix: Index, x: Note, y: Note)
  {
    exists i, j :: 0 <= i < j < |Children(ix, x.inReplyTo)|
      && Children(ix, x.inReplyTo)[i] == x && Children(ix, x.inReplyTo)[j] == y
  }

  /** Replies to the same message appear in the order of their list. */
  ghost predicate SiblingsInOrder(ix: Index, t: seq<Note>)
  {
    forall a, b :: 0 <= a < |t| && 0 <= b < |t| && Before(ix, t[a], t[b]) ==> a < b
  }

  /** Every message after the first replies to one listed before it. */
  ghost predicate Linked(t: seq<Note>)
  {
    forall i :: 0 < i < |t| ==> exists j :: 0 <= j < i && t[i].inReplyTo == t[j].id
  }

  /** Every message replies to `q` or to one listed before it. */
  ghost predicate ParentIn(t: seq<Note>, q: string)
  {
    forall i :: 0 <= i < |t| ==> t[i].inReplyTo == q || exists j :: 0 <= j < i && t[i].inReplyTo == t[j].id
  }

  /** Two siblings in order are two different replies to a non-empty id. */
  lemma BeforeFacts(ix: Index, x: Note, y: Note)
    requires GoodIndex(ix)
    ensures Before(ix, x, y) ==> x.inReplyTo == y.inReplyTo && x.inReplyTo != "" && x.id != y.id
  {
    if Before(ix, x, y) {
      var p := x.inReplyTo;
      var i, j :| 0 <= i < j < |Children(ix, p)| && Children(ix, p)[i] == x && Children(ix, p)[j] == y;
    }
  }

  /** A later reply never comes before an earlier one in the list. */
  lemma NotBeforeEarlier(ix: Index, q: string, o: nat, k: nat)
    requires GoodIndex(ix) && o < k < |Children(ix, q)|
    ensures !Before(ix, Children(ix, q)[k], Children(ix, q)[o])
  {
    var cs := Children(ix, q);
    assert cs[k].inReplyTo == q;
    forall i, j | 0 <= i < j < |cs|
      ensures !(cs[i] == cs[k] && cs[j] == cs[o])
    {
      if i == k {
        assert cs[j].id != cs[o].id;
      }
    }
  }

  /** A message followed by messages that reply to it or to one listed
      before them. */
  lemma HeadLinked(t: seq<Note>)
    requires t != [] && ParentIn(t[1..], t[0].id)
    ensures Linked(t)
  {
    var t' := t[1..];
    forall i | 0 < i < |t| ensures exists j :: 0 <= j < i && t[i].inReplyTo == t[j].id {
      assert t[i] == t'[i - 1];
      if t'[i - 1].inReplyTo != t[0].id {
        var j' :| 0 <= j' < i - 1 && t'[i - 1].inReplyTo == t'[j'].id;
        assert t[j' + 1] == t'[j'];
      }
    }
  }

  /** A message and the walks of its replies: the message cannot come after
      one of its own siblings that the walks reach, because that sibling
      would have to reply to an id visited before. */
  lemma HeadFirst(ix: Index, t: seq<Note>, v: set<string>)
    requires GoodIndex(ix) && t != [] && t[0].id !in v
    requires IsRoot(t[0]) || t[0].inReplyTo in v
    requires ParentIn(t[1..], t[0].id) && SiblingsInOrder(ix, t[1..])
    requires forall i :: 0 < i < |t| ==> t[i].id !in v
    ensures Linked(t) && SiblingsInOrder(ix, t)
  {
    HeadLinked(t);
    forall a, b | 0 <= a < |t| && 0 <= b < |t| && Before(ix, t[a], t[b]) ensures a < b {
      BeforeFacts(ix, t[a], t[b]);
      if a > 0 && b > 0 {
        assert t[a] == t[1..][a - 1] && t[b] == t[1..][b - 1];
      }
    }
  }

  /** The walk of the reply at position `o` of the replies to `q`, followed
      by the walks of the later replies: each message still replies to `q`
      or to one listed before it. */
  lemma ConcatParents(ix: Index, q: string, o: nat, t1: seq<Note>, t2: seq<Note>)
    requires GoodIndex(ix) && o < |Children(ix, q)|
    requires t1 != [] ==> t1[0] == Children(ix, q)[o]
    requires Linked(t1) && ParentIn(t2, q)
    requires forall i :: 0 <= i < |t1| ==> t1[i].id != q
    requires forall i :: 0 <= i < |t2| && t2[i].inReplyTo == q ==> t2[i] in Children(ix, q)[o + 1..]
    ensures ParentIn(t1 + t2, q)
    ensures forall i :: 0 <= i < |t1 + t2| && (t1 + t2)[i].inReplyTo == q ==> (t1 + t2)[i] in Children(ix, q)[o..]
  {
    var t := t1 + t2;
    var cs := Children(ix, q);
    assert cs[o..] == [cs[o]] + cs[o + 1..];
    forall i | 0 <= i < |t|
      ensures t[i].inReplyTo == q || exists j :: 0 <= j < i && t[i].inReplyTo == t[j].id
      ensures t[i].inReplyTo == q ==> t[i] in cs[o..]
    {
      if i < |t1| {
        assert t[i] == t1[i];
        if i > 0 {
          var j :| 0 <= j < i && t1[i].inReplyTo == t1[j].id;
          assert t[j] == t1[j];
        }
      } else {
        var i2 := i - |t1|;
        assert t[i] == t2[i2];
        if t2[i2].inReplyTo != q {
          var j :| 0 <= j < i2 && t2[i2].inReplyTo == t2[j].id;
          assert t[|t1| + j] == t2[j];
        }
      }
    }
  }

  /** In the concatenation, a message of the first walk other than its head
      replies to a message of that walk, and a message of the later walks
      that does not reply to `q` replies to one of them; ids being distinct,
      the two cannot reply to the same message. */
  lemma ParentsDiffer(q: string, t1: seq<Note>, t2: seq<Note>, a2: nat, b: nat)
    requires Linked(t1) && ParentIn(t2, q) && DistinctIds(t1 + t2)
    requires forall i :: 0 <= i < |t1| ==> t1[i].id != q
    requires a2 < |t2| && b < |t1|
    ensures b > 0 ==> t1[b].inReplyTo != q
    ensures b > 0 && t2[a2].inReplyTo != q ==> t2[a2].inReplyTo != t1[b].inReplyTo
  {
    if b > 0 {
      var j :| 0 <= j < b && t1[b].inReplyTo == t1[j].id;
      if t2[a2].inReplyTo != q {
        var j' :| 0 <= j' < a2 && t2[a2].inReplyTo == t2[j'].id;
        assert (t1 + t2)[j] == t1[j] && (t1 + t2)[|t1| + j'] == t2[j'];
      }
    }
  }

  /** No message of the later walks comes before a sibling in the first. */
  lemma CrossSiblings(ix: Index, q: string, o: nat, t1: seq<Note>, t2: seq<Note>, a2: nat, b: nat)
    requires GoodIndex(ix) && o < |Children(ix, q)|
    requires t1 != [] ==> t1[0] == Children(ix, q)[o]
    requires Linked(t1) && ParentIn(t2, q) && DistinctIds(t1 + t2)
    requires forall i :: 0 <= i < |t1| ==> t1[i].id != q
    requires forall i :: 0 <= i < |t2| && t2[i].inReplyTo == q ==> t2[i] in Children(ix, q)[o + 1..]
    requires a2 < |t2| && b < |t1|
    ensures !Before(ix, t2[a2], t1[b])
  {
    var cs := Children(ix, q);
    var x, y := t2[a2], t1[b];
    BeforeFacts(ix, x, y);
    ParentsDiffer(q, t1, t2, a2, b);
    if b == 0 && x.inReplyTo == q {
      assert x in cs[o + 1..];
      var k0 :| 0 <= k0 < |cs[o + 1..]| && cs[o + 1..][k0] == x;
      NotBeforeEarlier(ix, q, o, o + 1 + k0);
    }
  }

  /** The same concatenation keeps siblings in order: a sibling in the
      later walks cannot come before one in the first walk. */
  lemma ConcatSiblings(ix: Index, q: string, o: nat, t1: seq<Note>, t2: seq<Note>)
    requires GoodIndex(ix) && o < |Children(ix, q)|
    requires t1 != [] ==> t1[0] == Children(ix, q)[o]
    requires Linked(t1) && SiblingsInOrder(ix, t1)
    requires ParentIn(t2, q) && SiblingsInOrder(ix, t2)
    requires forall i :: 0 <= i < |t1| ==> t1[i].id != q
    requires forall i :: 0 <= i < |t2| && t2[i].inReplyTo == q ==> t2[i] in Children(ix, q)[o + 1..]
    requires DistinctIds(t1 + t2)
    ensures SiblingsInOrder(ix, t1 + t2)
  {
    var t := t1 + t2;
    forall a2, b | 0 <= a2 < |t2| && 0 <= b < |t1|
      ensures !Before(ix, t2[a2], t1[b])
    {
      CrossSiblings(ix, q, o, t1, t2, a2, b);
    }
    forall a, b | 0 <= a < |t| && 0 <= b < |t| && Before(ix, t[a], t[b]) ensures a < b {
      if a < |t1| && b < |t1| {
        assert t[a] == t1[a] && t[b] == t1[b];
      } else if |t1| <= a && |t1| <= b {
        assert t[a] == t2[a - |t1|] && t[b] == t2[b - |t1|];
      }
    }
  }

  /** A walk lists the replies to any message in the order `repliesTo` holds
      them, when the walk starts at a root or at a message whose parent was
      visited before. */
  lemma {:induction false} VisitOrdered(ix: Index, id: string, v: set<string>)
    requires GoodIndex(ix)
    requires id in ix.byId && id !in v ==> IsRoot(ix.byId[id]) || ix.byId[id].inReplyTo in v
    ensures Linked(Visit(ix, id, v).0) && SiblingsInOrder(ix, Visit(ix, id, v).0)
    decreases ix.byId.Keys - v, 0
  {
    if id !in v && id in ix.byId {
      var m := ix.byId[id];
      var v0 := v + {id};
      var rs := Children(ix, id);
      assert rs == Children(ix, id)[0..];
      VisitAllOrdered(ix, id, 0, rs, v0);
      VisitAllFacts(ix, rs, v0);
      var t := Visit(ix, id, v).0;
      assert t == [m] + VisitAll(ix, rs, v0).0;
      assert t[1..] == VisitAll(ix, rs, v0).0;
      HeadFirst(ix, t, v);
    }
  }

  /** The walks of the replies to `q` from position `o` on: each message
      replies to `q` or to one listed before it, the replies to `q` among
      them are those of the list, and siblings are in order. */
  lemma {:induction false} VisitAllOrdered(ix: Index, q: string, o: nat, rs: seq<Note>, v: set<string>)
    requires GoodIndex(ix) && q in v
    requires o <= |Children(ix, q)| && rs == Children(ix, q)[o..]
    ensures ParentIn(VisitAll(ix, rs, v).0, q)
    ensures forall i :: 0 <= i < |VisitAll(ix, rs, v).0| && VisitAll(ix, rs, v).0[i].inReplyTo == q ==>
      VisitAll(ix, rs, v).0[i] in rs
    ensures SiblingsInOrder(ix, VisitAll(ix, rs, v).0)
    decreases ix.byId.Keys - v, 1, |rs|
  {
    if rs != [] {
      var (t1, v1) := Visit(ix, rs[0].id, v);
      var t2 := VisitAll(ix, rs[1..], v1).0;
      assert rs[0] == Children(ix, q)[o];
      VisitOrdered(ix, rs[0].id, v);
      VisitFacts(ix, rs[0].id, v);
      assert rs[1..] == Children(ix, q)[o + 1..];
      VisitAllOrdered(ix, q, o + 1, rs[1..], v1);
      VisitAllFacts(ix, rs, v);
      assert VisitAll(ix, rs, v).0 == t1 + t2;
      ConcatParents(ix, q, o, t1, t2);
      ConcatSiblings(ix, q, o, t1, t2);
    }
  }

  /** With unique ids, the replies to `p` carry distinct ids. */
  lemma {:induction false} RepliesToDistinct(ms: seq<Note>, p: string)
    requires UniqueIds(ms)
    ensures DistinctIds(RepliesTo(ms, p))
  {
    if ms != [] {
      var n := |ms| - 1;
      var init := ms[..n];
      assert UniqueIds(init);
      RepliesToDistinct(init, p);
      RepliesToMembers(init, p);
      forall r | r in RepliesTo(init, p)
        ensures r.id != ms[n].id
      {
        var i :| 0 <= i < n && init[i] == r;
        assert ms[i] == r;
      }
    }
  }

  /** Two replies to the same message are listed in `RepliesTo` in the order
      they appear in the input. */
  lemma {:induction false} RepliesToOrder(ms: seq<Note>, p: string, i: nat, j: nat)
    requires i < j < |ms| && ms[i].inReplyTo == p && ms[j].inReplyTo == p
    ensures exists a, b :: 0 <= a < b < |RepliesTo(ms, p)| && RepliesTo(ms, p)[a] == ms[i] && RepliesTo(ms, p)[b] == ms[j]
  {
    var n := |ms| - 1;
    var init := ms[..n];
    if j == n {
      RepliesToMembers(init, p);
      assert init[i] == ms[i];
      var a :| 0 <= a < |RepliesTo(init, p)| && RepliesTo(init, p)[a] == ms[i];
      assert RepliesTo(ms, p)[a] == ms[i];
      assert RepliesTo(ms, p)[|RepliesTo(init, p)|] == ms[j];
    } else {
      assert init[i] == ms[i] && init[j] == ms[j];
      RepliesToOrder(init, p, i, j);
      var a, b :| 0 <= a < b < |RepliesTo(init, p)| && RepliesTo(init, p)[a] == ms[i] && RepliesTo(init, p)[b] == ms[j];
      assert RepliesTo(ms, p)[a] == ms[i] && RepliesTo(ms, p)[b] == ms[j];
    }
  }

  /** The index of messages with unique ids is a good index. */
  lemma GoodIndexOf(ms: seq<Note>)
    requires UniqueIds(ms)
    ensures GoodIndex(IndexOf(ms))
  {
    var ix := IndexOf(ms);
    IndexWellKeyed(ms);
    forall p | Children(ix, p) != []
      ensures p != ""
    {
      ChildrenAreReplies(ms, p);
    }
    forall p, i | 0 <= i < |Children(ix, p)|
      ensures && Children(ix, p)[i].inReplyTo == p
              && Children(ix, p)[i].id in ix.byId && ix.byId[Children(ix, p)[i].id] == Children(ix, p)[i]
    {
      ChildrenAreReplies(ms, p);
      RepliesToMembers(ms, p);
      var c := Children(ix, p)[i];
      assert c in RepliesTo(ms, p);
      ByIdIsLast(ms, c.id);
      var l :| 0 <= l < |ms| && ms[l] == c;
      SameIdSameMessage(ms, ix.byId[c.id], c);
    }
    forall p, i, j | 0 <= i < j < |Children(ix, p)|
      ensures Children(ix, p)[i].id != Children(ix, p)[j].id
    {
      ChildrenAreReplies(ms, p);
      RepliesToDistinct(ms, p);
    }
  }

  /** Each thread keeps the replies to any one message in `repliesTo` order. */
  lemma ThreadSiblingsInOrder(ms: seq<Note>, k: nat)
    requires UniqueIds(ms) && k < |ThreadsOf(ms)|
    ensures SiblingsInOrder(IndexOf(ms), ThreadsOf(ms)[k])
  {
    var ix := IndexOf(ms);
    GoodIndexOf(ms);
    ThreadsFollowRoots(ix, ms);
    var root := ms[Positions(ix, ms)[k]];
    ByIdIsLast(ms, root.id);
    SameIdSameMessage(ms, ix.byId[root.id], root);
    VisitOrdered(ix, root.id, {});
  }

  /** When ids are unique, two replies to the same message appear in a
      thread in the order they appear in the input: `repliesTo` lists them in
      input order and `dfs` walks that list from front to back. */
  lemma RepliesInInputOrder(ms: seq<Note>, k: nat)
    requires UniqueIds(ms) && k < |ThreadsOf(ms)|
    ensures var t := ThreadsOf(ms)[k];
      forall a, b, i, j ::
        (0 <= a < |t| && 0 <= b < |t| && 0 <= i < j < |ms| &&
         t[a] == ms[i] && t[b] == ms[j] && ms[i].inReplyTo == ms[j].inReplyTo) ==> a < b
  {
    var ix := IndexOf(ms);
    var t := ThreadsOf(ms)[k];
    ThreadSiblingsInOrder(ms, k);
    ThreadShapeUnique(ms, k);
    forall a, b, i, j | 0 <= a < |t| && 0 <= b < |t| && 0 <= i < j < |ms| &&
      t[a] == ms[i] && t[b] == ms[j] && ms[i].inReplyTo == ms[j].inReplyTo
      ensures a < b
    {
      var p := ms[i].inReplyTo;
      if p != "" {
        RepliesToOrder(ms, p, i, j);
        ChildrenAreReplies(ms, p);
        var x, y :| 0 <= x < y < |RepliesTo(ms, p)| && RepliesTo(ms, p)[x] == ms[i] && RepliesTo(ms, p)[y] == ms[j];
        assert Before(ix, t[a], t[b]);
      }
    }
  }

  // ---- Repeated ids ------------------------------------------------------

  /** A walk from an unvisited message without replies is that message. */
  lemma VisitLeaf(ix: Index, id: string, v: set<string>)
    requires id in ix.byId && id !in v && Children(ix, id) == []
    ensures Visit(ix, id, v).0 == [ix.byId[id]]
  {
    assert VisitAll(ix, [], v + {id}) == ([], v + {id});
  }

  /** A walk from an unvisited message with a single reply, itself without
      replies, is the message and its reply. */
  lemma VisitOneReply(ix: Index, id: string, v: set<string>)
    requires id in ix.byId && id !in v && |Children(ix, id)| == 1
    requires var c := Children(ix, id)[0].id; c in ix.byId && c !in v + {id} && Children(ix, c) == []
    ensures Visit(ix, id, v).0 == [ix.byId[id], ix.byId[Children(ix, id)[0].id]]
  {
    var rs := Children(ix, id);
    VisitLeaf(ix, rs[0].id, v + {id});
    var v1 := Visit(ix, rs[0].id, v + {id}).1;
    assert rs[1..] == [];
    assert VisitAll(ix, [], v1) == ([], v1);
  }

  /** Without unique ids the threads may share messages: with two roots
      carrying the id "x" and a reply to "x", `idMap` keeps the later root,
      so both walks start from it and both list the reply, while the
      earlier root is in no thread. */
  lemma RepeatedRootIdSharesReplies()
    ensures var a := Note("x", "Note", "", None, None, NoRecipients, "a", "");
      var b := Note("x", "Note", "", None, None, NoRecipients, "b", "");
      var r := Note("r", "Note", "x", None, None, NoRecipients, "r", "");
      ThreadsOf([a, b, r]) == [[b, r], [b, r]]
  {
    var a := Note("x", "Note", "", None, None, NoRecipients, "a", "");
    var b := Note("x", "Note", "", None, None, NoRecipients, "b", "");
    var r := Note("r", "Note", "x", None, None, NoRecipients, "r", "");
    var ms := [a, b, r];
    assert ms[..2] == [a, b] && [a, b][..1] == [a] && [a][..0] == [];
    assert IndexOf([]) == Index(map[], map[]);
    var ix0 := IndexOf([a]);
    assert ix0 == AddNote(IndexOf([]), a);
    assert ix0.byId == map["x" := a] && ix0.replies == map[];
    var ix1 := IndexOf([a, b]);
    assert ix1 == AddNote(ix0, b);
    assert ix1.byId == map["x" := b] && ix1.replies == map[];
    var ix := IndexOf(ms);
    assert ix == AddNote(ix1, r);
    assert ix.byId == map["x" := b, "r" := r];
    assert Children(ix, "x") == [r];
    assert Children(ix, "r") == [];
    assert "r" !in {"x"};
    VisitOneReply(ix, "x", {});
    assert Walk(ix, "x") == [b, r];
    assert Roots([a]) == [a];
    assert Roots([a, b]) == [a, b];
    assert Roots(ms) == [a, b];
    assert Walks(ix, [a]) == [[b, r]];
    assert Walks(ix, [a, b]) == [[b, r], [b, r]];
    assert [[b, r], [b, r]][..1] == [[b, r]];
    assert LongOnly([[b, r]]) == [[b, r]];
  }
}
