/** `collectThreads` of js/paradise.js: index the messages by id and by the
    id they reply to, walk depth-first from every root message, and keep the
    walks that reached at least one reply. */
module Threads {
  import opened Activity

  /** `idMap` and `repliesTo` once every message has been entered. */
  datatype Index = Index(byId: map<string, Note>, replies: map<string, seq<Note>>)

  /** `repliesTo[id] || []`. */
  function Children(ix: Index, id: string): seq<Note>
  {
    if id in ix.replies then ix.replies[id] else []
  }

  /** One step of `messages.forEach`: `idMap[msg.id] = msg`, and for a reply,
      append it to the list of its parent. */
  function AddNote(ix: Index, m: Note): (r: Index)
    ensures r.byId == ix.byId[m.id := m]
    ensures forall p :: p != m.inReplyTo || IsRoot(m) ==> Children(r, p) == Children(ix, p)
    ensures !IsRoot(m) ==> Children(r, m.inReplyTo) == Children(ix, m.inReplyTo) + [m]
  {
    var byId := ix.byId[m.id := m];
    if IsRoot(m) then Index(byId, ix.replies)
    else Index(byId, ix.replies[m.inReplyTo := Children(ix, m.inReplyTo) + [m]])
  }

  /** The index after entering `ms` in order. */
  function IndexOf(ms: seq<Note>): Index
  {
    if ms == [] then Index(map[], map[])
    else AddNote(IndexOf(ms[..|ms| - 1]), ms[|ms| - 1])
  }

  /** `dfs(id, visited)` as a value: the thread it returns and the visited set
      it leaves behind. An id is marked visited before it is looked up, so a
      missing id is marked too; replies are walked in the order they were
      entered, each with the visited set the previous one left. */
  function Visit(ix: Index, id: string, visited: set<string>): (r: (seq<Note>, set<string>))
    ensures visited <= r.1
    decreases ix.byId.Keys - visited, 0
  {
    if id in visited then ([], visited)
    else if id !in ix.byId then ([], visited + {id})
    else
      var (t, v) := VisitAll(ix, Children(ix, id), visited + {id});
      ([ix.byId[id]] + t, v)
  }

  /** `replies.forEach(reply => thread = thread.concat(dfs(reply.id, visited)))`,
      without the leading message. */
  function VisitAll(ix: Index, rs: seq<Note>, visited: set<string>): (r: (seq<Note>, set<string>))
    ensures visited <= r.1
    decreases ix.byId.Keys - visited, 1, |rs|
  {
    if rs == [] then ([], visited)
    else
      var (t1, v1) := Visit(ix, rs[0].id, visited);
      var (t2, v2) := VisitAll(ix, rs[1..], v1);
      (t1 + t2, v2)
  }

  /** `dfs(id)` with a fresh visited set. */
  function Walk(ix: Index, id: string): seq<Note>
  {
    Visit(ix, id, {}).0
  }

  /** `messages.filter(m => !m.inReplyTo)`. */
  function Roots(ms: seq<Note>): (r: seq<Note>)
    ensures forall m :: m in r ==> m in ms && IsRoot(m)
  {
    if ms == [] then []
    else Roots(ms[..|ms| - 1]) + if IsRoot(ms[|ms| - 1]) then [ms[|ms| - 1]] else []
  }

  /** `.map(m => dfs(m.id))`. */
  function Walks(ix: Index, roots: seq<Note>): (r: seq<seq<Note>>)
    ensures |r| == |roots|
  {
    if roots == [] then []
    else Walks(ix, roots[..|roots| - 1]) + [Walk(ix, roots[|roots| - 1].id)]
  }

  /** `.filter(t => t.length > 1)`. */
  function LongOnly(ts: seq<seq<Note>>): (r: seq<seq<Note>>)
    ensures forall t :: t in r ==> t in ts && |t| > 1
  {
    if ts == [] then []
    else LongOnly(ts[..|ts| - 1]) + if |ts[|ts| - 1]| > 1 then [ts[|ts| - 1]] else []
  }

  /** `collectThreads(messages)`. */
  function ThreadsOf(ms: seq<Note>): seq<seq<Note>>
  {
    LongOnly(Walks(IndexOf(ms), Roots(ms)))
  }

  /** The recursion of `dfs` with the `visited` set it shares between the
      calls of one walk. */
  class Traversal {
    const index: Index
    var visited: set<string>

    constructor (ix: Index)
      ensures index == ix && visited == {}
    {
      index := ix;
      visited := {};
    }

    /** `dfs(id, visited)`. */
    method Dfs(id: string) returns (thread: seq<Note>)
      modifies this
      decreases index.byId.Keys - visited, 0
      ensures (thread, visited) == Visit(index, id, old(visited))
    {
      if id in visited {
        return [];
      }
      visited := visited + {id};
      if id !in index.byId {
        return [];
      }
      var msg := index.byId[id];
      thread := [msg];
      var replies := Children(index, id);
      ghost var start := visited;
      for i := 0 to |replies|
        invariant old(visited) + {id} <= visited
        invariant thread + VisitAll(index, replies[i..], visited).0 == [msg] + VisitAll(index, replies, start).0
        invariant VisitAll(index, replies[i..], visited).1 == VisitAll(index, replies, start).1
      {
        assert replies[i..][1..] == replies[i + 1..];
        var sub := Dfs(replies[i].id);
        thread := thread + sub;
      }
      assert replies[|replies|..] == [];
      assert VisitAll(index, [], visited) == ([], visited);
      assert thread == [msg] + VisitAll(index, replies, start).0;
      assert visited == VisitAll(index, replies, start).1;
      assert Visit(index, id, old(visited)) == ([msg] + VisitAll(index, replies, start).0, VisitAll(index, replies, start).1);
    }
  }

  /** The walk from `m` as a list of threads: kept when `m` is a root and the
      walk holds more than `m` alone. */
  function LongWalk(ix: Index, m: Note): seq<seq<Note>>
  {
    if IsRoot(m) && |Walk(ix, m.id)| > 1 then [Walk(ix, m.id)] else []
  }

  /** Appending a message to the input extends the threads by the walk from
      that message when it is a root whose walk is longer than one. */
  lemma ThreadsAppend(ix: Index, ms: seq<Note>, m: Note)
    ensures LongOnly(Walks(ix, Roots(ms + [m]))) == LongOnly(Walks(ix, Roots(ms))) + LongWalk(ix, m)
  {
    assert (ms + [m])[..|ms|] == ms;
    var roots := Roots(ms + [m]);
    if IsRoot(m) {
      assert roots == Roots(ms) + [m];
      assert roots[..|roots| - 1] == Roots(ms);
      var walks := Walks(ix, roots);
      assert walks[..|walks| - 1] == Walks(ix, Roots(ms));
    } else {
      assert roots == Roots(ms);
    }
  }

  /** The same for one more message of the input. */
  lemma ThreadsStep(ix: Index, ms: seq<Note>, i: nat)
    requires i < |ms|
    ensures LongOnly(Walks(ix, Roots(ms[..i + 1]))) == LongOnly(Walks(ix, Roots(ms[..i]))) + LongWalk(ix, ms[i])
  {
    assert ms[..i + 1] == ms[..i] + [ms[i]];
    ThreadsAppend(ix, ms[..i], ms[i]);
  }

  /** `dfs(m.id)`: a walk with a visited set of its own. */
  method WalkFrom(index: Index, id: string) returns (thread: seq<Note>)
    ensures thread == Walk(index, id)
  {
    var walk := new Traversal(index);
    thread := walk.Dfs(id);
  }

  /** `messages.forEach(msg => { idMap[msg.id] = msg; ... })`. */
  method BuildIndex(messages: seq<Note>) returns (index: Index)
    ensures index == IndexOf(messages)
  {
    var idMap: map<string, Note> := map[];
    var repliesTo: map<string, seq<Note>> := map[];
    for i := 0 to |messages|
      invariant Index(idMap, repliesTo) == IndexOf(messages[..i])
    {
      assert messages[..i + 1][..i] == messages[..i];
      var msg := messages[i];
      idMap := idMap[msg.id := msg];
      if msg.inReplyTo != "" {
        if msg.inReplyTo !in repliesTo {
          repliesTo := repliesTo[msg.inReplyTo := []];
        }
        repliesTo := repliesTo[msg.inReplyTo := repliesTo[msg.inReplyTo] + [msg]];
      }
    }
    assert messages[..|messages|] == messages;
    index := Index(idMap, repliesTo);
  }

  /** `collectThreads(messages)`: enter every message, then walk from each
      root with a visited set of its own and keep the walks longer than one. */
  method CollectThreads(messages: seq<Note>) returns (threads: seq<seq<Note>>)
    ensures threads == ThreadsOf(messages)
  {
    var index := BuildIndex(messages);
    threads := [];
    for i := 0 to |messages|
      invariant threads == LongOnly(Walks(index, Roots(messages[..i])))
    {
      var m := messages[i];
      var found: seq<seq<Note>> := [];
      if IsRoot(m) {
        var thread := WalkFrom(index, m.id);
        if |thread| > 1 {
          found := [thread];
        }
      }
      ThreadsStep(index, messages, i);
      threads := threads + found;
    }
    assert messages[..|messages|] == messages;
  }
}
