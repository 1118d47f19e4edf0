/** What the records built by js/paradise.js amount to: which messages become
    rows and in which order, which category each row carries, which author,
    and when the whole upload fails. */
module ParadiseFacts {
  import opened Common
  import opened Text
  import opened Clock
  import opened Activity
  import opened Chrono
  import opened Rows
  import opened Paradise

  // ---- One thread ---------------------------------------------------------

  /** The row of a message whose time formats. */
  function EntryOf(textContent: string -> string, idToName: map<string, string>, m: Note, category: nat): Record
    requires ToKst(m.published).Ok?
  {
    Entry(ToKst(m.published).value, category, Author(m.attributedTo, idToName), ContentOf(textContent, m))
  }

  /** A message that is not skipped and whose time formats pushes its row. */
  lemma StepOfPush(textContent: string -> string, idToName: map<string, string>, m: Note, category: nat)
    requires StepOf(textContent, idToName, m, category).Push?
    ensures ToKst(m.published).Ok?
    ensures StepOf(textContent, idToName, m, category).row == EntryOf(textContent, idToName, m, category)
  {
  }

  /** A thread fails, always with a RangeError, exactly when a message that is
      not skipped has no time that formats. */
  lemma ThreadOutcome(textContent: string -> string, idToName: map<string, string>,
                      ms: seq<Note>, category: nat)
    ensures ThreadEntries(textContent, idToName, ms, category).Ok? <==>
      forall i :: 0 <= i < |ms| && !Skipped(textContent, ms[i]) ==> ToKst(ms[i].published).Ok?
    ensures ThreadEntries(textContent, idToName, ms, category).Err? ==>
      ThreadEntries(textContent, idToName, ms, category).error == RangeError
  {
    var steps := Steps(textContent, idToName, ms, category);
    RunSpec(steps);
    assert forall i :: 0 <= i < |ms| ==> steps[i] == StepOf(textContent, idToName, ms[i], category);
    if Run(steps).Err? {
      var j :| FirstThrow(steps, j) && Run(steps).error == steps[j].error;
    }
  }

  /** The row pushed `j`-th: that of a message that is not skipped. */
  lemma PushedEntryAt(textContent: string -> string, idToName: map<string, string>,
                      ms: seq<Note>, category: nat, ix: seq<nat>, j: nat)
    requires ix == PushIndices(Steps(textContent, idToName, ms, category)) && j < |ix|
    ensures ix[j] < |ms| && !Skipped(textContent, ms[ix[j]]) && ToKst(ms[ix[j]].published).Ok?
    ensures Pushed(Steps(textContent, idToName, ms, category))[j] == EntryOf(textContent, idToName, ms[ix[j]], category)
  {
    var steps := Steps(textContent, idToName, ms, category);
    PushIndicesRows(steps);
    var i := ix[j];
    assert steps[i] == StepOf(textContent, idToName, ms[i], category);
    StepOfPush(textContent, idToName, ms[i], category);
  }

  /** When the thread succeeds, every message that is not skipped pushes a
      row. */
  lemma KeptListed(textContent: string -> string, idToName: map<string, string>,
                   ms: seq<Note>, category: nat, ix: seq<nat>)
    requires Run(Steps(textContent, idToName, ms, category)).Ok?
    requires ix == PushIndices(Steps(textContent, idToName, ms, category))
    ensures forall i :: 0 <= i < |ms| && !Skipped(textContent, ms[i]) ==> i in ix
  {
    var steps := Steps(textContent, idToName, ms, category);
    RunOk(steps);
    PushIndicesComplete(steps);
    forall i | 0 <= i < |ms| && !Skipped(textContent, ms[i])
      ensures i in ix
    {
      assert steps[i] == StepOf(textContent, idToName, ms[i], category);
    }
  }

  /** The rows of a thread that succeeds come from the messages that are not
      skipped, every one of them, in their order, each turned into its row
      with the thread's category. */
  lemma ThreadEntriesSpec(textContent: string -> string, idToName: map<string, string>,
                          ms: seq<Note>, category: nat, rows: seq<Record>, ix: seq<nat>)
    requires ThreadEntries(textContent, idToName, ms, category) == Ok(rows)
    requires ix == PushIndices(Steps(textContent, idToName, ms, category))
    ensures |ix| == |rows|
    ensures forall j :: 0 <= j < |rows| ==>
      && ix[j] < |ms| && !Skipped(textContent, ms[ix[j]]) && ToKst(ms[ix[j]].published).Ok?
      && rows[j] == EntryOf(textContent, idToName, ms[ix[j]], category)
    ensures forall j, j' :: 0 <= j < j' < |ix| ==> ix[j] < ix[j']
    ensures forall i :: 0 <= i < |ms| && !Skipped(textContent, ms[i]) ==> i in ix
  {
    RunOk(Steps(textContent, idToName, ms, category));
    KeptListed(textContent, idToName, ms, category, ix);
    PushIndicesAscending(Steps(textContent, idToName, ms, category));
    forall j | 0 <= j < |rows|
      ensures ix[j] < |ms| && !Skipped(textContent, ms[ix[j]]) && ToKst(ms[ix[j]].published).Ok?
      ensures rows[j] == EntryOf(textContent, idToName, ms[ix[j]], category)
    {
      PushedEntryAt(textContent, idToName, ms, category, ix, j);
    }
  }

  /** The rows of a thread follow its messages sorted by publication time:
      a row never comes from a message published later than the message of a
      row below it. */
  lemma ThreadInTimeOrder(textContent: string -> string, idToName: map<string, string>,
                          thread: seq<Note>, category: nat, sorted: seq<Note>, ix: seq<nat>)
    requires Stamped(thread) && sorted == SortByPublished(thread)
    requires ix == PushIndices(Steps(textContent, idToName, sorted, category))
    ensures forall j, j' :: 0 <= j < j' < |ix| ==>
      ix[j] < ix[j'] < |sorted| && Key(sorted[ix[j]]) <= Key(sorted[ix[j']])
  {
    SortByPublishedSpec(thread);
    PushIndicesAscending(Steps(textContent, idToName, sorted, category));
  }

  // ---- All threads --------------------------------------------------------

  /** `k` is the first thread that fails. */
  predicate FirstErr(results: seq<Result<seq<Record>>>, k: int)
  {
    0 <= k < |results| && results[k].Err? && forall i :: 0 <= i < k ==> results[i].Ok?
  }

  /** The chain succeeds exactly when every thread does; otherwise it fails
      with the error of the first thread that fails. */
  lemma {:induction false} ChainSpec(results: seq<Result<seq<Record>>>)
    ensures Chain(results).Ok? <==> forall k :: 0 <= k < |results| ==> results[k].Ok?
    ensures Chain(results).Err? ==> exists k :: FirstErr(results, k) && Chain(results).error == results[k].error
  {
    if results != [] {
      var n := |results| - 1;
      var init := results[..n];
      ChainSpec(init);
      if Chain(init).Err? {
        var k :| FirstErr(init, k) && Chain(init).error == init[k].error;
        assert FirstErr(results, k);
      } else if results[n].Err? {
        assert FirstErr(results, n);
      }
    }
  }

  /** The entries numbered `c`, in order. */
  function WithCategory(rows: seq<Record>, c: nat): (r: seq<Record>)
    ensures |r| <= |rows|
  {
    if rows == [] then []
    else
      var last := rows[|rows| - 1];
      WithCategory(rows[..|rows| - 1], c) + if last.Entry? && last.category == c then [last] else []
  }

  lemma {:induction false} WithCategoryConcat(a: seq<Record>, b: seq<Record>, c: nat)
    ensures WithCategory(a + b, c) == WithCategory(a, c) + WithCategory(b, c)
  {
    if b != [] {
      var n := |b| - 1;
      WithCategoryConcat(a, b[..n], c);
      assert (a + b)[..|a + b| - 1] == a + b[..n];
      var tail := if b[n].Entry? && b[n].category == c then [b[n]] else [];
      assert WithCategory(a + b, c) == WithCategory(a + b[..n], c) + tail;
      assert WithCategory(b, c) == WithCategory(b[..n], c) + tail;
    } else {
      assert a + b == a;
    }
  }

  lemma {:induction false} WithCategoryAll(rows: seq<Record>, c: nat)
    requires forall i :: 0 <= i < |rows| ==> rows[i].Entry? && rows[i].category == c
    ensures WithCategory(rows, c) == rows
  {
    if rows != [] {
      var n := |rows| - 1;
      WithCategoryAll(rows[..n], c);
      assert rows[..n] + [rows[n]] == rows;
    }
  }

  lemma {:induction false} WithCategoryNone(rows: seq<Record>, c: nat)
    requires forall i :: 0 <= i < |rows| ==> !rows[i].Entry? || rows[i].category != c
    ensures WithCategory(rows, c) == []
  {
    if rows != [] {
      WithCategoryNone(rows[..|rows| - 1], c);
    }
  }

  /** Every row of thread `k` (from 0) is an entry numbered `k + 1`. */
  predicate Numbered(results: seq<Result<seq<Record>>>)
  {
    forall k, i :: 0 <= k < |results| && results[k].Ok? && 0 <= i < |results[k].value| ==>
      results[k].value[i].Entry? && results[k].value[i].category == k + 1
  }

  /** The threads before the last of numbered threads are numbered. */
  lemma NumberedInit(results: seq<Result<seq<Record>>>)
    requires Numbered(results) && results != []
    ensures Numbered(results[..|results| - 1])
  {
    var init := results[..|results| - 1];
    forall k, i | 0 <= k < |init| && init[k].Ok? && 0 <= i < |init[k].value|
      ensures init[k].value[i].Entry? && init[k].value[i].category == k + 1
    {
      assert init[k] == results[k];
    }
  }

  /** Chaining numbered threads: every row carries the number of a thread,
      and the numbers never go down. */
  lemma {:induction false} ChainNumberedRows(results: seq<Result<seq<Record>>>, rows: seq<Record>)
    requires Numbered(results) && Chain(results) == Ok(rows)
    ensures forall i :: 0 <= i < |rows| ==> rows[i].Entry? && 1 <= rows[i].category <= |results|
    ensures forall i, j :: 0 <= i < j < |rows| ==> rows[i].category <= rows[j].category
  {
    if results != [] {
      var n := |results| - 1;
      var init := results[..n];
      NumberedInit(results);
      var done := Chain(init).value;
      ChainNumberedRows(init, done);
      var last := results[n].value;
      assert rows == done + last;
      assert forall i :: 0 <= i < |last| ==> last[i].Entry? && last[i].category == n + 1;
      forall i | 0 <= i < |rows|
        ensures rows[i].Entry? && 1 <= rows[i].category <= |results|
      {
        if i < |done| {
          assert rows[i] == done[i];
        } else {
          assert rows[i] == last[i - |done|];
        }
      }
      forall i, j | 0 <= i < j < |rows|
        ensures rows[i].category <= rows[j].category
      {
        if j < |done| {
          assert rows[i] == done[i] && rows[j] == done[j];
        } else if i < |done| {
          assert rows[i] == done[i] && rows[j] == last[j - |done|];
        } else {
          assert rows[i] == last[i - |done|] && rows[j] == last[j - |done|];
        }
      }
    }
  }

  /** Appending rows all numbered `c` to rows numbered otherwise: the rows
      numbered `c` are the appended ones. */
  lemma WithCategoryOfLast(done: seq<Record>, last: seq<Record>, c: nat)
    requires forall i :: 0 <= i < |done| ==> !done[i].Entry? || done[i].category != c
    requires forall i :: 0 <= i < |last| ==> last[i].Entry? && last[i].category == c
    ensures WithCategory(done + last, c) == last
  {
    WithCategoryAll(last, c);
    WithCategoryNone(done, c);
    WithCategoryConcat(done, last, c);
    assert [] + last == last;
  }

  /** Appending rows numbered otherwise leaves the rows numbered `c` alone. */
  lemma WithCategoryOfEarlier(done: seq<Record>, last: seq<Record>, c: nat)
    requires forall i :: 0 <= i < |last| ==> !last[i].Entry? || last[i].category != c
    ensures WithCategory(done + last, c) == WithCategory(done, c)
  {
    WithCategoryNone(last, c);
    WithCategoryConcat(done, last, c);
    assert WithCategory(done, c) + [] == WithCategory(done, c);
  }

  /** Chaining numbered threads: the rows numbered `k + 1` are exactly those
      of thread `k`, whatever the threads before it produced. */
  lemma {:induction false} ChainNumberedBlocks(results: seq<Result<seq<Record>>>, rows: seq<Record>)
    requires Numbered(results) && Chain(results) == Ok(rows)
    ensures forall k :: 0 <= k < |results| ==> results[k] == Ok(WithCategory(rows, k + 1))
  {
    if results != [] {
      var n := |results| - 1;
      var init := results[..n];
      NumberedInit(results);
      var done := Chain(init).value;
      ChainNumberedBlocks(init, done);
      ChainNumberedRows(init, done);
      var last := results[n].value;
      assert rows == done + last;
      assert forall i :: 0 <= i < |last| ==> last[i].Entry? && last[i].category == n + 1;
      forall k | 0 <= k < |results|
        ensures results[k] == Ok(WithCategory(rows, k + 1))
      {
        if k < n {
          assert init[k] == results[k];
          WithCategoryOfEarlier(done, last, k + 1);
          assert WithCategory(rows, k + 1) == WithCategory(done, k + 1);
        } else {
          WithCategoryOfLast(done, last, n + 1);
          assert k == n;
          assert WithCategory(rows, k + 1) == last;
          assert results[k] == Ok(last);
        }
      }
    }
  }

  /** Thread `k` (from 0) is numbered `k + 1` and can fail only with a
      RangeError. */
  lemma ThreadResultNumbered(textContent: string -> string, idToName: map<string, string>,
                             threads: seq<seq<Note>>, k: nat)
    requires k < |threads| && Stamped(threads[k])
    ensures ThreadResult(textContent, idToName, threads, k).Ok? ==>
      forall i :: 0 <= i < |ThreadResult(textContent, idToName, threads, k).value| ==>
        ThreadResult(textContent, idToName, threads, k).value[i].Entry? &&
        ThreadResult(textContent, idToName, threads, k).value[i].category == k + 1
    ensures ThreadResult(textContent, idToName, threads, k).Err? ==>
      ThreadResult(textContent, idToName, threads, k).error == RangeError
  {
    ThreadNumbered(textContent, idToName, SortByPublished(threads[k]), k + 1);
  }

  /** Every thread is numbered by its position and can fail only with a
      RangeError. */
  lemma ThreadResultsFacts(textContent: string -> string, idToName: map<string, string>, threads: seq<seq<Note>>)
    requires forall k :: 0 <= k < |threads| ==> Stamped(threads[k])
    ensures Numbered(ThreadResults(textContent, idToName, threads))
    ensures forall k :: 0 <= k < |threads| && ThreadResults(textContent, idToName, threads)[k].Err? ==>
      ThreadResults(textContent, idToName, threads)[k].error == RangeError
  {
    forall k | 0 <= k < |threads|
      ensures ThreadResults(textContent, idToName, threads)[k].Ok? ==>
        forall i :: 0 <= i < |ThreadResults(textContent, idToName, threads)[k].value| ==>
          ThreadResults(textContent, idToName, threads)[k].value[i].Entry? &&
          ThreadResults(textContent, idToName, threads)[k].value[i].category == k + 1
      ensures ThreadResults(textContent, idToName, threads)[k].Err? ==>
        ThreadResults(textContent, idToName, threads)[k].error == RangeError
    {
      assert ThreadResults(textContent, idToName, threads)[k] == ThreadResult(textContent, idToName, threads, k);
      ThreadResultNumbered(textContent, idToName, threads, k);
    }
  }

  /** The rows of a thread all carry its category, and it can fail only with
      a RangeError. */
  lemma ThreadNumbered(textContent: string -> string, idToName: map<string, string>, ms: seq<Note>, category: nat)
    ensures ThreadEntries(textContent, idToName, ms, category).Ok? ==>
      forall i :: 0 <= i < |ThreadEntries(textContent, idToName, ms, category).value| ==>
        ThreadEntries(textContent, idToName, ms, category).value[i].Entry? &&
        ThreadEntries(textContent, idToName, ms, category).value[i].category == category
    ensures ThreadEntries(textContent, idToName, ms, category).Err? ==>
      ThreadEntries(textContent, idToName, ms, category).error == RangeError
  {
    ThreadOutcome(textContent, idToName, ms, category);
    var r := ThreadEntries(textContent, idToName, ms, category);
    if r.Ok? {
      ThreadEntriesSpec(textContent, idToName, ms, category, r.value, PushIndices(Steps(textContent, idToName, ms, category)));
    }
  }

  /** The upload's rows fail, with a RangeError, exactly when one thread
      fails. */
  lemma BlocksOutcome(textContent: string -> string, idToName: map<string, string>, threads: seq<seq<Note>>)
    requires forall k :: 0 <= k < |threads| ==> Stamped(threads[k])
    ensures Chain(ThreadResults(textContent, idToName, threads)).Ok? <==>
      forall k :: 0 <= k < |threads| ==> ThreadResults(textContent, idToName, threads)[k].Ok?
    ensures Chain(ThreadResults(textContent, idToName, threads)).Err? ==>
      Chain(ThreadResults(textContent, idToName, threads)).error == RangeError
  {
    var results := ThreadResults(textContent, idToName, threads);
    ThreadResultsFacts(textContent, idToName, threads);
    ChainSpec(results);
  }

  /** The rows after the header are the threads' rows one thread after the
      other: thread `k` (from 0) always gets the number `k + 1`, whether or
      not an earlier thread produced any row, its rows are exactly those
      numbered `k + 1`, and the numbers never go down. */
  lemma BlocksSpec(textContent: string -> string, idToName: map<string, string>, threads: seq<seq<Note>>,
                   rows: seq<Record>)
    requires forall k :: 0 <= k < |threads| ==> Stamped(threads[k])
    requires Chain(ThreadResults(textContent, idToName, threads)) == Ok(rows)
    ensures forall i :: 0 <= i < |rows| ==> rows[i].Entry? && 1 <= rows[i].category <= |threads|
    ensures forall i, j :: 0 <= i < j < |rows| ==> rows[i].category <= rows[j].category
    ensures forall k :: 0 <= k < |threads| ==> ThreadResults(textContent, idToName, threads)[k] == Ok(WithCategory(rows, k + 1))
  {
    var results := ThreadResults(textContent, idToName, threads);
    ThreadResultsFacts(textContent, idToName, threads);
    ChainNumberedRows(results, rows);
    ChainNumberedBlocks(results, rows);
  }

  /** The upload fails exactly when the rows do, with a RangeError. */
  lemma RecordsOutcome(textContent: string -> string, idToName: map<string, string>, threads: seq<seq<Note>>)
    requires forall k :: 0 <= k < |threads| ==> Stamped(threads[k])
    ensures Records(textContent, idToName, threads).Ok? <==> Chain(ThreadResults(textContent, idToName, threads)).Ok?
    ensures Records(textContent, idToName, threads).Err? ==> Records(textContent, idToName, threads).error == RangeError
  {
    BlocksOutcome(textContent, idToName, threads);
  }

  /** The upload writes the header first and then the rows of the threads,
      which are all entries. */
  lemma RecordsShape(textContent: string -> string, idToName: map<string, string>, threads: seq<seq<Note>>,
                     records: seq<Record>)
    requires forall k :: 0 <= k < |threads| ==> Stamped(threads[k])
    requires Records(textContent, idToName, threads) == Ok(records)
    ensures |records| >= 1 && records[0] == Heading(HeaderCells)
    ensures Chain(ThreadResults(textContent, idToName, threads)) == Ok(records[1..])
    ensures forall i :: 1 <= i < |records| ==> records[i].Entry?
  {
    var rows := Chain(ThreadResults(textContent, idToName, threads)).value;
    assert records == [Heading(HeaderCells)] + rows;
    assert records[1..] == rows;
    BlocksSpec(textContent, idToName, threads, rows);
    forall i | 1 <= i < |records|
      ensures records[i].Entry?
    {
      assert records[i] == rows[i - 1];
    }
  }

  // ---- Columns ------------------------------------------------------------

  /** The first six entries of the table have plain handles and names. */
  lemma FirstCharactersAreHandles()
    ensures forall i :: 0 <= i < 6 ==> '/' !in Characters[i].id && Characters[i].name != ""
  {
  }

  /** The next six entries of the table have plain handles and names. */
  lemma MiddleCharactersAreHandles()
    ensures forall i :: 6 <= i < 12 ==> '/' !in Characters[i].id && Characters[i].name != ""
  {
  }

  /** The last entries of the table have plain handles and names. */
  lemma LastCharactersAreHandles()
    ensures forall i :: 12 <= i < |Characters| ==> '/' !in Characters[i].id && Characters[i].name != ""
  {
  }

  /** Every character's id is a plain handle and every name is non-empty. */
  lemma CharactersAreHandles()
    ensures forall i :: 0 <= i < |Characters| ==> '/' !in Characters[i].id && Characters[i].name != ""
  {
    FirstCharactersAreHandles();
    MiddleCharactersAreHandles();
    LastCharactersAreHandles();
  }

  /** A message from the account of a character, on any server, is written
      under that character's name. */
  lemma AuthorOfCharacter(server: string, c: Character)
    requires c in Characters
    ensures Author(Some(server + "/" + c.id), NameTable(Characters)) == Some(c.name)
  {
    IdToNameInverts();
    CharactersAreHandles();
    LastSegmentOfName(server, c.id);
  }

  /** A message from any other account is written under its handle, the
      last path segment of its address. */
  lemma AuthorOfStranger(server: string, handle: string)
    requires '/' !in handle
    requires forall c :: c in Characters ==> c.id != handle
    ensures Author(Some(server + "/" + handle), NameTable(Characters)) == Some(handle)
  {
    LastSegmentOfName(server, handle);
  }

  /** The time column, read back as a wall clock, is the publication time
      nine hours later, cut to the second. */
  lemma TimeColumnReadsBack(t: int)
    requires -MaxTimeValue <= t <= MaxTimeValue && -MaxTimeValue <= t + KstOffset <= MaxTimeValue
    requires 0 <= FromTimeValue(t + KstOffset).date.year <= 9999
    ensures ToKst(Some(t)).Ok?
    ensures ReadWallClock(ToKst(Some(t)).value) == Some(FloorToSecond(t + KstOffset))
  {
    KstReadsBack(t);
  }

  /** A thread with a kept message without a time fails. */
  lemma UndatedKeptThreadFails(textContent: string -> string, idToName: map<string, string>,
                               ms: seq<Note>, category: nat, i: nat)
    requires i < |ms| && ms[i].published.None? && !Skipped(textContent, ms[i])
    ensures ThreadEntries(textContent, idToName, ms, category) == Err(RangeError)
  {
    ThreadOutcome(textContent, idToName, ms, category);
  }

  /** A thread can fail only with a RangeError. */
  lemma ThreadFailsInRange(textContent: string -> string, idToName: map<string, string>,
                           ms: seq<Note>, category: nat)
    ensures ThreadEntries(textContent, idToName, ms, category).Err? ==>
      ThreadEntries(textContent, idToName, ms, category).error == RangeError
  {
    ThreadOutcome(textContent, idToName, ms, category);
  }

  /** A chain in which some thread fails and every failure is a RangeError
      fails with a RangeError. */
  lemma ChainFailsInRange(results: seq<Result<seq<Record>>>, k: nat)
    requires k < |results| && results[k].Err?
    requires forall l :: 0 <= l < |results| && results[l].Err? ==> results[l].error == RangeError
    ensures Chain(results) == Err(RangeError)
  {
    ChainSpec(results);
  }

  /** Every thread, in any order, can fail only with a RangeError. */
  lemma ArrangedFailInRange(textContent: string -> string, idToName: map<string, string>,
                            arranged: seq<seq<Note>>)
    ensures forall l :: 0 <= l < |arranged| && ArrangedResults(textContent, idToName, arranged)[l].Err? ==>
      ArrangedResults(textContent, idToName, arranged)[l].error == RangeError
  {
    var results := ArrangedResults(textContent, idToName, arranged);
    forall l | 0 <= l < |results| && results[l].Err?
      ensures results[l].error == RangeError
    {
      assert results[l] == ArrangedResult(textContent, idToName, arranged, l);
      ArrangedResultInRange(textContent, idToName, arranged, l);
    }
  }

  lemma ArrangedResultInRange(textContent: string -> string, idToName: map<string, string>,
                              arranged: seq<seq<Note>>, l: nat)
    requires l < |arranged|
    ensures ArrangedResult(textContent, idToName, arranged, l).Err? ==>
      ArrangedResult(textContent, idToName, arranged, l).error == RangeError
  {
    ThreadFailsInRange(textContent, idToName, arranged[l], l + 1);
  }

  /** A kept message without a time makes the upload throw a RangeError,
      in whatever order the sort leaves the messages of each thread: its
      `toKST` throws once the loop reaches it, and every other thread can
      only fail with a RangeError too. */
  lemma UndatedKeptFails(textContent: string -> string, idToName: map<string, string>,
                         threads: seq<seq<Note>>, arranged: seq<seq<Note>>, k: nat, m: Note)
    requires |arranged| == |threads|
    requires forall l :: 0 <= l < |threads| ==> multiset(arranged[l]) == multiset(threads[l])
    requires k < |threads| && m in threads[k] && m.published.None? && !Skipped(textContent, m)
    ensures ArrangedRecords(textContent, idToName, arranged) == Err(RangeError)
  {
    var results := ArrangedResults(textContent, idToName, arranged);
    var thread := arranged[k];
    assert m in multiset(thread) by {
      assert multiset(thread) == multiset(threads[k]);
    }
    var i :| 0 <= i < |thread| && thread[i] == m;
    assert results[k] == ArrangedResult(textContent, idToName, arranged, k);
    UndatedKeptThreadFails(textContent, idToName, thread, k + 1, i);
    ArrangedFailInRange(textContent, idToName, arranged);
    ChainFailsInRange(results, k);
  }
}
