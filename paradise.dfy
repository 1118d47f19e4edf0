/** The row building of the multi-character upload in js/paradise.js:
    `cleanText`, the excluded-mention check, the author lookup, `toKST`
    without a guard, and the loop that turns the threads into spreadsheet
    records. */
module Paradise {
  import opened Common
  import opened Text
  import opened Mention
  import opened Clock
  import opened Activity
  import opened Chrono
  import opened Rows

  /** `excludeMentions`. */
  const ExcludeMentions: seq<string> :=
    ["@Limone", "@jackson", "@Kevin_Vance", "@Guinevere", "@NOTICE", "@STORY", "@Paradise"]

  /** The first row of the sheet. */
  const HeaderCells: seq<string> := ["날짜", "카테고리", "작성자", "내용"]

  /** `msg.contentMap?.ko || msg.content || ""`. */
  function RawContent(m: Note): string
  {
    if m.contentKo != "" then m.contentKo else m.content
  }

  /** `excludeMentions.some(mention => content.trim().startsWith(mention))`. */
  predicate Excluded(content: string)
  {
    exists i :: 0 <= i < |ExcludeMentions| && ExcludeMentions[i] <= Trim(content)
  }

  /** Every excluded mention is `@` and a run of characters other than white
      space. */
  lemma ExcludeMentionsAreMentions()
    ensures forall i :: 0 <= i < |ExcludeMentions| ==> |ExcludeMentions[i]| >= 2 && ExcludeMentions[i][0] == '@'
    ensures forall i, p :: 0 <= i < |ExcludeMentions| && 0 <= p < |ExcludeMentions[i]| ==> !IsWhiteSpace(ExcludeMentions[i][p])
  {
  }

  /** Content whose trimmed text does not start with `@` is never excluded. */
  lemma NotExcludedWithoutMention(content: string)
    requires Trim(content) == [] || Trim(content)[0] != '@'
    ensures !Excluded(content)
  {
    ExcludeMentionsAreMentions();
  }

  /** A message without content is not dropped: its content column is empty. */
  lemma EmptyContentKept(textContent: string -> string, m: Note)
    requires RawContent(m) == ""
    ensures ContentOf(textContent, m) == "" && !Skipped(textContent, m)
  {
    NotExcludedWithoutMention("");
  }

  /** Content that starts with a character other than white space and `@`
      is kept. */
  lemma KeptWhenPlain(content: string)
    requires content != [] && !IsWhiteSpace(content[0]) && content[0] != '@'
    ensures !Excluded(content)
  {
    assert TrimStart(content) == content;
    NotExcludedWithoutMention(content);
  }

  /** Content that starts with an excluded mention is dropped: `trim` cannot
      cut into the mention, which holds no white space. */
  lemma ExcludedWhenMentioned(content: string, i: nat)
    requires i < |ExcludeMentions| && ExcludeMentions[i] <= content
    ensures Excluded(content)
  {
    var mention := ExcludeMentions[i];
    ExcludeMentionsAreMentions();
    assert TrimStart(content) == content;
    var r := TrimEnd(content);
    assert !IsWhiteSpace(content[|mention| - 1]) by {
      assert content[|mention| - 1] == mention[|mention| - 1];
    }
    assert |mention| <= |r|;
    assert mention <= r by {
      assert r == content[..|r|];
      forall p | 0 <= p < |mention| ensures r[p] == mention[p] {
        assert r[p] == content[p];
      }
    }
  }

  /** The check runs on the content left after `cleanText` has split off the
      leading mention, so a message that only addresses an excluded account
      is kept. */
  lemma ExclusionSeesContentOnly(textContent: string -> string, html: string)
    requires html != "" && textContent(html) == "@NOTICE update"
    ensures CleanText(textContent, html) == Normalized("@NOTICE", "update")
    ensures !Excluded(CleanText(textContent, html).content)
  {
    assert textContent(html) == "@NOTICE" + " " + "update";
    SplitMentionAndLine("@NOTICE", "update");
    KeptWhenPlain("update");
  }

  /** A message whose text after the mention starts with an excluded mention
      is dropped. */
  lemma ExclusionOfSecondMention(textContent: string -> string, html: string)
    requires html != "" && textContent(html) == "@A @NOTICE"
    ensures CleanText(textContent, html) == Normalized("@A", "@NOTICE")
    ensures Excluded(CleanText(textContent, html).content)
  {
    assert textContent(html) == "@A" + " " + "@NOTICE";
    SplitMentionAndLine("@A", "@NOTICE");
    ExcludedWhenMentioned("@NOTICE", 4);
  }

  /** `idToName[msg.attributedTo?.split("/").pop()] || msg.attributedTo?.split("/").pop()`. */
  function Author(attributedTo: Option<string>, idToName: map<string, string>): (r: Option<string>)
    ensures attributedTo.None? <==> r.None?
  {
    match attributedTo
    case None => None
    case Some(a) =>
      var handle := LastSegment(a);
      if handle in idToName && idToName[handle] != "" then Some(idToName[handle]) else Some(handle)
  }

  /** `toKST(msg.published)` without a guard: a missing time is an Invalid
      Date, and formatting it throws a RangeError. */
  function ToKst(published: Option<int>): (r: Result<string>)
    ensures published.None? ==> r == Err(RangeError)
    ensures r.Err? ==> r.error == RangeError
    ensures r.Ok? ==> |r.value| == 19
  {
    match published
    case None => Err(RangeError)
    case Some(t) => KstString(t)
  }

  // ---- Records ------------------------------------------------------------

  /** A row of the sheet: the header, or `[time, category, author, content]`
      with `None` for an undefined author. */
  datatype Record = Heading(cells: seq<string>) | Entry(time: string, category: nat, author: Option<string>, content: string)

  /** The content column of a message. */
  function ContentOf(textContent: string -> string, m: Note): string
  {
    CleanText(textContent, RawContent(m)).content
  }

  /** `if (startsWithExcluded) return;` */
  predicate Skipped(textContent: string -> string, m: Note)
  {
    Excluded(ContentOf(textContent, m))
  }

  /** The step for one message: skipped when its content starts with an
      excluded mention, otherwise its row, unless `toKST` throws. */
  function StepOf(textContent: string -> string, idToName: map<string, string>, m: Note, category: nat): (s: Step<Record>)
    ensures s.Skip? <==> Skipped(textContent, m)
    ensures s.Throw? <==> !Skipped(textContent, m) && ToKst(m.published).Err?
    ensures s.Throw? ==> s.error == RangeError
    ensures s.Push? ==> s.row.Entry? && s.row.category == category
  {
    var content := ContentOf(textContent, m);
    if Excluded(content) then Skip
    else
      match ToKst(m.published)
      case Err(e) => Throw(e)
      case Ok(time) => Push(Entry(time, category, Author(m.attributedTo, idToName), content))
  }

  /** The steps for the messages of a thread, in order. */
  function Steps(textContent: string -> string, idToName: map<string, string>, ms: seq<Note>, category: nat): (r: seq<Step<Record>>)
    ensures |r| == |ms|
  {
    seq(|ms|, i requires 0 <= i < |ms| => StepOf(textContent, idToName, ms[i], category))
  }

  /** The rows of the messages `ms` of one thread, numbered `category`. */
  function ThreadEntries(textContent: string -> string, idToName: map<string, string>,
                         ms: seq<Note>, category: nat): Result<seq<Record>>
  {
    Run(Steps(textContent, idToName, ms, category))
  }

  /** The outcome of thread `k` (from 0): its messages sorted by publication
      time and numbered `k + 1`. */
  function ThreadResult(textContent: string -> string, idToName: map<string, string>,
                        threads: seq<seq<Note>>, k: nat): Result<seq<Record>>
    requires k < |threads| && Stamped(threads[k])
  {
    ThreadEntries(textContent, idToName, SortByPublished(threads[k]), k + 1)
  }

  /** The outcome of each thread. */
  function ThreadResults(textContent: string -> string, idToName: map<string, string>,
                         threads: seq<seq<Note>>): (r: seq<Result<seq<Record>>>)
    requires forall k :: 0 <= k < |threads| ==> Stamped(threads[k])
    ensures |r| == |threads|
  {
    seq(|threads|, k requires 0 <= k < |threads| => ThreadResult(textContent, idToName, threads, k))
  }

  /** The rows of the threads one after the other; the first failing thread
      abandons the rest. */
  function Chain(results: seq<Result<seq<Record>>>): Result<seq<Record>>
  {
    if results == [] then Ok([])
    else
      match Chain(results[..|results| - 1])
      case Err(e) => Err(e)
      case Ok(rows) =>
        match results[|results| - 1]
        case Err(e) => Err(e)
        case Ok(entries) => Ok(rows + entries)
  }

  /** `records` once every thread has been processed: the header, then the
      rows of the threads. */
  function Records(textContent: string -> string, idToName: map<string, string>,
                   threads: seq<seq<Note>>): Result<seq<Record>>
    requires forall k :: 0 <= k < |threads| ==> Stamped(threads[k])
  {
    match Chain(ThreadResults(textContent, idToName, threads))
    case Err(e) => Err(e)
    case Ok(rows) => Ok([Heading(HeaderCells)] + rows)
  }

  /** Each thread sorted by publication time. */
  function SortedThreads(threads: seq<seq<Note>>): (r: seq<seq<Note>>)
    requires forall k :: 0 <= k < |threads| ==> Stamped(threads[k])
    ensures |r| == |threads|
  {
    seq(|threads|, k requires 0 <= k < |threads| => SortByPublished(threads[k]))
  }

  /** The outcome of thread `k` (from 0) taken in the order it is given. */
  function ArrangedResult(textContent: string -> string, idToName: map<string, string>,
                          arranged: seq<seq<Note>>, k: nat): Result<seq<Record>>
    requires k < |arranged|
  {
    ThreadEntries(textContent, idToName, arranged[k], k + 1)
  }

  /** The outcome of each thread taken in the order it is given. */
  function ArrangedResults(textContent: string -> string, idToName: map<string, string>,
                           arranged: seq<seq<Note>>): (r: seq<Result<seq<Record>>>)
    ensures |r| == |arranged|
  {
    seq(|arranged|, k requires 0 <= k < |arranged| => ArrangedResult(textContent, idToName, arranged, k))
  }

  /** `records` for threads whose messages `thread.sort` has left in the
      order given, whatever that order is. */
  function ArrangedRecords(textContent: string -> string, idToName: map<string, string>,
                           arranged: seq<seq<Note>>): Result<seq<Record>>
  {
    match Chain(ArrangedResults(textContent, idToName, arranged))
    case Err(e) => Err(e)
    case Ok(rows) => Ok([Heading(HeaderCells)] + rows)
  }

  /** When every message carries a time, the records are those of the
      threads in publication order. */
  lemma RecordsAreArranged(textContent: string -> string, idToName: map<string, string>,
                           threads: seq<seq<Note>>)
    requires forall k :: 0 <= k < |threads| ==> Stamped(threads[k])
    ensures Records(textContent, idToName, threads) == ArrangedRecords(textContent, idToName, SortedThreads(threads))
  {
    var sorted := SortedThreads(threads);
    var a := ThreadResults(textContent, idToName, threads);
    var b := ArrangedResults(textContent, idToName, sorted);
    forall k | 0 <= k < |threads| ensures a[k] == b[k] {
      assert a[k] == ThreadResult(textContent, idToName, threads, k);
      assert b[k] == ArrangedResult(textContent, idToName, sorted, k);
      assert sorted[k] == SortByPublished(threads[k]);
    }
    assert a == b;
  }

  /** Once some first threads fail, the whole chain fails with that error. */
  lemma {:induction false} ChainErrStays(results: seq<Result<seq<Record>>>, k: nat)
    requires k <= |results| && Chain(results[..k]).Err?
    ensures Chain(results) == Chain(results[..k])
    decreases |results| - k
  {
    if k < |results| {
      assert results[..k + 1][..k] == results[..k];
      ChainErrStays(results, k + 1);
    } else {
      assert results[..k] == results;
    }
  }

  /** A thread that succeeds after threads that succeeded adds its rows. */
  lemma ChainStep(results: seq<Result<seq<Record>>>, k: nat)
    requires k < |results| && Chain(results[..k]).Ok? && results[k].Ok?
    ensures Chain(results[..k + 1]) == Ok(Chain(results[..k]).value + results[k].value)
  {
    assert results[..k + 1][..k] == results[..k];
  }

  /** A thread that fails after threads that succeeded fails the chain. */
  lemma ChainStepErr(results: seq<Result<seq<Record>>>, k: nat)
    requires k < |results| && Chain(results[..k]).Ok? && results[k].Err?
    ensures Chain(results[..k + 1]) == Err(results[k].error)
  {
    assert results[..k + 1][..k] == results[..k];
  }

  /** One message of the inner `thread.forEach` after messages that have not
      thrown. */
  lemma ThreadRowsNext(textContent: string -> string, idToName: map<string, string>,
                       thread: seq<Note>, category: nat, i: nat)
    requires i < |thread| && Run(Steps(textContent, idToName, thread, category)[..i]).Ok?
    ensures Excluded(ContentOf(textContent, thread[i])) ==>
      Run(Steps(textContent, idToName, thread, category)[..i + 1]) == Run(Steps(textContent, idToName, thread, category)[..i])
    ensures !Excluded(ContentOf(textContent, thread[i])) && ToKst(thread[i].published).Err? ==>
      ThreadEntries(textContent, idToName, thread, category) == Err(ToKst(thread[i].published).error)
    ensures !Excluded(ContentOf(textContent, thread[i])) && ToKst(thread[i].published).Ok? ==>
      Run(Steps(textContent, idToName, thread, category)[..i + 1])
      == Ok(Run(Steps(textContent, idToName, thread, category)[..i]).value
            + [Entry(ToKst(thread[i].published).value, category, Author(thread[i].attributedTo, idToName),
                     ContentOf(textContent, thread[i]))])
  {
    var steps := Steps(textContent, idToName, thread, category);
    assert steps[i] == StepOf(textContent, idToName, thread[i], category);
    RunNext(steps, i);
    if steps[i].Throw? {
      RunErrStays(steps, i + 1);
    }
  }

  /** The inner `thread.forEach`: the rows of one sorted thread, numbered
      `category`, stopping at the first `toKST` that throws. */
  method ThreadRows(textContent: string -> string, idToName: map<string, string>,
                    thread: seq<Note>, category: nat) returns (r: Result<seq<Record>>)
    ensures r == ThreadEntries(textContent, idToName, thread, category)
  {
    var rows: seq<Record> := [];
    for i := 0 to |thread|
      invariant Run(Steps(textContent, idToName, thread, category)[..i]) == Ok(rows)
    {
      var msg := thread[i];
      ThreadRowsNext(textContent, idToName, thread, category, i);
      var cleaned := CleanText(textContent, RawContent(msg));
      var content := cleaned.content;
      if !Excluded(content) {
        var time := ToKst(msg.published);
        if time.Err? {
          return Err(time.error);
        }
        rows := rows + [Entry(time.value, category, Author(msg.attributedTo, idToName), content)];
      }
    }
    assert Steps(textContent, idToName, thread, category)[..|thread|] == Steps(textContent, idToName, thread, category);
    r := Ok(rows);
  }

  /** The record loop of the upload handler: the header, then each thread
      sorted by publication time and numbered from 1. */
  method BuildRecords(textContent: string -> string, idToName: map<string, string>,
                      threads: seq<seq<Note>>) returns (r: Result<seq<Record>>)
    requires forall k :: 0 <= k < |threads| ==> Stamped(threads[k])
    ensures r == Records(textContent, idToName, threads)
  {
    ghost var results := ThreadResults(textContent, idToName, threads);
    var header := Heading(HeaderCells);
    var rows: seq<Record> := [];
    var category := 1;
    for k := 0 to |threads|
      invariant category == k + 1
      invariant Chain(results[..k]) == Ok(rows)
    {
      var thread := SortByPublished(threads[k]);
      var entries := ThreadRows(textContent, idToName, thread, category);
      assert results[k] == ThreadResult(textContent, idToName, threads, k);
      if entries.Err? {
        ChainStepErr(results, k);
        ChainErrStays(results, k + 1);
        return Err(entries.error);
      }
      ChainStep(results, k);
      rows := rows + entries.value;
      category := category + 1;
    }
    assert results[..|threads|] == results;
    r := Ok([header] + rows);
  }
}
