/** The single-file upload of js/main.js: every item of one archive whose
    object has Korean content becomes a row `[time, target, content]`. */
module MainUpload {
  import opened Common
  import opened Mention
  import opened Clock
  import opened Activity
  import opened Rows

  /** The first row of the sheet. */
  const HeaderCells: seq<string> := ["날짜", "대상", "내용"]

  /** `toKST(utcString)` of js/main.js: an absent or empty time gives the
      empty string; an Invalid Date makes `toISOString` throw. */
  function ToKst(published: Option<int>): (r: Result<string>)
    ensures published.None? ==> r == Ok("")
    ensures r.Err? ==> r.error == RangeError
    ensures published.Some? && r.Ok? ==> |r.value| == 19
  {
    match published
    case None => Ok("")
    case Some(t) => KstString(t)
  }

  /** A parsed archive: `raw["orderedItems"]`, `None` when the field is
      missing. */
  datatype Archive = Archive(orderedItems: Option<seq<Item>>)

  /** A row of the sheet: the header, or `[time, target, content]`. */
  datatype Record = Heading(cells: seq<string>) | Entry(time: string, target: string, content: string)

  /** `obj?.contentMap?.ko || ""`, with `item["object"] || {}`. */
  function KoContent(item: Item): string
  {
    if item.obj.Some? then item.obj.value.contentKo else ""
  }

  /** `obj?.published || ""`. */
  function PublishedOf(item: Item): Option<int>
  {
    if item.obj.Some? then item.obj.value.published else None
  }

  /** What the body of `orderedItems.forEach` does with one item. */
  function StepOf(textContent: string -> string, item: Item): (s: Step<Record>)
    ensures s.Skip? <==> KoContent(item) == ""
    ensures s.Throw? <==> KoContent(item) != "" && ToKst(PublishedOf(item)).Err?
    ensures s.Throw? ==> s.error == RangeError
  {
    var content := KoContent(item);
    if content == "" then Skip
    else
      var parsed := CleanText(textContent, content);
      match ToKst(PublishedOf(item))
      case Err(e) => Throw(e)
      case Ok(time) => Push(Entry(time, parsed.target, parsed.content))
  }

  /** The steps for the items, in order. */
  function Steps(textContent: string -> string, items: seq<Item>): (r: seq<Step<Record>>)
    ensures |r| == |items|
  {
    seq(|items|, i requires 0 <= i < |items| => StepOf(textContent, items[i]))
  }

  /** `records` after the loop: the header and the rows, or the error that
      escaped. A missing `orderedItems` is a TypeError. */
  function Records(textContent: string -> string, archive: Archive): Result<seq<Record>>
  {
    match archive.orderedItems
    case None => Err(TypeError)
    case Some(items) =>
      match Run(Steps(textContent, items))
      case Err(e) => Err(e)
      case Ok(rows) => Ok([Heading(HeaderCells)] + rows)
  }

  /** The record loop of the upload handler. */
  method BuildRecords(textContent: string -> string, archive: Archive) returns (r: Result<seq<Record>>)
    ensures r == Records(textContent, archive)
  {
    if archive.orderedItems.None? {
      return Err(TypeError);
    }
    var items := archive.orderedItems.value;
    ghost var steps := Steps(textContent, items);
    var header := Heading(HeaderCells);
    var rows: seq<Record> := [];
    for i := 0 to |items|
      invariant Run(steps[..i]) == Ok(rows)
    {
      var item := items[i];
      assert steps[i] == StepOf(textContent, item);
      RunNext(steps, i);
      var content := if item.obj.Some? then item.obj.value.contentKo else "";
      var published := if item.obj.Some? then item.obj.value.published else None;
      if content != "" {
        var parsed := CleanText(textContent, content);
        var time := ToKst(published);
        if time.Err? {
          RunErrStays(steps, i + 1);
          return Err(time.error);
        }
        rows := rows + [Entry(time.value, parsed.target, parsed.content)];
      }
    }
    assert steps[..|items|] == steps;
    r := Ok([header] + rows);
  }

  /** An item with Korean content pushes the row of its time and split
      content. */
  lemma StepOfPush(textContent: string -> string, item: Item)
    requires StepOf(textContent, item).Push?
    ensures ToKst(PublishedOf(item)).Ok?
    ensures StepOf(textContent, item).row
         == Entry(ToKst(PublishedOf(item)).value, CleanText(textContent, KoContent(item)).target,
                  CleanText(textContent, KoContent(item)).content)
  {
  }

  /** The upload fails with a TypeError when `orderedItems` is missing, and
      otherwise exactly when an item with Korean content has a time that
      cannot be formatted, with a RangeError. */
  lemma RecordsOutcome(textContent: string -> string, archive: Archive)
    ensures archive.orderedItems.None? ==> Records(textContent, archive) == Err(TypeError)
    ensures archive.orderedItems.Some? ==>
      (Records(textContent, archive).Ok? <==>
         forall i :: 0 <= i < |archive.orderedItems.value| && KoContent(archive.orderedItems.value[i]) != "" ==>
           ToKst(PublishedOf(archive.orderedItems.value[i])).Ok?)
    ensures archive.orderedItems.Some? && Records(textContent, archive).Err? ==>
      Records(textContent, archive).error == RangeError
  {
    if archive.orderedItems.Some? {
      var items := archive.orderedItems.value;
      var steps := Steps(textContent, items);
      RunSpec(steps);
      assert forall i :: 0 <= i < |items| ==> steps[i] == StepOf(textContent, items[i]);
      if Run(steps).Err? {
        var j :| FirstThrow(steps, j) && Run(steps).error == steps[j].error;
      }
    }
  }

  /** The row pushed `j`-th: that of an item with Korean content. */
  lemma PushedRowAt(textContent: string -> string, items: seq<Item>, ix: seq<nat>, j: nat)
    requires ix == PushIndices(Steps(textContent, items)) && j < |ix|
    ensures ix[j] < |items| && KoContent(items[ix[j]]) != "" && ToKst(PublishedOf(items[ix[j]])).Ok?
    ensures Pushed(Steps(textContent, items))[j]
         == Entry(ToKst(PublishedOf(items[ix[j]])).value,
                  CleanText(textContent, KoContent(items[ix[j]])).target,
                  CleanText(textContent, KoContent(items[ix[j]])).content)
  {
    var steps := Steps(textContent, items);
    PushIndicesRows(steps);
    var i := ix[j];
    assert steps[i] == StepOf(textContent, items[i]);
    StepOfPush(textContent, items[i]);
  }

  /** The records after the header are the pushed rows. */
  lemma RecordsArePushed(textContent: string -> string, items: seq<Item>, records: seq<Record>)
    requires Records(textContent, Archive(Some(items))) == Ok(records)
    ensures Run(Steps(textContent, items)).Ok?
    ensures records == [Heading(HeaderCells)] + Pushed(Steps(textContent, items))
  {
    RunOk(Steps(textContent, items));
  }

  /** On success every item with Korean content pushes a row. */
  lemma KoItemsListed(textContent: string -> string, items: seq<Item>, ix: seq<nat>)
    requires Run(Steps(textContent, items)).Ok? && ix == PushIndices(Steps(textContent, items))
    ensures forall i :: 0 <= i < |items| && KoContent(items[i]) != "" ==> i in ix
  {
    var steps := Steps(textContent, items);
    RunOk(steps);
    PushIndicesComplete(steps);
    forall i | 0 <= i < |items| && KoContent(items[i]) != ""
      ensures i in ix
    {
      assert steps[i] == StepOf(textContent, items[i]);
    }
  }

  /** On success the records are the header and one row per item with Korean
      content, every such item, in archive order, holding its time in KST and
      its split content. */
  lemma RecordsRows(textContent: string -> string, items: seq<Item>, records: seq<Record>, ix: seq<nat>)
    requires Records(textContent, Archive(Some(items))) == Ok(records)
    requires ix == PushIndices(Steps(textContent, items))
    ensures |records| == |ix| + 1 && records[0] == Heading(HeaderCells)
    ensures forall j :: 0 <= j < |ix| ==>
      && ix[j] < |items| && KoContent(items[ix[j]]) != "" && ToKst(PublishedOf(items[ix[j]])).Ok?
      && records[j + 1] == Entry(ToKst(PublishedOf(items[ix[j]])).value,
                                 CleanText(textContent, KoContent(items[ix[j]])).target,
                                 CleanText(textContent, KoContent(items[ix[j]])).content)
    ensures forall j, j' :: 0 <= j < j' < |ix| ==> ix[j] < ix[j']
    ensures forall i :: 0 <= i < |items| && KoContent(items[i]) != "" ==> i in ix
  {
    RecordsArePushed(textContent, items, records);
    KoItemsListed(textContent, items, ix);
    PushIndicesAscending(Steps(textContent, items));
    forall j | 0 <= j < |ix|
      ensures KoContent(items[ix[j]]) != "" && ToKst(PublishedOf(items[ix[j]])).Ok?
      ensures records[j + 1] == Entry(ToKst(PublishedOf(items[ix[j]])).value,
                                      CleanText(textContent, KoContent(items[ix[j]])).target,
                                      CleanText(textContent, KoContent(items[ix[j]])).content)
    {
      PushedRowAt(textContent, items, ix, j);
    }
  }

  /** A non-empty time column, read back as a wall clock, is the publication
      time nine hours later, cut to the second. */
  lemma TimeColumnReadsBack(t: int)
    requires -MaxTimeValue <= t <= MaxTimeValue && -MaxTimeValue <= t + KstOffset <= MaxTimeValue
    requires 0 <= FromTimeValue(t + KstOffset).date.year <= 9999
    ensures ToKst(Some(t)).Ok?
    ensures ReadWallClock(ToKst(Some(t)).value) == Some(FloorToSecond(t + KstOffset))
  {
    KstReadsBack(t);
  }
}
