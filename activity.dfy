/** The parts of an exported Activity Streams 2.0 archive that the core reads
    (js/paradise.js, js/main.js), the direct-message filter `isDM`, the
    selection of notes from an archive, and the table of characters with its
    `idToName` reverse lookup. */
module Activity {
  import opened Common
  import opened Rows

  /** The `to` field of a note: absent, a single address, or a list. */
  datatype Recipients = NoRecipients | Address(address: string) | Addresses(addresses: seq<string>)

  /** A note object. Text fields that JavaScript reads with `||` or as a
      condition keep the empty string for "absent or empty", because the
      source treats the two alike: `inReplyTo` is `""` for a root message,
      `contentKo` is `contentMap.ko`, `content` the plain `content`. A
      timestamp is the time value its `published` text parses to, `None` when
      the field is absent or empty. */
  datatype Note = Note(
    id: string,
    kind: string,
    inReplyTo: string,
    published: Option<int>,
    attributedTo: Option<string>,
    to: Recipients,
    contentKo: string,
    content: string)

  /** An element of `orderedItems`: an activity whose `object` may be missing (`obj` here). */
  datatype Item = Item(obj: Option<Note>)

  /** `!msg.inReplyTo`: the message starts a thread. */
  predicate IsRoot(m: Note)
  {
    m.inReplyTo == ""
  }

  /** The fixed addresses whose messages are direct messages. */
  const DmTargets: seq<string> := [
    "https://paradise-is-not-lost.whippy.kr/users/NOTICE",
    "https://paradise-is-not-lost.whippy.kr/users/Paradise",
    "https://paradise-is-not-lost.whippy.kr/users/SYSTEM"
  ]

  /** `noteObj.to || []`, with a string turned into a one-element list. An
      empty string is falsy and becomes the empty list. */
  function RecipientList(to: Recipients): seq<string>
  {
    match to
    case NoRecipients => []
    case Address(a) => if a == "" then [] else [a]
    case Addresses(list) => list
  }

  /** `list.some(t => dmTargets.includes(t))`, scanning from the front. */
  function SomeDmTarget(list: seq<string>): bool
  {
    if list == [] then false
    else list[0] in DmTargets || SomeDmTarget(list[1..])
  }

  /** `isDM(noteObj)`. */
  function IsDm(m: Note): bool
  {
    SomeDmTarget(RecipientList(m.to))
  }

  /** The scan finds a fixed address exactly when the list holds one. */
  lemma {:induction false} SomeDmTargetIsMembership(list: seq<string>)
    ensures SomeDmTarget(list) <==> exists i :: 0 <= i < |list| && list[i] in DmTargets
  {
    if list != [] {
      SomeDmTargetIsMembership(list[1..]);
      assert forall i :: 1 <= i < |list| ==> list[i] == list[1..][i - 1];
    }
  }

  /** A note is a direct message iff one of its recipients (a lone address
      counting as a list of one, a missing or empty `to` as no recipient) is
      one of the three fixed addresses. */
  lemma IsDmIffAddressed(m: Note)
    ensures m.to.NoRecipients? ==> !IsDm(m)
    ensures m.to.Address? ==> (IsDm(m) <==> m.to.address in DmTargets)
    ensures m.to.Addresses? ==>
      (IsDm(m) <==> exists i :: 0 <= i < |m.to.addresses| && m.to.addresses[i] in DmTargets)
  {
    SomeDmTargetIsMembership(RecipientList(m.to));
    if m.to.Address? && m.to.address != "" {
      assert RecipientList(m.to)[0] == m.to.address;
    }
  }

  /** `item.object && item.object.type === "Note" && !isDM(item.object)`. */
  predicate Selected(item: Item)
  {
    item.obj.Some? && item.obj.value.kind == "Note" && !IsDm(item.obj.value)
  }

  /** The messages kept from one archive's `orderedItems`, in order. */
  function SelectNotes(items: seq<Item>): (r: seq<Note>)
    ensures |r| <= |items|
    ensures forall m :: m in r ==> m.kind == "Note" && !IsDm(m)
  {
    if items == [] then []
    else
      var rest := SelectNotes(items[..|items| - 1]);
      var last := items[|items| - 1];
      if Selected(last) then rest + [last.obj.value] else rest
  }

  /** The body of `orderedItems.forEach` as a step per item: push the object
      of a selected item, skip any other. */
  function SelectSteps(items: seq<Item>): (r: seq<Step<Note>>)
    ensures |r| == |items|
  {
    seq(|items|, i requires 0 <= i < |items| => if Selected(items[i]) then Push(items[i].obj.value) else Skip)
  }

  /** The kept messages are the objects the steps push. */
  lemma {:induction false} SelectNotesArePushed(items: seq<Item>)
    ensures SelectNotes(items) == Pushed(SelectSteps(items))
  {
    if items != [] {
      var n := |items| - 1;
      SelectNotesArePushed(items[..n]);
      assert SelectSteps(items)[..n] == SelectSteps(items[..n]);
    }
  }

  /** The kept messages are exactly the objects of the selected items, one
      per item, in archive order: the `j`-th kept message is the object of
      the `j`-th selected item, and no selected item is left out. */
  lemma SelectNotesKeeps(items: seq<Item>)
    ensures var idx := PushIndices(SelectSteps(items));
      && |idx| == |SelectNotes(items)|
      && (forall j :: 0 <= j < |idx| ==>
            idx[j] < |items| && Selected(items[idx[j]]) && SelectNotes(items)[j] == items[idx[j]].obj.value)
      && (forall j, j' :: 0 <= j < j' < |idx| ==> idx[j] < idx[j'])
      && (forall i :: 0 <= i < |items| && Selected(items[i]) ==> i in idx)
  {
    var steps := SelectSteps(items);
    SelectNotesArePushed(items);
    PushIndicesSpec(steps);
  }

  /** One entry of the `characters` table. */
  datatype Character = Character(name: string, id: string, fileName: string, enabled: bool)

  /** The `characters` table, in its declaration order. */
  const Characters: seq<Character> := [
    Character("아서", "Arthur_s", "arthur.json", true),
    Character("샬럿", "zZzzZzz", "charlotte.json", true),
    Character("니나", "NINA", "nina.json", false),
    Character("위스테라이", "Nightmare", "wiz.json", false),
    Character("딜런", "DylanRossini", "dylan.json", false),
    Character("리키", "RICKYBANG", "ricky.json", false),
    Character("윈터", "Winter", "winter.json", false),
    Character("제이어드", "DD_Jayard", "j.json", true),
    Character("루", "LuBu3", "lu.json", true),
    Character("엘가", "Elgar", "elgar.json", true),
    Character("할로우", "H0110W", "hollow.json", false),
    Character("도로테아", "Dorothy_Witch", "dorothy.json", false),
    Character("케일럽", "Y0UNGBL00D", "cale.json", false),
    Character("멜리사", "Melissa", "melissa.json", true),
    Character("카이퍼", "Ebony", "kuiper.json", false),
    Character("타우리온", "TauLeo", "tauleon.json", false),
    Character("요세프", "Y0S3F", "yosef.json", true)
  ]

  /** The map that assigning `idToName[obj.id] = name` for each entry in turn
      leaves behind: a later entry with the same id overwrites an earlier one. */
  function NameTable(cs: seq<Character>): (m: map<string, string>)
    ensures m.Keys == set c | c in cs :: c.id
  {
    if cs == [] then map[]
    else NameTable(cs[..|cs| - 1])[cs[|cs| - 1].id := cs[|cs| - 1].name]
  }

  /** An id is mapped to the name of the last entry that has it. */
  lemma {:induction false} NameTableLastWins(cs: seq<Character>, i: nat)
    requires i < |cs|
    requires forall j :: i < j < |cs| ==> cs[j].id != cs[i].id
    ensures NameTable(cs)[cs[i].id] == cs[i].name
  {
    if i < |cs| - 1 {
      NameTableLastWins(cs[..|cs| - 1], i);
    }
  }

  /** No two characters share an id. */
  lemma CharacterIdsDistinct()
    ensures forall i, j :: 0 <= i < j < |Characters| ==> Characters[i].id != Characters[j].id
  {
  }

  /** So `idToName` maps every character's id to that character's name, and
      holds nothing else. */
  lemma IdToNameInverts()
    ensures NameTable(Characters).Keys == set c | c in Characters :: c.id
    ensures forall c :: c in Characters ==> NameTable(Characters)[c.id] == c.name
  {
    CharacterIdsDistinct();
    forall c | c in Characters
      ensures NameTable(Characters)[c.id] == c.name
    {
      var i :| 0 <= i < |Characters| && Characters[i] == c;
      NameTableLastWins(Characters, i);
    }
  }

  /** `Object.entries(characters).forEach(([name, obj]) => idToName[obj.id] = name)`. */
  method BuildIdToName(cs: seq<Character>) returns (idToName: map<string, string>)
    ensures idToName == NameTable(cs)
    ensures idToName.Keys == set c | c in cs :: c.id
  {
    idToName := map[];
    for i := 0 to |cs|
      invariant idToName == NameTable(cs[..i])
    {
      assert cs[..i + 1][..i] == cs[..i];
      idToName := idToName[cs[i].id := cs[i].name];
    }
    assert cs[..|cs|] == cs;
  }
}
