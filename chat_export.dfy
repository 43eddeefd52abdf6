/** ziptotxtCGPT.py: a chat export archive holds conversations.json, a list
    of conversations whose "mapping" values carry the messages. Each
    conversation is written as a header with its title and one block per
    message, messages with a numeric create_time first (ascending) and the
    others after them in their original order.

    Opening the archive, decoding the JSON and writing the output file are
    not part of this model: the entry names and the decoded conversations
    are inputs, the exported text is the output. Only the JSON shapes the
    code reads without raising are modelled. */
module ChatExport {
  import opened Text
  import StableSort

  // ---------------------------------------------------------------------
  // the archive entry (line 12)

  const ConversationsName: string := "conversations.json"

  /** next((f for f in names if f.endswith("conversations.json")), None). */
  function SelectEntry(names: seq<string>): (r: Option<string>)
    ensures r.Some? ==> r.value in names && EndsWith(r.value, ConversationsName)
  {
    if names == [] then None
    else if EndsWith(names[0], ConversationsName) then Some(names[0])
    else SelectEntry(names[1..])
  }

  datatype EntryError = NoConversationsFile

  /** Lines 12-14: the chosen entry, or FileNotFoundError. A chosen name is
      never empty, so `if not json_filename` fails exactly when no entry was
      found. */
  function ConversationsEntry(names: seq<string>): (r: Result<string, EntryError>)
    ensures r.Success? <==> SelectEntry(names).Some?
    ensures r.Success? ==> r.value == SelectEntry(names).value && EndsWith(r.value, ConversationsName)
  {
    match SelectEntry(names)
    case None => Failure(NoConversationsFile)
    case Some(name) => if name == [] then Failure(NoConversationsFile) else Success(name)
  }

  datatype Result<T, E> = Success(value: T) | Failure(error: E)

  /** The entry read is the first name ending in "conversations.json"; the
      archive is refused exactly when no name does. */
  lemma {:induction false} SelectEntryFirst(names: seq<string>)
    ensures SelectEntry(names).None? <==> forall i :: 0 <= i < |names| ==> !EndsWith(names[i], ConversationsName)
    ensures SelectEntry(names).Some? ==>
              exists i :: 0 <= i < |names| && names[i] == SelectEntry(names).value &&
                forall j :: 0 <= j < i ==> !EndsWith(names[j], ConversationsName)
  {
    if names != [] && !EndsWith(names[0], ConversationsName) {
      SelectEntryFirst(names[1..]);
      if SelectEntry(names).Some? {
        var i :| 0 <= i < |names[1..]| && names[1..][i] == SelectEntry(names).value &&
                 forall j :: 0 <= j < i ==> !EndsWith(names[1..][j], ConversationsName);
        assert names[i + 1] == SelectEntry(names).value;
        forall j | 0 <= j < i + 1 ensures !EndsWith(names[j], ConversationsName) {
          if j > 0 {
            assert names[j] == names[1..][j - 1];
          }
        }
      }
    }
  }

  // ---------------------------------------------------------------------
  // the JSON shapes the code reads

  /** "create_time": absent, a number, a boolean (isinstance(True, int) holds
      in Python), or anything else (null, a string, ...). */
  datatype TimeValue = NoTime | Number(x: real) | Flag(b: bool) | OtherTime

  /** "author": absent, or a dict with or without "role". */
  datatype Author = NoAuthor | Author(role: Option<string>)

  /** "content" and its "parts": no content, content without parts, a list
      of parts, or parts that are not a list. */
  datatype Content = NoContent | NoParts | Parts(items: seq<string>) | NotAList

  datatype Message = Message(author: Author, content: Content, createTime: TimeValue)

  /** The "message" of a mapping node: absent or null, not a dict, an empty
      dict, or a message. */
  datatype MessageSlot = NoMessage | NotADict | EmptyDict | Dict(msg: Message)

  /** "title": absent, null, or a string. */
  datatype Title = NoTitle | NullTitle | Title(text: string)

  datatype Conversation = Conversation(title: Title, mapping: seq<MessageSlot>)

  // ---------------------------------------------------------------------
  // format_conversation (lines 20-27)

  /** Line 23: the author's role upper-cased, "unknown" when missing. */
  function RoleLabel(m: Message): string {
    match m.author
    case NoAuthor => Upper("unknown")
    case Author(None) => Upper("unknown")
    case Author(Some(role)) => Upper(role)
  }

  /** Lines 24-25: the first part when the parts are a non-empty list, ""
      otherwise; missing content or parts read as [""]. */
  function MessageText(m: Message): string {
    match m.content
    case NoContent => [""][0]
    case NoParts => [""][0]
    case Parts(items) => if items != [] then items[0] else ""
    case NotAList => ""
  }

  /** The role label has no lower-case ASCII letter, missing roles give
      "UNKNOWN", and a message's text is "" unless it has a first part. */
  lemma MessageFields(m: Message)
    ensures forall i :: 0 <= i < |RoleLabel(m)| ==> !('a' <= RoleLabel(m)[i] <= 'z')
    ensures (m.author.NoAuthor? || m.author.role.None?) ==> RoleLabel(m) == "UNKNOWN"
    ensures m.author.Author? && m.author.role.Some? ==> |RoleLabel(m)| == |m.author.role.value|
    ensures MessageText(m) != "" ==> m.content.Parts? && m.content.items != [] && MessageText(m) == m.content.items[0]
  {
    var roleLabel := RoleLabel(m);
    forall i | 0 <= i < |roleLabel| ensures !('a' <= roleLabel[i] <= 'z') {
    }
    if m.author.NoAuthor? || m.author.role.None? {
      assert Upper("unknown") == "UNKNOWN";
    }
  }

  /** Line 26: f"{role}:\n{text}\n". */
  function Block(m: Message): string {
    RoleLabel(m) + ":\n" + MessageText(m) + "\n"
  }

  /** Line 21: f"\n==== {title} ====\n". */
  function Header(title: string): string {
    "\n==== " + title + " ====\n"
  }

  /** The lines format_conversation collects: the header, then one block
      per message. */
  function ConversationLines(title: string, messages: seq<Message>): (lines: seq<string>)
    ensures |lines| == |messages| + 1 && lines[0] == Header(title)
    ensures forall i :: 0 <= i < |messages| ==> lines[i + 1] == Block(messages[i])
  {
    if messages == [] then [Header(title)]
    else ConversationLines(title, messages[..|messages| - 1]) + [Block(messages[|messages| - 1])]
  }

  /** Lines 20-27. */
  method FormatConversation(title: string, messages: seq<Message>) returns (text: string)
    ensures text == Join(ConversationLines(title, messages), "\n")
  {
    var lines := [Header(title)];
    for i := 0 to |messages|
      invariant lines == ConversationLines(title, messages[..i])
    {
      var msg := messages[i];
      assert messages[..i + 1][..i] == messages[..i] && messages[..i + 1][i] == msg;
      lines := lines + [Block(msg)];
    }
    assert messages[..|messages|] == messages;
    text := Join(lines, "\n");
  }

  /** The header followed, for each message in order, by a line break and
      its block. */
  function Layout(title: string, messages: seq<Message>): string {
    if messages == [] then Header(title)
    else Layout(title, messages[..|messages| - 1]) + "\n" + Block(messages[|messages| - 1])
  }

  /** The joined lines are the header and then each message's block, each
      after one line break: no block is lost, repeated or reordered. */
  lemma {:induction false} FormatLayout(title: string, messages: seq<Message>)
    ensures Join(ConversationLines(title, messages), "\n") == Layout(title, messages)
  {
    if messages != [] {
      var init := messages[..|messages| - 1];
      FormatLayout(title, init);
      JoinSnoc(ConversationLines(title, init), Block(messages[|messages| - 1]), "\n");
    }
  }

  /** The layout starts with the header and grows by one block per message. */
  lemma {:induction false} LayoutStartsWithHeader(title: string, messages: seq<Message>)
    ensures StartsWith(Layout(title, messages), Header(title))
  {
    if messages != [] {
      LayoutStartsWithHeader(title, messages[..|messages| - 1]);
    }
  }

  // ---------------------------------------------------------------------
  // the messages of one conversation (lines 38-50)

  /** Line 38: convo.get("title", "Untitled"); a null title prints "None". */
  function TitleText(t: Title): string {
    match t
    case NoTitle => "Untitled"
    case NullTitle => "None"
    case Title(s) => s
  }

  /** Lines 41-45: the messages that are non-empty dicts, in mapping order. */
  function Kept(slots: seq<MessageSlot>): (raw: seq<Message>)
    ensures |raw| <= |slots|
  {
    if slots == [] then []
    else
      var slot := slots[|slots| - 1];
      Kept(slots[..|slots| - 1]) + (if slot.Dict? then [slot.msg] else [])
  }

  method CollectMessages(slots: seq<MessageSlot>) returns (raw: seq<Message>)
    ensures raw == Kept(slots)
  {
    raw := [];
    for i := 0 to |slots|
      invariant raw == Kept(slots[..i])
    {
      var slot := slots[i];
      assert slots[..i + 1][..i] == slots[..i] && slots[..i + 1][i] == slot;
      if slot.Dict? {
        raw := raw + [slot.msg];
      }
    }
    assert slots[..|slots|] == slots;
  }

  /** Exactly the messages of the mapping are kept; absent, null, empty and
      non-dict messages are dropped. */
  lemma {:induction false} KeptExactly(slots: seq<MessageSlot>)
    ensures forall m :: m in Kept(slots) <==> Dict(m) in slots
  {
    if slots != [] {
      var init := slots[..|slots| - 1];
      KeptExactly(init);
      assert slots == init + [slots[|slots| - 1]];
    }
  }

  /** isinstance(create_time, (int, float)). */
  predicate HasTime(m: Message) {
    m.createTime.Number? || m.createTime.Flag?
  }

  /** The sort key m["create_time"], booleans reading as 1 and 0. */
  function TimeKey(m: Message): real {
    match m.createTime
    case Number(x) => x
    case Flag(b) => if b then 1.0 else 0.0
    case NoTime => 0.0
    case OtherTime => 0.0
  }

  /** Line 47: the messages with a numeric create_time, in order. */
  function WithTime(raw: seq<Message>): (r: seq<Message>)
    ensures forall m :: m in r <==> m in raw && HasTime(m)
  {
    if raw == [] then []
    else
      var m := raw[|raw| - 1];
      WithTime(raw[..|raw| - 1]) + (if HasTime(m) then [m] else [])
  }

  /** Line 48: the messages not in with_time (compared as values). */
  function NotIn(raw: seq<Message>, withTime: seq<Message>): seq<Message> {
    if raw == [] then []
    else
      var m := raw[|raw| - 1];
      NotIn(raw[..|raw| - 1], withTime) + (if m !in withTime then [m] else [])
  }

  /** The messages without a numeric create_time, in order. */
  function WithoutTime(raw: seq<Message>): seq<Message> {
    if raw == [] then []
    else
      var m := raw[|raw| - 1];
      WithoutTime(raw[..|raw| - 1]) + (if !HasTime(m) then [m] else [])
  }

  /** Line 50. */
  function Ordered(raw: seq<Message>): seq<Message> {
    var withTime := WithTime(raw);
    StableSort.SortBy(withTime, TimeKey, false) + NotIn(raw, withTime)
  }

  /** A message equal to one with a numeric time has that time itself, so
      the membership test of line 48 keeps exactly the messages without a
      numeric create_time. */
  lemma {:induction false} NotInIsWithoutTime(raw: seq<Message>, all: seq<Message>)
    requires forall m :: m in raw ==> m in all
    ensures NotIn(raw, WithTime(all)) == WithoutTime(raw)
  {
    if raw != [] {
      NotInIsWithoutTime(raw[..|raw| - 1], all);
      assert raw[|raw| - 1] in all;
    }
  }

  /** Splitting by create_time loses and adds nothing. */
  lemma {:induction false} TimeSplitPermutes(raw: seq<Message>)
    ensures multiset(WithTime(raw)) + multiset(WithoutTime(raw)) == multiset(raw)
  {
    if raw != [] {
      var init := raw[..|raw| - 1];
      TimeSplitPermutes(init);
      assert raw == init + [raw[|raw| - 1]];
    }
  }

  lemma {:induction false} WithoutTimeMembers(raw: seq<Message>)
    ensures forall m :: m in WithoutTime(raw) <==> m in raw && !HasTime(m)
  {
    if raw != [] {
      var init := raw[..|raw| - 1];
      WithoutTimeMembers(init);
      assert raw == init + [raw[|raw| - 1]];
    }
  }

  /** Lines 47-50: the ordered messages are a permutation of the kept ones;
      those with a numeric create_time come first, ascending and stable among
      equal times, and the others follow in their original order. */
  lemma OrderedFacts(raw: seq<Message>)
    ensures multiset(Ordered(raw)) == multiset(raw)
    ensures var k := |WithTime(raw)|;
            && k <= |Ordered(raw)|
            && StableSort.Sorted(Ordered(raw)[..k], TimeKey, false)
            && (forall i :: 0 <= i < k ==> HasTime(Ordered(raw)[i]))
            && (forall i :: k <= i < |Ordered(raw)| ==> !HasTime(Ordered(raw)[i]))
            && Ordered(raw)[k..] == WithoutTime(raw)
    ensures forall v :: StableSort.WithKey(Ordered(raw)[..|WithTime(raw)|], TimeKey, v) == StableSort.WithKey(WithTime(raw), TimeKey, v)
  {
    var withTime := WithTime(raw);
    var sorted := StableSort.SortBy(withTime, TimeKey, false);
    StableSort.SortByCorrect(withTime, TimeKey, false);
    StableSort.SortByMembers(withTime, TimeKey, false);
    NotInIsWithoutTime(raw, raw);
    TimeSplitPermutes(raw);
    WithoutTimeMembers(raw);
    var r := Ordered(raw);
    assert r == sorted + WithoutTime(raw);
    assert r[..|withTime|] == sorted && r[|withTime|..] == WithoutTime(raw);
    forall i | 0 <= i < |withTime| ensures HasTime(r[i]) {
      assert r[i] in sorted;
    }
    forall i | |withTime| <= i < |r| ensures !HasTime(r[i]) {
      assert r[i] in WithoutTime(raw);
    }
  }

  // ---------------------------------------------------------------------
  // the export (lines 36-55)

  /** The text written for one conversation. */
  function ConversationText(c: Conversation): string {
    Join(ConversationLines(TitleText(c.title), Ordered(Kept(c.mapping))), "\n")
  }

  function ConversationTexts(convos: seq<Conversation>): (r: seq<string>)
    ensures |r| == |convos| && forall i :: 0 <= i < |convos| ==> r[i] == ConversationText(convos[i])
  {
    if convos == [] then [] else ConversationTexts(convos[..|convos| - 1]) + [ConversationText(convos[|convos| - 1])]
  }

  /** Lines 36-55: every conversation formatted in order, joined by "\n". */
  method ExportText(conversations: seq<Conversation>) returns (output: string)
    ensures output == Join(ConversationTexts(conversations), "\n")
  {
    var allText: seq<string> := [];
    for i := 0 to |conversations|
      invariant allText == ConversationTexts(conversations[..i])
    {
      var convo := conversations[i];
      assert conversations[..i + 1][..i] == conversations[..i] && conversations[..i + 1][i] == convo;
      var title := TitleText(convo.title);
      var rawMessages := CollectMessages(convo.mapping);
      var withTime := WithTime(rawMessages);
      var withoutTime := NotIn(rawMessages, withTime);
      var messages := StableSort.SortBy(withTime, TimeKey, false) + withoutTime;
      var formatted := FormatConversation(title, messages);
      allText := allText + [formatted];
    }
    assert conversations[..|conversations|] == conversations;
    output := Join(allText, "\n");
  }
}
