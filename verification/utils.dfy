/**
 * Conversation normalisation and small decisions of helpers/utils.py:
 * `get_sorted_messages`, `validate_and_set`, `check_if_mentioning_bot` and
 * `get_thread_ts`.
 *
 * Timestamps are integer sort keys standing for the source's `float(ts)`.
 */
module Utils {
  import opened Wrappers

  const NEW_CONVERSATION: string := "new-conversation"

  /** One message of the chat transport's history: `ts`, `user`, `text`, and whether it has a `subtype`. */
  datatype RawMessage = RawMessage(ts: int, user: string, text: string, hasSubtype: bool)

  /** One normalised history entry `{"ts", "user", "msg"}`. */
  datatype Entry = Entry(ts: int, user: string, msg: string)

  function ToEntry(m: RawMessage): Entry {
    Entry(m.ts, m.user, m.text)
  }

  /**
   * Index of the reset marker: the first index among `0 .. len-2` whose text
   * is `new-conversation`.  The last message is never examined.
   */
  function FindReset(messages: seq<RawMessage>): (r: Option<nat>)
    ensures r.Some? ==> r.value + 1 < |messages| && messages[r.value].text == NEW_CONVERSATION
    ensures r.Some? ==> forall j :: 0 <= j < r.value ==> messages[j].text != NEW_CONVERSATION
    ensures r.None? ==> forall j :: 0 <= j < |messages| - 1 ==> messages[j].text != NEW_CONVERSATION
  {
    if |messages| < 2 then None
    else if messages[0].text == NEW_CONVERSATION then Some(0)
    else match FindReset(messages[1..])
      case Some(i) => Some(i + 1)
      case None => None
  }

  /** The messages before the reset marker, or all messages when there is none. */
  function Window(messages: seq<RawMessage>): (w: seq<RawMessage>)
    ensures w <= messages
  {
    match FindReset(messages)
    case Some(i) => messages[..i]
    case None => messages
  }

  /** The entries of the messages without `subtype`, in list order. */
  function KeepEntries(messages: seq<RawMessage>): (r: seq<Entry>)
    ensures |r| <= |messages|
  {
    if |messages| == 0 then []
    else if messages[0].hasSubtype then KeepEntries(messages[1..])
    else [ToEntry(messages[0])] + KeepEntries(messages[1..])
  }

  ghost predicate SortedByTs(entries: seq<Entry>) {
    forall i, j :: 0 <= i < j < |entries| ==> entries[i].ts <= entries[j].ts
  }

  /** The tail of a sorted list is sorted. */
  lemma SortedTail(sorted: seq<Entry>)
    requires |sorted| > 0 && SortedByTs(sorted)
    ensures SortedByTs(sorted[1..])
  {
    forall i, j | 0 <= i < j < |sorted| - 1
      ensures sorted[1..][i].ts <= sorted[1..][j].ts
    {
      assert sorted[1..][i] == sorted[i + 1] && sorted[1..][j] == sorted[j + 1];
    }
  }

  /** An entry no later than the head of a sorted list can go in front of it. */
  lemma ConsSorted(x: Entry, sorted: seq<Entry>)
    requires SortedByTs(sorted)
    requires |sorted| > 0 ==> x.ts <= sorted[0].ts
    ensures SortedByTs([x] + sorted)
  {
    var r := [x] + sorted;
    forall i, j | 0 <= i < j < |r|
      ensures r[i].ts <= r[j].ts
    {
      assert r[j] == sorted[j - 1];
      if i == 0 {
        assert sorted[0].ts <= sorted[j - 1].ts;
      } else {
        assert r[i] == sorted[i - 1];
      }
    }
  }

  /** Inserts `e` into a sorted list before the first entry with a timestamp not below its own. */
  function Insert(e: Entry, sorted: seq<Entry>): (r: seq<Entry>)
    requires SortedByTs(sorted)
    ensures SortedByTs(r)
    ensures multiset(r) == multiset(sorted) + multiset{e}
    ensures |r| == |sorted| + 1 && (r[0] == e || (|sorted| > 0 && r[0] == sorted[0]))
  {
    if |sorted| == 0 || e.ts <= sorted[0].ts then
      ConsSorted(e, sorted);
      [e] + sorted
    else
      SortedTail(sorted);
      var rest := Insert(e, sorted[1..]);
      assert sorted == [sorted[0]] + sorted[1..];
      assert sorted[0].ts <= rest[0].ts by {
        if rest[0] != e {
          assert rest[0] == sorted[1];
        }
      }
      ConsSorted(sorted[0], rest);
      [sorted[0]] + rest
  }

  /**
   * Python's stable `sorted(..., key=ts)`: the result is ordered by
   * timestamp and is a permutation of the input; entries with equal
   * timestamps keep their relative order.
   */
  function SortByTs(entries: seq<Entry>): (r: seq<Entry>)
    ensures SortedByTs(r)
    ensures multiset(r) == multiset(entries)
  {
    if |entries| == 0 then []
    else
      assert entries == [entries[0]] + entries[1..];
      Insert(entries[0], SortByTs(entries[1..]))
  }

  /** `get_sorted_messages`. */
  function GetSortedMessages(messages: seq<RawMessage>): (r: seq<Entry>)
    ensures SortedByTs(r)
    ensures multiset(r) == multiset(KeepEntries(Window(messages)))
  {
    SortByTs(KeepEntries(Window(messages)))
  }

  /** Every kept entry is the entry of a message without `subtype`, at some index of the list. */
  lemma {:induction false} KeptEntriesComeFromPlainMessages(messages: seq<RawMessage>, e: Entry)
    requires e in KeepEntries(messages)
    ensures exists j :: 0 <= j < |messages| && !messages[j].hasSubtype && ToEntry(messages[j]) == e
    decreases |messages|
  {
    if !messages[0].hasSubtype && e == ToEntry(messages[0]) {
    } else {
      KeptEntriesComeFromPlainMessages(messages[1..], e);
      var j :| 0 <= j < |messages[1..]| && !messages[1..][j].hasSubtype && ToEntry(messages[1..][j]) == e;
      assert messages[j + 1] == messages[1..][j];
    }
  }

  /**
   * Every output entry is `{ts, user, msg = text}` of a message without
   * `subtype`; when a reset marker is found at index `i`, it comes from
   * `messages[0 .. i-1]`, so the marker and everything after it are dropped.
   */
  lemma OutputEntriesComeFromWindow(messages: seq<RawMessage>, e: Entry)
    requires e in GetSortedMessages(messages)
    ensures FindReset(messages).None? ==>
              exists j :: 0 <= j < |messages| && !messages[j].hasSubtype && ToEntry(messages[j]) == e
    ensures FindReset(messages).Some? ==>
              exists j :: 0 <= j < FindReset(messages).value && !messages[j].hasSubtype && ToEntry(messages[j]) == e
  {
    var w := Window(messages);
    assert e in multiset(GetSortedMessages(messages));
    assert e in multiset(KeepEntries(w));
    KeptEntriesComeFromPlainMessages(w, e);
    var j :| 0 <= j < |w| && !w[j].hasSubtype && ToEntry(w[j]) == e;
    assert w[j] == messages[j];
    match FindReset(messages)
    case Some(i) =>
      assert |w| == i;
    case None =>
      assert |w| == |messages|;
  }

  /** A `new-conversation` text in the last position is not a reset marker: nothing is truncated. */
  lemma LastMessageIsNeverAMarker(messages: seq<RawMessage>, last: RawMessage)
    requires forall j :: 0 <= j < |messages| ==> messages[j].text != NEW_CONVERSATION
    ensures Window(messages + [last]) == messages + [last]
  {
    var all := messages + [last];
    assert forall j :: 0 <= j < |all| - 1 ==> all[j] == messages[j];
  }

  /** The first marker wins: later markers do not move the cut. */
  lemma FirstMarkerWins(messages: seq<RawMessage>, i: nat)
    requires i + 1 < |messages| && messages[i].text == NEW_CONVERSATION
    requires forall j :: 0 <= j < i ==> messages[j].text != NEW_CONVERSATION
    ensures Window(messages) == messages[..i]
  {
    var r := FindReset(messages);
    assert r.Some?;
    assert r.value == i;
  }

  /** Python's stable sort leaves an already ordered list unchanged. */
  lemma {:induction false} SortKeepsSortedInput(entries: seq<Entry>)
    requires SortedByTs(entries)
    ensures SortByTs(entries) == entries
  {
    if |entries| > 0 {
      SortKeepsSortedInput(entries[1..]);
    }
  }

  /** The entries with timestamp `t`, in order. */
  function WithTs(entries: seq<Entry>, t: int): seq<Entry> {
    if |entries| == 0 then []
    else (if entries[0].ts == t then [entries[0]] else []) + WithTs(entries[1..], t)
  }

  /** The entries with timestamp `t` of a list with a given head. */
  lemma WithTsCons(x: Entry, rest: seq<Entry>, t: int)
    ensures WithTs([x] + rest, t) == (if x.ts == t then [x] else []) + WithTs(rest, t)
  {
    assert ([x] + rest)[0] == x && ([x] + rest)[1..] == rest;
  }

  /** Inserting `e` puts it before every entry with its timestamp, and moves nothing else. */
  lemma {:induction false} InsertKeepsTies(e: Entry, sorted: seq<Entry>, t: int)
    requires SortedByTs(sorted)
    ensures WithTs(Insert(e, sorted), t) == (if e.ts == t then [e] else []) + WithTs(sorted, t)
    decreases |sorted|
  {
    if |sorted| == 0 || e.ts <= sorted[0].ts {
      WithTsCons(e, sorted, t);
    } else {
      var rest := sorted[1..];
      SortedTail(sorted);
      InsertKeepsTies(e, rest, t);
      var inserted := Insert(e, rest);
      assert Insert(e, sorted) == [sorted[0]] + inserted;
      WithTsCons(sorted[0], inserted, t);
      assert sorted == [sorted[0]] + rest;
      WithTsCons(sorted[0], rest, t);
      if e.ts == t {
        assert sorted[0].ts != t;
      }
    }
  }

  /**
   * The sort is stable: for every timestamp, the entries carrying it appear
   * in the output in the same order as in the input.
   */
  lemma {:induction false} SortIsStable(entries: seq<Entry>, t: int)
    ensures WithTs(SortByTs(entries), t) == WithTs(entries, t)
  {
    if |entries| > 0 {
      SortIsStable(entries[1..], t);
      InsertKeepsTies(entries[0], SortByTs(entries[1..]), t);
    }
  }

  /** A value Python treats as false: `None` or the empty string. */
  predicate Falsy(v: Option<string>) {
    v.None? || v == Some("")
  }

  /**
   * `validate_and_set`: a falsy value keeps `existingValue`, a value outside
   * `availableValues` gives `None`, and a listed value is returned as is.
   * `defaultValue` is accepted but never used.
   */
  function ValidateAndSet(value: Option<string>, availableValues: seq<string>, defaultValue: string,
                          existingValue: Option<string>): (r: Option<string>)
    ensures Falsy(value) ==> r == existingValue
    ensures !Falsy(value) ==> (r.Some? <==> value.value in availableValues)
    ensures !Falsy(value) && r.Some? ==> r == value
  {
    if Falsy(value) then existingValue
    else if value.value !in availableValues then None
    else value
  }

  /** A Slack rich-text leaf, with the `type` and `user_id` keys as present or absent. */
  datatype Leaf = Leaf(ltype: Option<string>, userId: Option<string>)

  /** A Slack block element: its `type` and its nested `elements` (empty when absent). */
  datatype BlockElement = BlockElement(etype: Option<string>, children: seq<Leaf>)

  /** A Slack block: its `elements` (empty when absent). */
  datatype Block = Block(elements: seq<BlockElement>)

  /** The bot is mentioned by this leaf. */
  predicate MentionsBot(leaf: Leaf, botUserId: string) {
    leaf.ltype == Some("user") && leaf.userId == Some(botUserId)
  }

  ghost predicate SomeSectionMentions(blocks: seq<Block>, botUserId: string) {
    exists b, k, l :: 0 <= b < |blocks| && 0 <= k < |blocks[b].elements|
      && blocks[b].elements[k].etype == Some("rich_text_section")
      && 0 <= l < |blocks[b].elements[k].children|
      && MentionsBot(blocks[b].elements[k].children[l], botUserId)
  }

  ghost predicate NoMentionBefore(blocks: seq<Block>, botUserId: string, b: int, k: int, l: int) {
    forall b', k', l' ::
      0 <= b' < |blocks| && 0 <= k' < |blocks[b'].elements|
      && blocks[b'].elements[k'].etype == Some("rich_text_section")
      && 0 <= l' < |blocks[b'].elements[k'].children|
      && (b' < b || (b' == b && (k' < k || (k' == k && l' < l))))
      ==> !MentionsBot(blocks[b'].elements[k'].children[l'], botUserId)
  }

  /**
   * `check_if_mentioning_bot`: true iff some `rich_text_section` element of
   * some block holds a `user` element whose `user_id` is the bot's id.
   */
  method CheckIfMentioningBot(blocks: seq<Block>, botUserId: string) returns (mentioned: bool)
    ensures mentioned <==> SomeSectionMentions(blocks, botUserId)
  {
    var b := 0;
    while b < |blocks|
      invariant 0 <= b <= |blocks|
      invariant NoMentionBefore(blocks, botUserId, b, 0, 0)
    {
      var elements := blocks[b].elements;
      var k := 0;
      while k < |elements|
        invariant 0 <= k <= |elements|
        invariant NoMentionBefore(blocks, botUserId, b, k, 0)
      {
        if elements[k].etype == Some("rich_text_section") {
          var leaves := elements[k].children;
          var l := 0;
          while l < |leaves|
            invariant 0 <= l <= |leaves|
            invariant NoMentionBefore(blocks, botUserId, b, k, l)
          {
            if MentionsBot(leaves[l], botUserId) {
              return true;
            }
            l := l + 1;
          }
        }
        k := k + 1;
      }
      b := b + 1;
    }
    return false;
  }

  /** The `channel_type`, `thread_ts` and `parent_ts` attributes of an incoming event. */
  datatype ChannelAttributes = ChannelAttributes(channelType: Option<string>, threadTs: Option<string>,
                                                 parentTs: Option<string>)

  /**
   * `get_thread_ts`: no thread for a direct message (`im`); otherwise the
   * event's `thread_ts` when it is set and non-empty, else its `parent_ts`.
   */
  function GetThreadTs(attrs: ChannelAttributes): (r: Option<string>)
    ensures attrs.channelType == Some("im") ==> r.None?
    ensures attrs.channelType != Some("im") && !Falsy(attrs.threadTs) ==> r == attrs.threadTs
    ensures attrs.channelType != Some("im") && Falsy(attrs.threadTs) ==> r == attrs.parentTs
  {
    if attrs.channelType != Some("im") then
      (if !Falsy(attrs.threadTs) then attrs.threadTs else attrs.parentTs)
    else None
  }
}
