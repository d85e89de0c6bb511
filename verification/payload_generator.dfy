/**
 * Prompt rendering of helpers/payload_generator.py: the flat Claude
 * transcript prompt with its two templates, the Claude v3 role/content list
 * with its alternation fix-up, and the per-model request body of
 * `generate_payload`.
 *
 * The values of constants.py are not part of this model; they are the
 * `Constants` parameter.
 */
module PayloadGenerator {
  import opened Wrappers
  import opened PyStr
  import opened Utils
  import opened ModelHelper
  import opened Seqs

  /** `SYSTEM_MESSAGES`, `PII_SYSTEM_MESSAGE_TAG`, `DISCLAIMER_TAG` and `DEFAULT_ASSISTANT_PROMPT`. */
  datatype Constants = Constants(
    systemMessages: seq<string>,
    piiTag: string,
    disclaimerTag: string,
    assistantPrompt: string)

  /** The bot's mention token `<@bot_user_id>`. */
  function Mention(botUserId: string): (r: string)
    ensures |r| > 0
  {
    "<@" + botUserId + ">"
  }

  /** `text.replace(f"<@{bot_user_id}>", 'Bot')`. */
  function MentionToBot(text: string, botUserId: string): string {
    Replace(text, Mention(botUserId), "Bot")
  }

  /** A command echo, a sensitive-information notice or a disclaimer: never part of a prompt. */
  predicate IsSystemMessage(c: Constants, text: string) {
    var stripped := Strip(text);
    StartsWithAny(stripped, c.systemMessages) || Contains(stripped, c.piiTag) || Contains(stripped, c.disclaimerTag)
  }

  // ---------------------------------------------------------------------
  // Flat prompt (claude-v2, claude-instant)
  // ---------------------------------------------------------------------

  /** Index of the latest message not written by the bot, if any. */
  function LastHumanIndex(messages: seq<Entry>, botUserId: string): (r: Option<nat>)
    ensures r.None? <==> forall j :: 0 <= j < |messages| ==> messages[j].user == botUserId
    ensures r.Some? ==> r.value < |messages| && messages[r.value].user != botUserId
    ensures r.Some? ==> forall j :: r.value < j < |messages| ==> messages[j].user == botUserId
  {
    if |messages| == 0 then None
    else if messages[|messages| - 1].user != botUserId then Some(|messages| - 1)
    else
      var r := LastHumanIndex(messages[..|messages| - 1], botUserId);
      assert forall j :: 0 <= j < |messages| - 1 ==> messages[..|messages| - 1][j] == messages[j];
      r
  }

  /**
   * The text of the latest message not written by the bot, with the bot's
   * mention replaced by `Bot`; empty when every message is the bot's.
   */
  function LastMessage(messages: seq<Entry>, botUserId: string): (r: string)
    ensures (forall j :: 0 <= j < |messages| ==> messages[j].user == botUserId) ==> r == ""
    ensures forall i :: 0 <= i < |messages| && messages[i].user != botUserId
                        && (forall j :: i < j < |messages| ==> messages[j].user == botUserId)
                        ==> r == MentionToBot(messages[i].msg, botUserId)
  {
    match LastHumanIndex(messages, botUserId)
    case None => ""
    case Some(i) => MentionToBot(messages[i].msg, botUserId)
  }

  function Speaker(m: Entry, botUserId: string): string {
    if m.user == botUserId then "Assistant" else "Human"
  }

  /** One history line `\n\n<Speaker>: <text>`. */
  function HistoryLine(m: Entry, botUserId: string): string {
    "\n\n" + Speaker(m, botUserId) + ": " + MentionToBot(m.msg, botUserId)
  }

  /** What one message contributes to the flat history: its line, or nothing for a system message. */
  function RenderedLine(m: Entry, botUserId: string, c: Constants): string {
    if IsSystemMessage(c, m.msg) then "" else HistoryLine(m, botUserId)
  }

  /** The contribution of each message, position by position. */
  function HistoryLines(messages: seq<Entry>, botUserId: string, c: Constants): (lines: seq<string>)
    ensures |lines| == |messages|
  {
    seq(|messages|, k requires 0 <= k < |messages| => RenderedLine(messages[k], botUserId, c))
  }

  /** `''.join(parts)`. */
  function Concat(parts: seq<string>): string {
    if |parts| == 0 then "" else parts[0] + Concat(parts[1..])
  }

  /** The history lines of the non-system messages of `messages`, in order. */
  function FlatHistory(messages: seq<Entry>, botUserId: string, c: Constants): string {
    Concat(HistoryLines(messages, botUserId, c))
  }

  /** The history block of `__generate_claude_prompt`: every message but the final one. */
  function ClaudeHistory(messages: seq<Entry>, botUserId: string, c: Constants): string {
    if |messages| == 0 then "" else FlatHistory(messages[..|messages| - 1], botUserId, c)
  }

  /** `__get_assistant_prompt`: only the `claude` family has a template; any other gives "". */
  function AssistantPrompt(family: string, initialPrompt: string, history: string, userInput: string): string {
    if family == "claude" then
      "Human:" + initialPrompt
      + "\n\nThe conversation history is given below for context.\n<conversation_history>\n"
      + history
      + "\n</conversation_history>\n\nHuman: " + userInput + "\n\nAssistant:\n"
    else ""
  }

  /** `__get_passthrough_prompt`: the bare template without an initial prompt. */
  function PassthroughPrompt(family: string, history: string, userInput: string): string {
    if family == "claude" then "Human:\n" + history + "\nHuman: " + userInput + "\nAssistant:\n"
    else ""
  }

  /** `__generate_claude_prompt`: `None` for a mode other than `assistant` or `passthrough`. */
  function GenerateClaudePrompt(messages: seq<Entry>, botUserId: string, mode: string, c: Constants): (r: Option<string>)
    ensures r.Some? <==> mode == "assistant" || mode == "passthrough"
  {
    var history := ClaudeHistory(messages, botUserId, c);
    var lastMessage := LastMessage(messages, botUserId);
    if mode == "assistant" then Some(AssistantPrompt("claude", c.assistantPrompt, history, lastMessage))
    else if mode == "passthrough" then Some(PassthroughPrompt("claude", history, lastMessage))
    else None
  }

  lemma {:induction false} ConcatAppend(x: seq<string>, y: seq<string>)
    ensures Concat(x + y) == Concat(x) + Concat(y)
    decreases |x|
  {
    if |x| == 0 {
      assert x + y == y;
    } else {
      ConcatAppend(x[1..], y);
      assert (x + y)[1..] == x[1..] + y;
    }
  }

  /** The history of a concatenation is the concatenation of the histories. */
  lemma {:induction false} FlatHistoryAppend(a: seq<Entry>, b: seq<Entry>, botUserId: string, c: Constants)
    ensures FlatHistory(a + b, botUserId, c) == FlatHistory(a, botUserId, c) + FlatHistory(b, botUserId, c)
  {
    HistoryLinesAppend(a, b, botUserId, c);
    ConcatAppend(HistoryLines(a, botUserId, c), HistoryLines(b, botUserId, c));
  }

  lemma HistoryLinesAppend(a: seq<Entry>, b: seq<Entry>, botUserId: string, c: Constants)
    ensures HistoryLines(a + b, botUserId, c) == HistoryLines(a, botUserId, c) + HistoryLines(b, botUserId, c)
  {
    var x := HistoryLines(a + b, botUserId, c);
    var la, lb := HistoryLines(a, botUserId, c), HistoryLines(b, botUserId, c);
    forall k | 0 <= k < |x|
      ensures x[k] == (la + lb)[k]
    {
      if k < |a| {
        var m := a[k];
        assert (a + b)[k] == m;
        assert x[k] == RenderedLine(m, botUserId, c) == la[k];
      } else {
        var m := b[k - |a|];
        assert (a + b)[k] == m;
        assert x[k] == RenderedLine(m, botUserId, c) == lb[k - |a|];
      }
    }
  }

  /**
   * The flat history is `messages[0 .. len-2]` rendered line by line, so the
   * final list element never appears in it, whatever it holds.
   */
  lemma {:induction false} FinalMessageNotInHistory(messages: seq<Entry>, x: Entry, y: Entry, botUserId: string, c: Constants)
    ensures ClaudeHistory(messages + [x], botUserId, c) == FlatHistory(messages, botUserId, c)
    ensures ClaudeHistory(messages + [x], botUserId, c) == ClaudeHistory(messages + [y], botUserId, c)
  {
    assert (messages + [x])[..|messages|] == messages;
    assert (messages + [y])[..|messages|] == messages;
  }

  /**
   * A non-system message adds exactly its own line, `\n\n` + `Assistant` or
   * `Human` + `: ` + its text with the mention replaced; a system message
   * adds nothing.
   */
  lemma {:induction false} FlatHistoryOfOneMessage(m: Entry, botUserId: string, c: Constants)
    ensures IsSystemMessage(c, m.msg) ==> FlatHistory([m], botUserId, c) == ""
    ensures !IsSystemMessage(c, m.msg) ==>
              FlatHistory([m], botUserId, c)
              == "\n\n" + (if m.user == botUserId then "Assistant" else "Human") + ": " + MentionToBot(m.msg, botUserId)
  {
    var line := RenderedLine(m, botUserId, c);
    assert HistoryLines([m], botUserId, c) == [line];
    assert [line][1..] == [];
    assert Concat([line]) == line + Concat([]);
  }

  // ---------------------------------------------------------------------
  // Claude v3 role/content list
  // ---------------------------------------------------------------------

  datatype Role = User | Assistant

  function Opposite(r: Role): Role {
    if r == User then Assistant else User
  }

  /** The role name as sent to the backend. */
  function RoleName(r: Role): string {
    if r == User then "user" else "assistant"
  }

  /** One `{"role", "content"}` entry. */
  datatype Turn = Turn(role: Role, content: string)

  const PLACEHOLDER_CONTENT: string := "-"

  function RoleOf(m: Entry, botUserId: string): (r: Role)
    ensures r == Assistant <==> m.user == botUserId
  {
    if m.user == botUserId then Assistant else User
  }

  /** The entry of a non-system message: its stripped text with the mention replaced. */
  function ToTurn(m: Entry, botUserId: string): Turn {
    Turn(RoleOf(m, botUserId), MentionToBot(Strip(m.msg), botUserId))
  }

  /** What one message contributes to the v3 list: its entry, or nothing for a system message. */
  function MessageTurn(m: Entry, botUserId: string, c: Constants): Option<Turn> {
    if IsSystemMessage(c, m.msg) then None else Some(ToTurn(m, botUserId))
  }

  /** The contribution of each message, position by position. */
  function TurnOptions(messages: seq<Entry>, botUserId: string, c: Constants): (r: seq<Option<Turn>>)
    ensures |r| == |messages|
  {
    seq(|messages|, k requires 0 <= k < |messages| => MessageTurn(messages[k], botUserId, c))
  }

  /** The present values of `opts`, in order. */
  function Somes<T>(opts: seq<Option<T>>): (r: seq<T>)
    ensures |r| <= |opts|
  {
    if |opts| == 0 then []
    else (if opts[0].Some? then [opts[0].value] else []) + Somes(opts[1..])
  }

  /** The entries of the non-system messages, in order. */
  function RealTurns(messages: seq<Entry>, botUserId: string, c: Constants): (r: seq<Turn>)
    ensures |r| <= |messages|
  {
    Somes(TurnOptions(messages, botUserId, c))
  }

  /** An entry of the fixed-up list, tagged with whether it was inserted. */
  datatype Slot = Real(turn: Turn) | Placeholder(turn: Turn)

  /** The placeholder needed before `t` when the previous speaker was `prev`. */
  function Gap(prev: Option<Role>, t: Turn): (g: seq<Slot>)
    ensures |g| <= 1
  {
    if prev == Some(t.role) then [Placeholder(Turn(Opposite(t.role), PLACEHOLDER_CONTENT))] else []
  }

  /**
   * The alternation fix-up: before a turn whose speaker equals the previous
   * speaker, a placeholder turn of the other speaker with content `-` is
   * inserted.
   */
  function Fill(prev: Option<Role>, turns: seq<Turn>): (r: seq<Slot>)
    decreases |turns|
  {
    if |turns| == 0 then []
    else Gap(prev, turns[0]) + [Real(turns[0])] + Fill(Some(turns[0].role), turns[1..])
  }

  function TurnsOf(slots: seq<Slot>): (r: seq<Turn>)
    ensures |r| == |slots|
    ensures forall j :: 0 <= j < |slots| ==> r[j] == slots[j].turn
  {
    if |slots| == 0 then [] else [slots[0].turn] + TurnsOf(slots[1..])
  }

  /** The turns of the real (not inserted) entries, in order. */
  function RealsOf(slots: seq<Slot>): seq<Turn> {
    if |slots| == 0 then []
    else (if slots[0].Real? then [slots[0].turn] else []) + RealsOf(slots[1..])
  }

  /** The number of turns whose speaker equals the one before them (`prev` before the first). */
  function SameSpeakerPairs(prev: Option<Role>, turns: seq<Turn>): nat
    decreases |turns|
  {
    if |turns| == 0 then 0
    else (if prev == Some(turns[0].role) then 1 else 0) + SameSpeakerPairs(Some(turns[0].role), turns[1..])
  }

  /** `__generate_claude_v3_prompt` as a composition: filter, convert, fix up. */
  function ClaudeV3History(messages: seq<Entry>, botUserId: string, c: Constants): seq<Turn> {
    TurnsOf(Fill(None, RealTurns(messages, botUserId, c)))
  }

  ghost predicate Alternates(turns: seq<Turn>) {
    forall j :: 0 <= j < |turns| - 1 ==> turns[j].role != turns[j + 1].role
  }

  lemma {:induction false} RealsOfAppend(a: seq<Slot>, b: seq<Slot>)
    ensures RealsOf(a + b) == RealsOf(a) + RealsOf(b)
    decreases |a|
  {
    if |a| == 0 {
      assert a + b == b;
    } else {
      RealsOfAppend(a[1..], b);
      assert (a + b)[1..] == a[1..] + b;
    }
  }

  /** The real entries of the fixed-up list are exactly the input turns, in order. */
  lemma {:induction false} FillKeepsRealTurns(prev: Option<Role>, turns: seq<Turn>)
    ensures RealsOf(Fill(prev, turns)) == turns
    decreases |turns|
  {
    if |turns| > 0 {
      var g := Gap(prev, turns[0]);
      FillKeepsRealTurns(Some(turns[0].role), turns[1..]);
      RealsOfAppend(g + [Real(turns[0])], Fill(Some(turns[0].role), turns[1..]));
      RealsOfAppend(g, [Real(turns[0])]);
      assert RealsOf(g) == [];
      assert [turns[0]] + turns[1..] == turns;
    }
  }

  /** The fix-up adds one placeholder per same-speaker pair. */
  lemma {:induction false} FillLength(prev: Option<Role>, turns: seq<Turn>)
    ensures |Fill(prev, turns)| == |turns| + SameSpeakerPairs(prev, turns)
    decreases |turns|
  {
    if |turns| > 0 {
      FillLength(Some(turns[0].role), turns[1..]);
    }
  }

  /**
   * No two adjacent entries of the fixed-up list share a speaker, and the
   * first one differs from `prev`.
   */
  lemma {:induction false} FillAlternates(prev: Option<Role>, turns: seq<Turn>)
    ensures Alternates(TurnsOf(Fill(prev, turns)))
    ensures |turns| > 0 && prev.Some? ==> Fill(prev, turns)[0].turn.role != prev.value
    decreases |turns|
  {
    if |turns| > 0 {
      var t := turns[0];
      var g := Gap(prev, t);
      var rest := Fill(Some(t.role), turns[1..]);
      FillAlternates(Some(t.role), turns[1..]);
      var f := Fill(prev, turns);
      assert f == g + [Real(t)] + rest;
      forall j | 0 <= j < |f| - 1
        ensures f[j].turn.role != f[j + 1].turn.role
      {
        var n := |g| + 1;
        if j >= n {
          assert f[j] == rest[j - n] && f[j + 1] == rest[j - n + 1];
          assert TurnsOf(rest)[j - n] == rest[j - n].turn;
        } else if j == n - 1 {
          assert f[j] == Real(t);
          assert |turns| > 1 && f[j + 1] == rest[0];
        } else {
          assert j == 0 && |g| == 1 && f[0] == g[0] && f[1] == Real(t);
        }
      }
    }
  }

  /**
   * Every inserted entry has content `-`, is followed by a real entry, and
   * has the speaker opposite to that entry's; and it is inserted only where
   * the previous speaker (the entry before it, or `prev` at the start) is
   * the same as the next one's.
   */
  lemma {:induction false} FillPlaceholders(prev: Option<Role>, turns: seq<Turn>)
    ensures forall j :: 0 <= j < |Fill(prev, turns)| && Fill(prev, turns)[j].Placeholder? ==>
              && Fill(prev, turns)[j].turn.content == PLACEHOLDER_CONTENT
              && j + 1 < |Fill(prev, turns)|
              && Fill(prev, turns)[j + 1].Real?
              && Fill(prev, turns)[j].turn.role == Opposite(Fill(prev, turns)[j + 1].turn.role)
              && (if j == 0 then prev == Some(Fill(prev, turns)[1].turn.role)
                  else Fill(prev, turns)[j - 1].turn.role == Fill(prev, turns)[j + 1].turn.role)
    decreases |turns|
  {
    if |turns| > 0 {
      var t := turns[0];
      var g := Gap(prev, t);
      var rest := Fill(Some(t.role), turns[1..]);
      FillPlaceholders(Some(t.role), turns[1..]);
      var f := Fill(prev, turns);
      var n := |g| + 1;
      assert f == g + [Real(t)] + rest;
      forall j | 0 <= j < |f| && f[j].Placeholder?
        ensures f[j].turn.content == PLACEHOLDER_CONTENT && j + 1 < |f| && f[j + 1].Real?
        ensures f[j].turn.role == Opposite(f[j + 1].turn.role)
        ensures if j == 0 then prev == Some(f[1].turn.role) else f[j - 1].turn.role == f[j + 1].turn.role
      {
        if j < n {
          assert j == 0 && |g| == 1 && f[0] == g[0] && f[1] == Real(t);
        } else {
          var i := j - n;
          assert f[j] == rest[i] && rest[i].Placeholder?;
          assert f[j + 1] == rest[i + 1];
          if i == 0 {
            assert f[j - 1] == Real(t);
          } else {
            assert f[j - 1] == rest[i - 1];
          }
        }
      }
    }
  }

  /** The two examples of the fix-up: `[user, user]` gains a placeholder, `[user, assistant, user]` is unchanged. */
  lemma {:induction false} FillExamples(a: string, b: string, c: string)
    ensures TurnsOf(Fill(None, [Turn(User, a), Turn(User, b)]))
         == [Turn(User, a), Turn(Assistant, "-"), Turn(User, b)]
    ensures TurnsOf(Fill(None, [Turn(User, a), Turn(Assistant, b), Turn(User, c)]))
         == [Turn(User, a), Turn(Assistant, b), Turn(User, c)]
  {
    var two := [Turn(User, a), Turn(User, b)];
    assert two[1..] == [Turn(User, b)];
    assert Fill(Some(User), [Turn(User, b)]) == [Placeholder(Turn(Assistant, "-")), Real(Turn(User, b))];
    assert Fill(None, two) == [Real(Turn(User, a)), Placeholder(Turn(Assistant, "-")), Real(Turn(User, b))];
    var three := [Turn(User, a), Turn(Assistant, b), Turn(User, c)];
    assert three[1..] == [Turn(Assistant, b), Turn(User, c)];
    assert three[1..][1..] == [Turn(User, c)];
    assert Fill(Some(Assistant), [Turn(User, c)]) == [Real(Turn(User, c))];
    assert Fill(Some(User), three[1..]) == [Real(Turn(Assistant, b)), Real(Turn(User, c))];
    assert Fill(None, three) == [Real(Turn(User, a)), Real(Turn(Assistant, b)), Real(Turn(User, c))];
  }

  /** The last speaker after a run of turns starting from `prev`. */
  function LastSpeaker(prev: Option<Role>, turns: seq<Turn>): Option<Role> {
    if |turns| == 0 then prev else Some(turns[|turns| - 1].role)
  }

  lemma {:induction false} FillAppend(prev: Option<Role>, turns: seq<Turn>, t: Turn)
    ensures Fill(prev, turns + [t]) == Fill(prev, turns) + Gap(LastSpeaker(prev, turns), t) + [Real(t)]
    decreases |turns|
  {
    if |turns| == 0 {
      assert turns + [t] == [t];
    } else {
      assert (turns + [t])[0] == turns[0] && (turns + [t])[1..] == turns[1..] + [t];
      FillAppend(Some(turns[0].role), turns[1..], t);
      assert LastSpeaker(Some(turns[0].role), turns[1..]) == LastSpeaker(prev, turns);
    }
  }

  lemma {:induction false} TurnsOfAppend(a: seq<Slot>, b: seq<Slot>)
    ensures TurnsOf(a + b) == TurnsOf(a) + TurnsOf(b)
  {
  }

  lemma {:induction false} SomesAppend<T>(x: seq<Option<T>>, y: seq<Option<T>>)
    ensures Somes(x + y) == Somes(x) + Somes(y)
    decreases |x|
  {
    if |x| == 0 {
      assert x + y == y;
    } else {
      SomesAppend(x[1..], y);
      assert (x + y)[0] == x[0];
      assert (x + y)[1..] == x[1..] + y;
      var head := if x[0].Some? then [x[0].value] else [];
      assert Somes(x + y) == head + Somes(x[1..] + y);
      assert Somes(x) == head + Somes(x[1..]);
      AppendAssociates(head, Somes(x[1..]), Somes(y));
    }
  }

  lemma TurnOptionsAppend(a: seq<Entry>, b: seq<Entry>, botUserId: string, c: Constants)
    ensures TurnOptions(a + b, botUserId, c) == TurnOptions(a, botUserId, c) + TurnOptions(b, botUserId, c)
  {
    var x := TurnOptions(a + b, botUserId, c);
    var y := TurnOptions(a, botUserId, c) + TurnOptions(b, botUserId, c);
    forall k | 0 <= k < |x|
      ensures x[k] == y[k]
    {
      if k < |a| {
        assert (a + b)[k] == a[k];
      } else {
        assert (a + b)[k] == b[k - |a|];
      }
    }
  }

  /** The entries of a concatenation are the concatenation of the entries. */
  lemma {:induction false} RealTurnsConcat(a: seq<Entry>, b: seq<Entry>, botUserId: string, c: Constants)
    ensures RealTurns(a + b, botUserId, c) == RealTurns(a, botUserId, c) + RealTurns(b, botUserId, c)
  {
    TurnOptionsAppend(a, b, botUserId, c);
    SomesAppend(TurnOptions(a, botUserId, c), TurnOptions(b, botUserId, c));
  }

  lemma {:induction false} RealTurnsOfOne(m: Entry, botUserId: string, c: Constants)
    ensures RealTurns([m], botUserId, c) == (if IsSystemMessage(c, m.msg) then [] else [ToTurn(m, botUserId)])
  {
    var o := MessageTurn(m, botUserId, c);
    assert TurnOptions([m], botUserId, c) == [o];
    assert [o][1..] == [];
    assert Somes([o]) == (if o.Some? then [o.value] else []) + Somes([]);
  }

  lemma {:induction false} RealTurnsAppend(messages: seq<Entry>, m: Entry, botUserId: string, c: Constants)
    ensures RealTurns(messages + [m], botUserId, c)
         == RealTurns(messages, botUserId, c) + (if IsSystemMessage(c, m.msg) then [] else [ToTurn(m, botUserId)])
  {
    RealTurnsConcat(messages, [m], botUserId, c);
    RealTurnsOfOne(m, botUserId, c);
  }

  /**
   * `__generate_claude_v3_prompt` as written: one pass over the messages
   * tracking the current speaker.  Its result is the fix-up of the non-system
   * messages' entries, so it alternates strictly and has one entry per
   * non-system message plus one per same-speaker pair.
   */
  method GenerateClaudeV3Prompt(messages: seq<Entry>, botUserId: string, c: Constants) returns (history: seq<Turn>)
    ensures history == ClaudeV3History(messages, botUserId, c)
    ensures Alternates(history)
    ensures |history| == |RealTurns(messages, botUserId, c)| + SameSpeakerPairs(None, RealTurns(messages, botUserId, c))
  {
    history := [];
    var currentSpeaker: Option<Role> := None;
    var i := 0;
    while i < |messages|
      invariant 0 <= i <= |messages|
      invariant history == TurnsOf(Fill(None, RealTurns(messages[..i], botUserId, c)))
      invariant currentSpeaker == LastSpeaker(None, RealTurns(messages[..i], botUserId, c))
    {
      var msg := messages[i];
      V3StepAt(messages, i, botUserId, c);
      if !IsSystemMessage(c, msg.msg) {
        var speaker := RoleOf(msg, botUserId);
        if currentSpeaker == Some(speaker) {
          history := history + [Turn(Opposite(speaker), PLACEHOLDER_CONTENT)];
        }
        var content := MentionToBot(Strip(msg.msg), botUserId);
        history := history + [Turn(speaker, content)];
        currentSpeaker := Some(speaker);
      }
      i := i + 1;
    }
    assert messages[..|messages|] == messages;
    FillAlternates(None, RealTurns(messages, botUserId, c));
    FillLength(None, RealTurns(messages, botUserId, c));
  }

  lemma {:induction false} V3StepAt(messages: seq<Entry>, i: nat, botUserId: string, c: Constants)
    requires i < |messages|
    ensures IsSystemMessage(c, messages[i].msg) ==>
              RealTurns(messages[..i + 1], botUserId, c) == RealTurns(messages[..i], botUserId, c)
    ensures !IsSystemMessage(c, messages[i].msg) ==>
              LastSpeaker(None, RealTurns(messages[..i + 1], botUserId, c)) == Some(RoleOf(messages[i], botUserId))
    ensures !IsSystemMessage(c, messages[i].msg)
            && LastSpeaker(None, RealTurns(messages[..i], botUserId, c)) == Some(RoleOf(messages[i], botUserId)) ==>
              TurnsOf(Fill(None, RealTurns(messages[..i + 1], botUserId, c)))
              == TurnsOf(Fill(None, RealTurns(messages[..i], botUserId, c)))
                 + [Turn(Opposite(RoleOf(messages[i], botUserId)), PLACEHOLDER_CONTENT)]
                 + [ToTurn(messages[i], botUserId)]
    ensures !IsSystemMessage(c, messages[i].msg)
            && LastSpeaker(None, RealTurns(messages[..i], botUserId, c)) != Some(RoleOf(messages[i], botUserId)) ==>
              TurnsOf(Fill(None, RealTurns(messages[..i + 1], botUserId, c)))
              == TurnsOf(Fill(None, RealTurns(messages[..i], botUserId, c))) + [ToTurn(messages[i], botUserId)]
  {
    assert messages[..i + 1] == messages[..i] + [messages[i]];
    V3Step(messages[..i], messages[i], botUserId, c);
  }

  /** One step of the pass: what a message adds to the list and to the current speaker. */
  lemma {:induction false} V3Step(prefix: seq<Entry>, m: Entry, botUserId: string, c: Constants)
    ensures IsSystemMessage(c, m.msg) ==>
              RealTurns(prefix + [m], botUserId, c) == RealTurns(prefix, botUserId, c)
    ensures !IsSystemMessage(c, m.msg) ==>
              LastSpeaker(None, RealTurns(prefix + [m], botUserId, c)) == Some(RoleOf(m, botUserId))
    ensures !IsSystemMessage(c, m.msg)
            && LastSpeaker(None, RealTurns(prefix, botUserId, c)) == Some(RoleOf(m, botUserId)) ==>
              TurnsOf(Fill(None, RealTurns(prefix + [m], botUserId, c)))
              == TurnsOf(Fill(None, RealTurns(prefix, botUserId, c)))
                 + [Turn(Opposite(RoleOf(m, botUserId)), PLACEHOLDER_CONTENT)]
                 + [ToTurn(m, botUserId)]
    ensures !IsSystemMessage(c, m.msg)
            && LastSpeaker(None, RealTurns(prefix, botUserId, c)) != Some(RoleOf(m, botUserId)) ==>
              TurnsOf(Fill(None, RealTurns(prefix + [m], botUserId, c)))
              == TurnsOf(Fill(None, RealTurns(prefix, botUserId, c))) + [ToTurn(m, botUserId)]
  {
    var before := RealTurns(prefix, botUserId, c);
    var t := ToTurn(m, botUserId);
    RealTurnsAppend(prefix, m, botUserId, c);
    if !IsSystemMessage(c, m.msg) {
      assert RealTurns(prefix + [m], botUserId, c) == before + [t];
      var g := Gap(LastSpeaker(None, before), t);
      FillAppend(None, before, t);
      TurnsOfAppend(Fill(None, before) + g, [Real(t)]);
      TurnsOfAppend(Fill(None, before), g);
      assert TurnsOf([Real(t)]) == [t];
      if LastSpeaker(None, before) == Some(t.role) {
        assert TurnsOf(g) == [Turn(Opposite(t.role), PLACEHOLDER_CONTENT)];
      } else {
        assert g == [];
      }
    }
  }

  /**
   * A system message contributes nothing to either renderer: removing it
   * changes neither the flat history nor the v3 list.
   */
  lemma {:induction false} SystemMessageContributesNothing(before: seq<Entry>, m: Entry, after: seq<Entry>, botUserId: string, c: Constants)
    requires IsSystemMessage(c, m.msg)
    ensures FlatHistory(before + [m] + after, botUserId, c) == FlatHistory(before + after, botUserId, c)
    ensures ClaudeV3History(before + [m] + after, botUserId, c) == ClaudeV3History(before + after, botUserId, c)
  {
    FlatHistoryAppend(before + [m], after, botUserId, c);
    FlatHistoryAppend(before, [m], botUserId, c);
    FlatHistoryAppend(before, after, botUserId, c);
    RealTurnsConcat(before + [m], after, botUserId, c);
    RealTurnsConcat(before, [m], botUserId, c);
    RealTurnsConcat(before, after, botUserId, c);
    FlatHistoryOfOneMessage(m, botUserId, c);
    RealTurnsOfOne(m, botUserId, c);
    assert FlatHistory(before + [m], botUserId, c) == FlatHistory(before, botUserId, c);
    assert RealTurns(before + [m], botUserId, c) == RealTurns(before, botUserId, c);
  }

  lemma {:induction false} SomesFrom<T>(opts: seq<Option<T>>)
    ensures forall k :: 0 <= k < |Somes(opts)| ==> exists j :: 0 <= j < |opts| && opts[j] == Some(Somes(opts)[k])
    decreases |opts|
  {
    if |opts| > 0 {
      SomesFrom(opts[1..]);
      var r := Somes(opts);
      var head := if opts[0].Some? then [opts[0].value] else [];
      var tail := Somes(opts[1..]);
      assert r == head + tail;
      forall k | 0 <= k < |r|
        ensures exists j :: 0 <= j < |opts| && opts[j] == Some(r[k])
      {
        if k < |head| {
          assert opts[0] == Some(r[k]);
        } else {
          var j :| 0 <= j < |opts[1..]| && opts[1..][j] == Some(tail[k - |head|]);
          assert opts[j + 1] == Some(r[k]);
        }
      }
    } else {
      assert Somes(opts) == [];
    }
  }

  /** `t` is the entry of some non-system message of `messages`. */
  ghost predicate EntryOfSomeMessage(t: Turn, messages: seq<Entry>, botUserId: string, c: Constants) {
    exists j :: 0 <= j < |messages| && !IsSystemMessage(c, messages[j].msg) && t == ToTurn(messages[j], botUserId)
  }

  /**
   * Every entry of the v3 list comes from a non-system message: its role is
   * `assistant` exactly when the bot wrote it and its content is the
   * message's stripped text with the mention replaced.
   */
  lemma {:induction false} RealTurnsComeFromMessages(messages: seq<Entry>, botUserId: string, c: Constants)
    ensures forall k :: 0 <= k < |RealTurns(messages, botUserId, c)| ==>
              EntryOfSomeMessage(RealTurns(messages, botUserId, c)[k], messages, botUserId, c)
  {
    var opts := TurnOptions(messages, botUserId, c);
    var r := RealTurns(messages, botUserId, c);
    SomesFrom(opts);
    forall k | 0 <= k < |r|
      ensures EntryOfSomeMessage(r[k], messages, botUserId, c)
    {
      var j :| 0 <= j < |opts| && opts[j] == Some(r[k]);
      assert opts[j] == MessageTurn(messages[j], botUserId, c);
      assert !IsSystemMessage(c, messages[j].msg) && r[k] == ToTurn(messages[j], botUserId);
    }
  }

  // ---------------------------------------------------------------------
  // Request body
  // ---------------------------------------------------------------------

  const ANTHROPIC_VERSION: string := "bedrock-2023-05-31"

  /** The JSON request body; `EmptyBody` is `{}`. */
  datatype Body =
    | EmptyBody
    | CompletionBody(prompt: Option<string>, maxTokensToSample: int, temperature: Option<real>)
    | MessagesBody(anthropicVersion: string, maxTokens: int, system: string, messages: seq<Turn>,
                   temperature: Option<real>)

  /** The payload handed to the backend: the body and the model record's routing fields. */
  datatype Payload = Payload(body: Body, modelName: string, modelId: string, accept: string, contentType: string)

  /**
   * `generate_payload`: a completion body for claude-v2 and claude-instant,
   * a messages body for claude-v3-sonet and `{}` for any other model name;
   * the routing fields are copied from the model record.
   */
  function GeneratePayload(messages: seq<Entry>, botUserId: string, model: ModelRecord, mode: string,
                           c: Constants): (p: Payload)
    ensures p.modelName == model.name && p.modelId == model.id
    ensures p.accept == model.accept && p.contentType == model.contentType
    ensures p.body == EmptyBody <==> model.name !in {"claude-v2", "claude-instant", "claude-v3-sonet"}
    ensures p.body.CompletionBody? ==> p.body.prompt == GenerateClaudePrompt(messages, botUserId, mode, c)
    ensures p.body.MessagesBody? ==> p.body.messages == ClaudeV3History(messages, botUserId, c)
    ensures p.body.MessagesBody? ==> (p.body.system == c.assistantPrompt || p.body.system == "")
    ensures p.body.MessagesBody? && mode == "assistant" ==> p.body.system == c.assistantPrompt
    ensures p.body.MessagesBody? && mode != "assistant" ==> p.body.system == ""
  {
    var body :=
      if model.name == "claude-v2" || model.name == "claude-instant" then
        CompletionBody(GenerateClaudePrompt(messages, botUserId, mode, c), model.maxTokenSample, Some(0.5))
      else if model.name == "claude-v3-sonet" then
        MessagesBody(ANTHROPIC_VERSION, model.maxTokenSample,
                     if mode == "assistant" then c.assistantPrompt else "",
                     ClaudeV3History(messages, botUserId, c), model.temperature)
      else EmptyBody;
    Payload(body, model.name, model.id, model.accept, model.contentType)
  }

  /**
   * Over the model table: the Titan and Llama 2 models get the empty body,
   * the two older Claude models a completion body and Sonnet a messages body
   * carrying its temperature 0.5 and a 750-token limit.
   */
  lemma {:induction false} PayloadShapeByModel(key: string, messages: seq<Entry>, botUserId: string, mode: string, c: Constants)
    requires key in MODEL_KEYS
    ensures GetModel(key).Some?
    ensures GeneratePayload(messages, botUserId, GetModel(key).value, mode, c).body.EmptyBody?
            <==> key == TITAN_KEY || key == LLAMA2_KEY
    ensures GeneratePayload(messages, botUserId, GetModel(key).value, mode, c).body.CompletionBody?
            <==> key == CLAUDE_V2_KEY || key == CLAUDE_INSTANT_KEY
    ensures key == SONNET_KEY ==>
              var b := GeneratePayload(messages, botUserId, GetModel(key).value, mode, c).body;
              b.MessagesBody? && b.temperature == Some(0.5) && b.maxTokens == 750
  {
  }

  /**
   * A mode other than `assistant` or `passthrough` leaves the completion
   * body's prompt `None` (JSON `null`).
   */
  lemma {:induction false} UnknownModeGivesNullPrompt(messages: seq<Entry>, botUserId: string, model: ModelRecord, mode: string, c: Constants)
    requires model.name == "claude-v2" || model.name == "claude-instant"
    requires mode != "assistant" && mode != "passthrough"
    ensures GeneratePayload(messages, botUserId, model, mode, c).body == CompletionBody(None, model.maxTokenSample, Some(0.5))
  {
  }

  /**
   * Two human messages in `assistant` mode with the flat renderer: the
   * first message is the only history line, the second is the user input,
   * and no placeholder appears (the flat renderer does no alternation
   * fix-up).
   */
  lemma {:induction false} TwoHumanMessagesFlatPrompt(hi: Entry, there: Entry, botUserId: string, c: Constants)
    requires hi.user != botUserId && there.user != botUserId
    requires !IsSystemMessage(c, hi.msg)
    ensures GenerateClaudePrompt([hi, there], botUserId, "assistant", c)
         == Some("Human:" + c.assistantPrompt
                 + "\n\nThe conversation history is given below for context.\n<conversation_history>\n"
                 + ("\n\nHuman: " + MentionToBot(hi.msg, botUserId))
                 + "\n</conversation_history>\n\nHuman: " + MentionToBot(there.msg, botUserId) + "\n\nAssistant:\n")
  {
    TwoHumanMessagesHistory(hi, there, botUserId, c);
    assert LastHumanIndex([hi, there], botUserId) == Some(1);
  }

  lemma {:induction false} TwoHumanMessagesHistory(hi: Entry, there: Entry, botUserId: string, c: Constants)
    requires hi.user != botUserId
    requires !IsSystemMessage(c, hi.msg)
    ensures ClaudeHistory([hi, there], botUserId, c) == "\n\nHuman: " + MentionToBot(hi.msg, botUserId)
  {
    assert [hi, there][..1] == [hi];
    FlatHistoryOfOneMessage(hi, botUserId, c);
  }
}
