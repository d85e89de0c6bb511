/**
 * The decisions of helpers/command_helper.py: removing the leading bot
 * mention, dispatching on the command prefix, choosing what
 * `settings --model-id … --mode …` stores, and the text of
 * `list-settings`.  The argument parser and the settings store are
 * inputs.
 */
module CommandHelper {
  import opened Wrappers
  import opened PyStr
  import Utils
  import PayloadGenerator

  // ---------------------------------------------------------------------
  // Mention stripping and dispatch
  // ---------------------------------------------------------------------

  /**
   * The message with a leading `<@bot>` mention removed: the space-split
   * tokens after the first, joined by spaces and stripped, or "" when
   * there is no space; a message not starting with the mention is kept.
   */
  function StripMention(message: string, botUserId: string): string {
    if StartsWith(message, PayloadGenerator.Mention(botUserId)) then
      var parts := Split(message, ' ');
      if |parts| > 1 then Strip(Join(parts[1..], " ")) else ""
    else message
  }

  /** The four commands, `settings` with its arguments. */
  datatype Command = Help | Settings(arguments: seq<string>) | ListSettings | NewConversation

  /** The arguments of `settings`: the space-split tokens after the first. */
  function SettingsArguments(message: string): seq<string> {
    Split(message, ' ')[1..]
  }

  /**
   * Dispatch on the command prefix; anything else is not a command.  The
   * four prefixes start with different letters, so their order does not
   * matter.
   */
  function Dispatch(message: string): (r: Option<Command>)
    ensures r == Some(Help) <==> StartsWith(message, "help")
    ensures r.Some? && r.value.Settings? <==> StartsWith(message, "settings")
    ensures r.Some? && r.value.Settings? ==> r.value.arguments == SettingsArguments(message)
    ensures r == Some(ListSettings) <==> StartsWith(message, "list-settings")
    ensures r == Some(NewConversation) <==> StartsWith(message, "new-conversation")
  {
    PrefixesExclude(message);
    if StartsWith(message, "help") then Some(Help)
    else if StartsWith(message, "settings") then Some(Settings(SettingsArguments(message)))
    else if StartsWith(message, "list-settings") then Some(ListSettings)
    else if StartsWith(message, "new-conversation") then Some(NewConversation)
    else None
  }

  /** A message starts with at most one of the four command words. */
  lemma PrefixesExclude(message: string)
    ensures StartsWith(message, "help") ==> message[0] == 'h'
    ensures StartsWith(message, "settings") ==> message[0] == 's'
    ensures StartsWith(message, "list-settings") ==> message[0] == 'l'
    ensures StartsWith(message, "new-conversation") ==> message[0] == 'n'
  {
  }

  /** `handle_command`: the command the message asks for, or `None` when it is not one. */
  function HandleCommand(message: string, botUserId: string): Option<Command> {
    Dispatch(StripMention(message, botUserId))
  }

  /** A mention that contains no space is the first token of a message it starts. */
  lemma {:induction false} MentionIsFirstToken(botUserId: string, rest: string)
    requires ' ' !in botUserId
    ensures Split(PayloadGenerator.Mention(botUserId) + " " + rest, ' ')
         == [PayloadGenerator.Mention(botUserId)] + Split(rest, ' ')
  {
    var m := PayloadGenerator.Mention(botUserId);
    var s := m + " " + rest;
    assert ' ' !in m by {
      assert m == "<@" + botUserId + ">";
      forall k | 0 <= k < |m| ensures m[k] != ' ' {
        if 2 <= k < 2 + |botUserId| {
          assert m[k] == botUserId[k - 2];
        }
      }
    }
    assert s[|m|] == ' ' && s[..|m|] == m;
    assert forall k :: 0 <= k < |m| ==> s[k] == m[k];
    assert s[..|m| + 1][|m|] == ' ';
    assert s[|m| + 1..] == rest;
  }

  /**
   * A mention followed by a space and text leaves exactly that text,
   * stripped: the tokens after the mention join back into the text.
   */
  lemma MentionFollowedByText(botUserId: string, rest: string)
    requires ' ' !in botUserId
    ensures StripMention(PayloadGenerator.Mention(botUserId) + " " + rest, botUserId) == Strip(rest)
  {
    var m := PayloadGenerator.Mention(botUserId);
    MentionIsFirstToken(botUserId, rest);
    assert StartsWith(m + " " + rest, m);
    var parts := Split(m + " " + rest, ' ');
    assert parts[1..] == Split(rest, ' ');
    JoinSplit(rest, ' ');
  }

  /**
   * A message that starts with the mention and has no space is empty once
   * the mention is removed, so a bare mention is not a command.
   */
  lemma MentionWithoutSpaceIsNotACommand(message: string, botUserId: string)
    requires StartsWith(message, PayloadGenerator.Mention(botUserId)) && ' ' !in message
    ensures StripMention(message, botUserId) == ""
    ensures HandleCommand(message, botUserId).None?
  {
    assert Split(message, ' ') == [message];
  }

  /**
   * Dispatch looks at the prefix only: "helpful" asks for help, and text
   * that merely contains a command word is not a command.
   */
  lemma PrefixDispatchExamples()
    ensures Dispatch("helpful") == Some(Help)
    ensures Dispatch("please help").None?
  {
    assert StartsWith("helpful", "help");
    assert "please help"[0] == 'p';
  }

  /** The settings arguments are the tokens after the command word. */
  lemma SettingsArgumentsExample()
    ensures Dispatch("settings --mode assistant") == Some(Settings(["--mode", "assistant"]))
  {
    var m := "settings --mode assistant";
    assert StartsWith(m, "settings");
    var parts := ["settings", "--mode", "assistant"];
    assert Join(parts[2..], " ") == "assistant";
    assert Join(parts[1..], " ") == "--mode assistant";
    assert Join(parts, " ") == m;
    SplitJoin(parts, ' ');
  }

  // ---------------------------------------------------------------------
  // Saving settings
  // ---------------------------------------------------------------------

  /** The parsed `--model-id` and `--mode` flags; an omitted flag is `None`. */
  datatype SettingsArgs = SettingsArgs(modelId: Option<string>, mode: Option<string>)

  /** What `__save_settings` does: report the parse error, report the invalid values, or store the selection. */
  datatype SaveDecision =
    | ParseFailed(error: string)
    | Invalid(invalidModelId: Option<string>, invalidMode: Option<string>)
    | Store(modelId: string, mode: string)

  /** `settings.get(key, '')`. */
  function StoredOr(stored: map<string, string>, key: string): string {
    if key in stored then stored[key] else ""
  }

  /** A flag value the selection accepts: a listed value, or, when omitted or empty, a nonempty stored value. */
  predicate Selectable(value: Option<string>, available: seq<string>, storedValue: string) {
    if Utils.Falsy(value) then storedValue != "" else value.value in available
  }

  /**
   * The decision of `__save_settings` for the parse of the message's
   * arguments and the stored settings: both selections must be nonempty to
   * store anything; a refusal names each flag that was refused (`None` for
   * an omitted one); an omitted flag keeps the stored value.
   */
  function SaveSettings(message: string, parse: seq<string> -> Result<SettingsArgs, string>,
                        availableModels: seq<string>, availableModes: seq<string>,
                        defaultModel: string, defaultMode: string, stored: map<string, string>): (r: SaveDecision)
    ensures r.ParseFailed? <==> parse(SettingsArguments(message)).Err?
    ensures var parsed := parse(SettingsArguments(message));
            parsed.Ok? ==>
              var args := parsed.value;
              var modelOk := Selectable(args.modelId, availableModels, StoredOr(stored, "model_id"));
              var modeOk := Selectable(args.mode, availableModes, StoredOr(stored, "mode"));
              && (r.Store? <==> modelOk && modeOk)
              && (r.Invalid? ==> r.invalidModelId == (if modelOk then None else args.modelId)
                                 && r.invalidMode == (if modeOk then None else args.mode))
              && (r.Store? ==> r.modelId == (if Utils.Falsy(args.modelId) then StoredOr(stored, "model_id") else args.modelId.value)
                               && r.mode == (if Utils.Falsy(args.mode) then StoredOr(stored, "mode") else args.mode.value))
  {
    var parsed := parse(SettingsArguments(message));
    if parsed.Err? then ParseFailed(parsed.error)
    else
      var args := parsed.value;
      var model := Utils.ValidateAndSet(args.modelId, availableModels, defaultModel, Some(StoredOr(stored, "model_id")));
      var mode := Utils.ValidateAndSet(args.mode, availableModes, defaultMode, Some(StoredOr(stored, "mode")));
      if Utils.Falsy(model) || Utils.Falsy(mode) then
        Invalid(if Utils.Falsy(model) then args.modelId else None, if Utils.Falsy(mode) then args.mode else None)
      else Store(model.value, mode.value)
  }

  // ---------------------------------------------------------------------
  // Listing settings
  // ---------------------------------------------------------------------

  const SETTINGS_HEADER: string := "[SYSTEM] Your settings are:\n>"
  const SETTINGS_SEPARATOR: string := "\n>"
  const NEW_CONVERSATION_TEXT: string := "[SYSTEM] Starting new conversation. Previous messages will be ignored."

  /** One listed setting: `key: _value_`. */
  function SettingLine(item: (string, string)): string {
    item.0 + ": _" + item.1 + "_"
  }

  /** The listed line of each item. */
  function SettingLines(items: seq<(string, string)>): (r: seq<string>)
    ensures |r| == |items| && forall i :: 0 <= i < |items| ==> r[i] == SettingLine(items[i])
  {
    seq(|items|, i requires 0 <= i < |items| => SettingLine(items[i]))
  }

  /** The text `list-settings` sends for the stored items, in the store's order. */
  function FormatSettings(items: seq<(string, string)>): (r: string)
    ensures StartsWith(r, SETTINGS_HEADER)
  {
    SETTINGS_HEADER + Join(SettingLines(items), SETTINGS_SEPARATOR)
  }

  /**
   * The listing grows one line per item: no settings give the header
   * alone, one gives the header and its line, and each further item adds
   * the separator and its line at the end.
   */
  lemma {:induction false} FormatSettingsAppend(items: seq<(string, string)>, item: (string, string))
    ensures FormatSettings([]) == SETTINGS_HEADER
    ensures FormatSettings([item]) == SETTINGS_HEADER + SettingLine(item)
    ensures |items| > 0 ==> FormatSettings(items + [item]) == FormatSettings(items) + SETTINGS_SEPARATOR + SettingLine(item)
  {
    var lines := SettingLines(items);
    assert SettingLines(items + [item]) == lines + [SettingLine(item)];
    assert SettingLines([item]) == [SettingLine(item)];
    assert SettingLines([]) == [];
    if |items| > 0 {
      JoinAppend(lines, SettingLine(item), SETTINGS_SEPARATOR);
    }
  }
}
