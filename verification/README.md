# Bedrock chat relay: sequential core in Dafny

This project models the sequential logic of a Slack app that relays a conversation
to Amazon Bedrock models and streams the answer back into one Slack message.
It covers the text and record processing around the streaming relay:

- **Conversation normalisation** (`Utils`): `get_sorted_messages` cuts the history at
  the first `new-conversation` marker, drops messages that carry a `subtype`, and
  sorts the rest by timestamp with a stable sort. `validate_and_set`,
  `check_if_mentioning_bot` and `get_thread_ts` are modelled too.
- **Prompt rendering** (`PayloadGenerator`): the flat Claude transcript with its
  `assistant` and `passthrough` templates, and the Claude v3 role/content list with
  its alternation fix-up. `generate_payload` builds the body for each model.
- **Redaction** (`ComprehendHelper`): the splice that replaces disallowed entity
  spans with `<REDACTED>`, using Python's clamping slice semantics. It also covers
  the set of flagged entity types and the non-greedy, single-line
  `<function>…</function>` removal.
- **Streaming** (`BedrockHelper`):
  - redaction of the request body before it is sent;
  - the fold of the model family's stream chunks into one answer (`__generate_response`);
  - the bounded polling loop that validates, redacts, cleans and republishes the
    answer (`__update_message_until_completion`).
- **Size gates** (`RequestResponseValidator`): request and response text is measured
  by its UTF-8 length, defined in section 3 of RFC 3629 (`Utf8`).
- **State machines**: `SlackParameterValidator` (`SlackParamsValidator`) and
  `StopWatch` (`TimeUtils`) are immutable values. A failed `assert` in the source
  becomes `Err`/`Fail` carrying the assertion's message. A watch carries its
  identifier, the text of its `uuid4`, which every `StopWatch` message ends with.
- **Commands** (`CommandHelper`): mention stripping, prefix dispatch, the settings
  decision of `__save_settings`, and the `list-settings` text.
- **Tables** (`ModelHelper`, `UserValidator`): the model descriptor table and the
  user allowlist check.

Shared helpers: `Wrappers` (Option/Result/Outcome), `PyStr` (Python `str` semantics
for `strip`, `startswith`, `in`, `replace`, `split(' ')`, `join` and clamped slicing)
and `Seqs` (sequence lemmas).

External inputs are parameters:

- The PII detector is an entity list, or a function from text to entities for the
  request body.
- The Bedrock stream is a sequence of events, or an invocation failure.
- The shared response tracker, as the polling loop sees it, is one snapshot per
  poll.
- The values of `constants.py` (`SYSTEM_MESSAGES`, the PII and disclaimer tags,
  `DEFAULT_ASSISTANT_PROMPT`, `ALLOWED_COMPREHEND_PII_ENTITIES`) are the
  `Constants` record or the `allowed` set.

Behaviour modelled exactly as the code does it, including where it departs from what its names and comments suggest:

- `get_sorted_messages` keeps the messages *before* the first `new-conversation`
  entry in list order, and it never examines the last element. For
  `conversations.history`, which lists newest first, this is the part after the
  latest reset. For `conversations.replies`, which lists oldest first, it is the
  part before the first reset.
- Chunk decoding is lenient only for `claude-v3-sonet`, where a missing `delta` or
  `text` gives `""`. A missing `completion`, `outputText` or `generation` gives
  `None`, and appending it raises. An unknown model name leaves `chunk_part`
  unbound. In every such case the worker stops and `status` is never set.
- A failed streaming invocation leaves `stream` unbound, so `status` is never set.
  A response without a body also leaves `status` unset.
- Redaction offsets are Python code-point slice indices with clamping, not UTF-8
  byte offsets.
- The `.` in the function-markup pattern does not match a newline.
- `validate_and_set` ignores its `default_value`. An omitted flag with no stored
  value (`''`) is refused.

## Model

| member | source | states |
|---|---|---|
| RequestResponseValidator.ValidateRequestMessage | src/amazon_bedrock_ai_slack_app_lambda/validation/request_response_validator.py:6-15 | accepted iff the UTF-8 length is at most 20000 bytes; an error report is sent exactly when rejected |
| RequestResponseValidator.ValidateResponse | src/amazon_bedrock_ai_slack_app_lambda/validation/request_response_validator.py:18-24 | accepted iff the UTF-8 length is at most 10000 bytes; an error report is sent exactly when rejected |
| RequestResponseValidator.ResponseAcceptedImpliesRequestAccepted | src/amazon_bedrock_ai_slack_app_lambda/validation/request_response_validator.py:6-7 | any text accepted as a response is accepted as a request |
| RequestResponseValidator.ResponseGateIsPrefixClosed | src/amazon_bedrock_ai_slack_app_lambda/validation/request_response_validator.py:18-24 | every prefix of an accepted answer is accepted, so a growing answer, once rejected, stays rejected |
| RequestResponseValidator.AsciiLimitBoundary | src/amazon_bedrock_ai_slack_app_lambda/validation/request_response_validator.py:10-24 | an ASCII text of exactly the limit passes and one character more fails, for both gates |
| RequestResponseValidator.MultiByteCharactersCountByBytes | src/amazon_bedrock_ai_slack_app_lambda/validation/request_response_validator.py:11-19 | characters count by encoded bytes: 5000 three-byte characters pass the request gate and fail the response gate |
| RequestResponseValidator.RepositoryTestCases | test/validation/test_request_response_validator.py:6-25 | 3000 ASCII characters pass both gates, 30000 fail the request gate and 11000 fail the response gate |
| ModelHelper.GetModel | src/amazon_bedrock_ai_slack_app_lambda/helpers/model_helper.py:8-47 | exactly the five keys resolve; each record has 750 tokens and a JSON content type; only Sonnet has temperature 0.5; the id is the key except for Titan |
| ModelHelper.FiveModels | src/amazon_bedrock_ai_slack_app_lambda/helpers/model_helper.py:8-45 | the table has exactly five distinct keys |
| UserValidator.ValidateSlackUser | src/amazon_bedrock_ai_slack_app_lambda/validation/user_validator.py:24-31 | accepted iff the login is listed for the model or under `all`; a refusal sends exactly one error, the user text for check type `user` and the model text otherwise |
| UserValidator.UnknownModelFallsBackToAll | src/amazon_bedrock_ai_slack_app_lambda/validation/user_validator.py:24-25 | an unknown or missing model id falls back to the `all` list only |
| UserValidator.ShippedTableAcceptsOnlyTestUser | src/amazon_bedrock_ai_slack_app_lambda/helpers/allowlist.py:3-9 | with the shipped table exactly `testUser` is accepted, whatever the model; `gainanovs` is refused with the user error |
| UserValidator.AddingALoginKeepsAcceptances | src/amazon_bedrock_ai_slack_app_lambda/validation/user_validator.py:24-27 | adding a login to any list never turns an acceptance into a refusal |
| SlackParamsValidator.SetChannelId | src/amazon_bedrock_ai_slack_app_lambda/validation/slack_params_validator.py:15-16 | the channel becomes the given one and the timestamp is unchanged |
| SlackParamsValidator.SetDisclaimerTs | src/amazon_bedrock_ai_slack_app_lambda/validation/slack_params_validator.py:18-19 | the timestamp becomes the given one and the channel is unchanged |
| SlackParamsValidator.ValidateDisclaimerTs | src/amazon_bedrock_ai_slack_app_lambda/validation/slack_params_validator.py:21-24 | passes iff the timestamp equals the remembered one, else fails with the fixed text; the state is not changed |
| SlackParamsValidator.ValidateChannelId | src/amazon_bedrock_ai_slack_app_lambda/validation/slack_params_validator.py:26-29 | passes iff the channel equals the remembered one, else fails with the fixed text; the state is not changed |
| SlackParamsValidator.SetTsThenValidate | src/amazon_bedrock_ai_slack_app_lambda/validation/slack_params_validator.py:18-24 | after setting a timestamp exactly that timestamp validates and the old channel still validates |
| SlackParamsValidator.SetChannelThenValidate | src/amazon_bedrock_ai_slack_app_lambda/validation/slack_params_validator.py:15-29 | after setting a channel exactly that channel validates and the old timestamp still validates |
| SlackParamsValidator.FreshRejectsUntilSet | src/amazon_bedrock_ai_slack_app_lambda/validation/slack_params_validator.py:11-13 | a fresh validator has no channel and timestamp -1: every real channel and every Slack timestamp fails |
| SlackParamsValidator.SettersOverwriteAndCommute | src/amazon_bedrock_ai_slack_app_lambda/validation/slack_params_validator.py:15-19 | a setter keeps only its last value and the two setters commute |
| SlackParamsValidator.RepositoryTestCases | test/validation/test_slack_params_validator.py:10-30 | timestamp 123456.0 passes and its successor fails; `TEST_ID` passes and `TEST_IDSTRING` fails |
| TimeUtils.Start | src/amazon_bedrock_ai_slack_app_lambda/helpers/time_utils.py:17-23 | succeeds iff not started, recording the clock reading and returning the watch; otherwise fails with "StopWatch started already. id: " followed by the watch's identifier |
| TimeUtils.Stop | src/amazon_bedrock_ai_slack_app_lambda/helpers/time_utils.py:25-32 | succeeds iff started and not stopped; "must be started" is checked before "stopped already", each message ending in ` id: ` and the watch's identifier |
| TimeUtils.ElapsedTime | src/amazon_bedrock_ai_slack_app_lambda/helpers/time_utils.py:34-39 | defined iff both times are recorded, and then start plus elapsed equals stop; otherwise fails with the "not been recorded" message ending in ` id: ` and the identifier |
| TimeUtils.RunKeepsConsistent | src/amazon_bedrock_ai_slack_app_lambda/helpers/time_utils.py:17-39 | no call sequence stops a watch that was never started, so elapsed time is available exactly once stopped |
| TimeUtils.ElapsedIsNonnegative | src/amazon_bedrock_ai_slack_app_lambda/helpers/time_utils.py:34-38 | with a clock that never goes back, a stopped watch has a nonnegative elapsed time |
| TimeUtils.RunReadingsOrdered | src/amazon_bedrock_ai_slack_app_lambda/helpers/time_utils.py:21-31 | along a monotone clock a recorded stop is never before the recorded start |
| TimeUtils.RepositoryTestCases | test/helpers/test_time_utils.py:8-39 | start/stop gives the clock difference; elapsed before stop, stop before start, double start and double stop all fail, with the messages naming the watch |
| Utils.FindReset | src/amazon_bedrock_ai_slack_app_lambda/helpers/utils.py:10-14 | the marker is the first `new-conversation` among indices 0..len-2; the last element is never examined |
| Utils.SortByTs | src/amazon_bedrock_ai_slack_app_lambda/helpers/utils.py:23-32 | the result is ordered by timestamp and is a permutation of the input |
| Utils.GetSortedMessages | src/amazon_bedrock_ai_slack_app_lambda/helpers/utils.py:1-32 | ordered by timestamp, and a permutation of the entries of the messages without `subtype` before the marker |
| Utils.KeptEntriesComeFromPlainMessages | src/amazon_bedrock_ai_slack_app_lambda/helpers/utils.py:17-21 | every kept entry is `{ts, user, msg = text}` of a message without `subtype` |
| Utils.OutputEntriesComeFromWindow | src/amazon_bedrock_ai_slack_app_lambda/helpers/utils.py:10-30 | every output entry comes from a message without `subtype` at an index below the marker, so the marker and all after it are dropped |
| Utils.LastMessageIsNeverAMarker | src/amazon_bedrock_ai_slack_app_lambda/helpers/utils.py:11 | a `new-conversation` in the last position truncates nothing |
| Utils.FirstMarkerWins | src/amazon_bedrock_ai_slack_app_lambda/helpers/utils.py:11-19 | the cut is at the first marker, whatever markers follow |
| Utils.SortKeepsSortedInput | src/amazon_bedrock_ai_slack_app_lambda/helpers/utils.py:23 | an already ordered list is returned unchanged |
| Utils.SortIsStable | src/amazon_bedrock_ai_slack_app_lambda/helpers/utils.py:23-32 | entries with equal timestamps keep their input order |
| Utils.ValidateAndSet | src/amazon_bedrock_ai_slack_app_lambda/helpers/utils.py:48-54 | a falsy value gives the existing value; an unlisted value gives `None`; a listed value is returned |
| Utils.CheckIfMentioningBot | src/amazon_bedrock_ai_slack_app_lambda/helpers/utils.py:68-79 | true iff some `rich_text_section` element holds a `user` element with the bot's id |
| Utils.GetThreadTs | src/amazon_bedrock_ai_slack_app_lambda/helpers/utils.py:92-95 | `None` for `im`; otherwise `thread_ts` when truthy, else `parent_ts` |
| CommandHelper.Dispatch | src/amazon_bedrock_ai_slack_app_lambda/helpers/command_helper.py:43-53 | each command is chosen iff the text starts with its word; anything else is not a command; `settings` carries the tokens after the first |
| CommandHelper.MentionIsFirstToken | src/amazon_bedrock_ai_slack_app_lambda/helpers/command_helper.py:36-37 | a mention without spaces followed by a space is the first space-split token |
| CommandHelper.MentionFollowedByText | src/amazon_bedrock_ai_slack_app_lambda/helpers/command_helper.py:36-39 | removing the mention leaves the stripped text that follows it |
| CommandHelper.MentionWithoutSpaceIsNotACommand | src/amazon_bedrock_ai_slack_app_lambda/helpers/command_helper.py:36-53 | a message with the mention and no space becomes `""` and is not a command |
| CommandHelper.PrefixDispatchExamples | src/amazon_bedrock_ai_slack_app_lambda/helpers/command_helper.py:43-53 | `helpful` counts as help; `please help` is not a command |
| CommandHelper.SettingsArgumentsExample | src/amazon_bedrock_ai_slack_app_lambda/helpers/command_helper.py:88 | the settings arguments are the space-split tokens after `settings` |
| CommandHelper.SaveSettings | src/amazon_bedrock_ai_slack_app_lambda/helpers/command_helper.py:88-100 | a parse error is reported; otherwise settings are stored iff both selections are nonempty, an omitted flag keeps the stored value, and a refusal names each refused flag |
| CommandHelper.FormatSettings | src/amazon_bedrock_ai_slack_app_lambda/helpers/command_helper.py:76-77 | the listing starts with the `[SYSTEM] Your settings are:` header |
| CommandHelper.FormatSettingsAppend | src/amazon_bedrock_ai_slack_app_lambda/helpers/command_helper.py:76-77 | the listing is the header, then `key: _value_` lines joined by `\n>`, one line per item in order |
| PayloadGenerator.LastHumanIndex | src/amazon_bedrock_ai_slack_app_lambda/helpers/payload_generator.py:80-83 | the index of the latest message whose user is not the bot; none iff every message is the bot's |
| PayloadGenerator.LastMessage | src/amazon_bedrock_ai_slack_app_lambda/helpers/payload_generator.py:77-83 | the latest non-bot text with the mention replaced by `Bot`, or `""` when every message is the bot's |
| PayloadGenerator.GenerateClaudePrompt | src/amazon_bedrock_ai_slack_app_lambda/helpers/payload_generator.py:99-102 | a prompt exists iff the mode is `assistant` or `passthrough` |
| PayloadGenerator.FlatHistoryAppend | src/amazon_bedrock_ai_slack_app_lambda/helpers/payload_generator.py:86-97 | the history of a concatenation is the concatenation of the histories, so lines keep message order |
| PayloadGenerator.FinalMessageNotInHistory | src/amazon_bedrock_ai_slack_app_lambda/helpers/payload_generator.py:86-88 | the history is rendered from all messages but the last, and the last one never affects it |
| PayloadGenerator.FlatHistoryOfOneMessage | src/amazon_bedrock_ai_slack_app_lambda/helpers/payload_generator.py:90-97 | a non-system message adds `\n\n` + `Assistant`/`Human` + `: ` + its text with the mention replaced; a system message adds nothing |
| PayloadGenerator.FillKeepsRealTurns | src/amazon_bedrock_ai_slack_app_lambda/helpers/payload_generator.py:129-139 | the non-placeholder entries of the fixed-up list are exactly the input turns, in order |
| PayloadGenerator.FillLength | src/amazon_bedrock_ai_slack_app_lambda/helpers/payload_generator.py:132-138 | the list length is the number of turns plus the number of same-speaker adjacent pairs |
| PayloadGenerator.FillAlternates | src/amazon_bedrock_ai_slack_app_lambda/helpers/payload_generator.py:119-139 | no two adjacent entries share a role |
| PayloadGenerator.FillPlaceholders | src/amazon_bedrock_ai_slack_app_lambda/helpers/payload_generator.py:132-135 | a placeholder has content `-`, is followed by a real entry of the opposite role, and sits only between two entries of the same role |
| PayloadGenerator.FillExamples | src/amazon_bedrock_ai_slack_app_lambda/helpers/payload_generator.py:129-139 | `[user, user]` gains an assistant placeholder; `[user, assistant, user]` is unchanged |
| PayloadGenerator.GenerateClaudeV3Prompt | src/amazon_bedrock_ai_slack_app_lambda/helpers/payload_generator.py:105-141 | the single-pass loop computes the fix-up of the non-system messages' entries; it alternates and its length is the entry count plus the same-speaker pairs |
| PayloadGenerator.SystemMessageContributesNothing | src/amazon_bedrock_ai_slack_app_lambda/helpers/payload_generator.py:122-129 | removing a system, PII-tagged or disclaimer-tagged message changes neither the flat history nor the v3 list |
| PayloadGenerator.RealTurnsComeFromMessages | src/amazon_bedrock_ai_slack_app_lambda/helpers/payload_generator.py:129-138 | every real v3 entry comes from a non-system message; its role is `assistant` iff the bot wrote it; its content is the stripped text with the mention replaced |
| PayloadGenerator.GeneratePayload | src/amazon_bedrock_ai_slack_app_lambda/helpers/payload_generator.py:158-178 | the body is `{}` iff the model name is none of the three Claude names; routing fields are copied from the record; `system` is the assistant prompt iff mode is `assistant` |
| PayloadGenerator.PayloadShapeByModel | src/amazon_bedrock_ai_slack_app_lambda/helpers/payload_generator.py:158-170 | over the model table, Titan and Llama 2 get `{}`, the older Claude models a prompt body, and Sonnet a messages body with temperature 0.5 and 750 tokens |
| PayloadGenerator.UnknownModeGivesNullPrompt | src/amazon_bedrock_ai_slack_app_lambda/helpers/payload_generator.py:160-163 | for the older Claude models an unknown mode gives a `null` prompt |
| PayloadGenerator.TwoHumanMessagesFlatPrompt | src/amazon_bedrock_ai_slack_app_lambda/helpers/payload_generator.py:66-102 | two human messages in `assistant` mode give the template with the first message as history and the second as input |
| ComprehendHelper.FlaggedTypes | src/amazon_bedrock_ai_slack_app_lambda/helpers/comprehend_helper.py:39-42 | the flagged set is exactly the reported types that are not allowed |
| ComprehendHelper.Disallowed | src/amazon_bedrock_ai_slack_app_lambda/helpers/comprehend_helper.py:46-48 | the spliced entities are reported entities whose type is not allowed |
| ComprehendHelper.FlaggedIffSomethingReplaced | src/amazon_bedrock_ai_slack_app_lambda/helpers/comprehend_helper.py:42-51 | the flagged set is nonempty iff at least one span is replaced |
| ComprehendHelper.OnlyDisallowedMatter | src/amazon_bedrock_ai_slack_app_lambda/helpers/comprehend_helper.py:46-48 | the splice over all entities equals the splice over the disallowed ones |
| ComprehendHelper.AllowedEntityIsSkipped | src/amazon_bedrock_ai_slack_app_lambda/helpers/comprehend_helper.py:46-48 | an allowed entity anywhere in the list does not move the cursor, so its text is copied verbatim |
| ComprehendHelper.NothingDisallowedMeansUnchanged | src/amazon_bedrock_ai_slack_app_lambda/helpers/comprehend_helper.py:44-53 | with no disallowed entity the text is unchanged and nothing is flagged |
| ComprehendHelper.RedactionJoinsGaps | src/amazon_bedrock_ai_slack_app_lambda/helpers/comprehend_helper.py:44-53 | for ordered, disjoint, in-bounds spans the output is `m[0:b1] + <REDACTED> + m[e1:b2] + ... + m[ek:]` |
| ComprehendHelper.GapsAndSpansRebuildText | src/amazon_bedrock_ai_slack_app_lambda/helpers/comprehend_helper.py:44-53 | putting the removed span texts back between the kept pieces rebuilds the original, so nothing outside the spans is lost |
| ComprehendHelper.RedactedLength | src/amazon_bedrock_ai_slack_app_lambda/helpers/comprehend_helper.py:49-53 | the output length is `len(m) - sum(ei - bi) + k * len("<REDACTED>")` |
| ComprehendHelper.DetectAndRedactSplicesSpans | src/amazon_bedrock_ai_slack_app_lambda/helpers/comprehend_helper.py:39-53 | the detector's ordered disallowed entities are spliced exactly, with the stated length |
| ComprehendHelper.SingleSpanExample | src/amazon_bedrock_ai_slack_app_lambda/helpers/comprehend_helper.py:44-53 | a disallowed span at `[5, 10)` keeps `m[:5]` and `m[10:]` and flags its type |
| ComprehendHelper.FindClose | src/amazon_bedrock_ai_slack_app_lambda/helpers/comprehend_helper.py:62 | a found closing marker really occurs at the returned index, no earlier than the search start |
| ComprehendHelper.FindCloseIsShortest | src/amazon_bedrock_ai_slack_app_lambda/helpers/comprehend_helper.py:62 | the lazy body stops at the first closing marker and crosses no newline; it fails only when a newline precedes every closing marker |
| ComprehendHelper.RemoveUnwantedText | src/amazon_bedrock_ai_slack_app_lambda/helpers/comprehend_helper.py:60-63 | the markup removal never lengthens its input |
| ComprehendHelper.NoMarkupUnchanged | src/amazon_bedrock_ai_slack_app_lambda/helpers/comprehend_helper.py:60-63 | text without `<function>` is returned unchanged |
| ComprehendHelper.MarkupPairRemoved | src/amazon_bedrock_ai_slack_app_lambda/helpers/comprehend_helper.py:62 | a one-line `<function>` pair with the shortest body is removed with both markers, and the text before it is kept whenever that text holds no `<function>` of its own |
| BedrockHelper.ChunkPart | src/amazon_bedrock_ai_slack_app_lambda/helpers/bedrock_helper.py:217-226 | the part is `completion` for claude-v2/instant, `delta.text` (default `""`) for Sonnet, `outputText` for titan and `generation` for llama2; it fails for a missing field and for any other model |
| BedrockHelper.FoldIsConcatenation | src/amazon_bedrock_ai_slack_app_lambda/helpers/bedrock_helper.py:207-228 | the fold completes iff every chunk decodes, and the answer is then the in-order concatenation of the parts; chunkless events add nothing |
| BedrockHelper.FoldOnlyAppends | src/amazon_bedrock_ai_slack_app_lambda/helpers/bedrock_helper.py:228 | the answer after a prefix of the events is a prefix of the final answer |
| BedrockHelper.UnknownFamilyAppendsNothing | src/amazon_bedrock_ai_slack_app_lambda/helpers/bedrock_helper.py:219-228 | for an unknown model name nothing is appended, and the worker fails iff some event carries a chunk |
| BedrockHelper.SonnetIsLenientClaudeV2IsNot | src/amazon_bedrock_ai_slack_app_lambda/helpers/bedrock_helper.py:219-222 | a chunk without `delta` adds `""` for Sonnet, while a chunk without `completion` stops the claude-v2 worker |
| BedrockHelper.GenerateResponse | src/amazon_bedrock_ai_slack_app_lambda/helpers/bedrock_helper.py:189-230 | an error is reported iff the invocation fails; `status` is set iff the stream exists and every chunk decodes, and only after all appends; the first-chunk latency is reported iff event 1 carries a chunk |
| BedrockHelper.RedactTurns | src/amazon_bedrock_ai_slack_app_lambda/helpers/bedrock_helper.py:108-110 | every message content is replaced by its redaction, role and order kept |
| BedrockHelper.FlaggedUnion | src/amazon_bedrock_ai_slack_app_lambda/helpers/bedrock_helper.py:106-111 | the flagged set is the union of the flagged sets of the contents |
| BedrockHelper.RedactRequest | src/amazon_bedrock_ai_slack_app_lambda/helpers/bedrock_helper.py:104-117 | for the Sonnet id every content is redacted and the flags united; otherwise only the prompt is redacted; a body lacking the field raises |
| BedrockHelper.RequestRedactionByModel | src/amazon_bedrock_ai_slack_app_lambda/helpers/bedrock_helper.py:96-117 | with generated payloads and the settings key as the compared model id, Titan and Llama 2 bodies fail the prompt lookup, Sonnet always redacts, and the older Claude models redact iff the mode is known |
| BedrockHelper.PollLoop | src/amazon_bedrock_ai_slack_app_lambda/helpers/bedrock_helper.py:147-172 | the while loop computes the poll-by-poll reference definition |
| BedrockHelper.PollsStop | src/amazon_bedrock_ai_slack_app_lambda/helpers/bedrock_helper.py:149-158 | the loop makes 1..500 polls; every poll but the last read status false and a message within the limit; the last read status true, an oversized message, or was poll 500 |
| BedrockHelper.PollsReadOnlyPolled | src/amazon_bedrock_ai_slack_app_lambda/helpers/bedrock_helper.py:149-151 | the result depends only on the snapshots actually polled |
| BedrockHelper.PublishedComeFromPolls | src/amazon_bedrock_ai_slack_app_lambda/helpers/bedrock_helper.py:154-172 | every published update is that of a polled snapshot with a nonempty message within the limit |
| BedrockHelper.FinalUpdatePublished | src/amazon_bedrock_ai_slack_app_lambda/helpers/bedrock_helper.py:149-172 | unless the loop ended on the size error, a nonempty message read at the last poll is the last update published |
| BedrockHelper.PollsShape | src/amazon_bedrock_ai_slack_app_lambda/helpers/bedrock_helper.py:147-172 | at most one action per poll; the loop returns `False` iff the size error occurs, and then only as the last action |
| BedrockHelper.UpdateMessageUntilCompletion | src/amazon_bedrock_ai_slack_app_lambda/helpers/bedrock_helper.py:139-172 | between 1 and 500 polls, at most one action each; returns `False` exactly when the size error was emitted |
| BedrockHelper.UpdateStopsAtCompletion | src/amazon_bedrock_ai_slack_app_lambda/helpers/bedrock_helper.py:149-158 | the loop stops at the first status read true or oversized message, else after 500 polls |
| BedrockHelper.UpdateDeliversFinalMessage | src/amazon_bedrock_ai_slack_app_lambda/helpers/bedrock_helper.py:149-172 | the final nonempty message is published last, unless the size error ended the loop |
| BedrockHelper.UpdatePublishesPolledMessages | src/amazon_bedrock_ai_slack_app_lambda/helpers/bedrock_helper.py:154-172 | each update publishes a polled nonempty message within 10000 bytes, redacted and then stripped of function markup |

## Left out

- Threads, `time.sleep` and the unsynchronised `ResponseTracker`: concurrency is not modelled. The polling loop reads a given sequence of snapshots, one per poll, each holding the status and message it reads and the detector's answer for that message.
- Boto3 calls to Bedrock, Comprehend, CloudWatch, DynamoDB and Secrets Manager, and all Slack HTTP: these are inputs (the event sequence, the entity lists) or emitted actions (`Published`, `TooLarge`, error texts). Metrics calls are not modelled beyond the first-chunk flag.
- JSON `dumps`/`loads`: bodies and chunks are datatypes. `float(ts)` is an integer sort key.
- The argparse parser is a function from the argument tokens to an optional model/mode pair or a parse error. The help text of `__help_command` and the texts of error_message_helper.py are not modelled.
- handler_main.py, `__init__.py`, logging.py, `invoke_bedrock` (non-streaming, used only for testing) and the DynamoDB settings store are not modelled.
- The values of constants.py are not part of this model. `SYSTEM_MESSAGES`, the PII and disclaimer tags, `DEFAULT_ASSISTANT_PROMPT`, `ALLOWED_COMPREHEND_PII_ENTITIES` and `AVAILABLE_MODELS`/`AVAILABLE_MODES` are parameters. `UPDATE_TIME_DELAY_SECONDS` only paces the loop and is dropped.
- TimeUtils.ElapsedTime: the clock is an abstract integer in milliseconds, so the float conversion `total_seconds() * 1000` and `datetime.now` are not modelled. The identifier is a given text: `uuid.uuid4()` and the creation log line are not modelled.
- Timestamps compared by the Slack parameter validator are numbers or texts. Python `==` between a number and a text is false, and other value types are not modelled.
- BedrockHelper.UpdateMessageUntilCompletion: it requires one snapshot for each of the 500 possible polls; snapshots after the loop stops are never read.
- A chunk without `bytes` and undecodable chunk bytes are not modelled; a chunk is its parsed JSON value.
- A history message without `subtype` that lacks `ts`, `user` or `text` makes `get_sorted_messages` raise `KeyError`, and a `ts` that `float` cannot parse raises `ValueError`. A `RawMessage` always has the three fields and an integer `ts`, so these raising paths are not modelled.
- A text holding a lone surrogate makes `encode('utf-8')` raise `UnicodeEncodeError` in both size gates. A Dafny `char` is a Unicode scalar value and cannot be a surrogate, so that raising path is not modelled.
