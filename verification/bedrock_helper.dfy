/**
 * The sequential logic of helpers/bedrock_helper.py: redaction of the
 * request body before it is sent, the per-model-family fold of streamed
 * chunks into one answer (`__generate_response`), and the bounded polling
 * loop that republishes the answer (`__update_message_until_completion`).
 *
 * The backend stream, the detector and the shared tracker are inputs: the
 * stream is a sequence of events, the detector a function from text to
 * entities, and the tracker as the polling loop sees it a sequence of
 * snapshots, one per poll.
 */
module BedrockHelper {
  import opened Wrappers
  import opened ComprehendHelper
  import opened RequestResponseValidator
  import opened PayloadGenerator
  import opened ModelHelper
  import opened Seqs

  // ---------------------------------------------------------------------
  // Chunk decoding
  // ---------------------------------------------------------------------

  /** A parsed JSON value. */
  datatype Json =
    | JString(str: string)
    | JNumber(num: int)
    | JBool(b: bool)
    | JNull
    | JArray(items: seq<Json>)
    | JObject(fields: map<string, Json>)

  /** One stream event: `NoChunk` when `event.get("chunk")` is falsy, else the parsed chunk bytes. */
  datatype Event = NoChunk | Chunk(obj: Json)

  /** `obj.get(key)`; `None` for a value without `.get` (the call raises). */
  function Get(obj: Json, key: string): Option<Option<Json>> {
    if !obj.JObject? then None
    else if key in obj.fields then Some(Some(obj.fields[key]))
    else Some(None)
  }

  /** `message += part` succeeds only for a string part. */
  function AsText(v: Option<Json>): Option<string> {
    if v.Some? && v.value.JString? then Some(v.value.str) else None
  }

  /** The string stored under `key` in an object; `None` when there is no such string. */
  function StringField(obj: Json, key: string): Option<string> {
    if obj.JObject? && key in obj.fields && obj.fields[key].JString? then Some(obj.fields[key].str) else None
  }

  /**
   * The text a chunk contributes for the model family `modelName`; `None`
   * when decoding raises (a missing or non-string field, a non-object
   * chunk, or an unknown family, for which `chunk_part` is never bound).
   */
  function ChunkPart(modelName: string, obj: Json): (r: Option<string>)
    ensures modelName !in {"claude-v2", "claude-instant", "claude-v3-sonet", "titan", "llama2"} ==> r.None?
    ensures modelName in {"claude-v2", "claude-instant"} ==> r == StringField(obj, "completion")
    ensures modelName == "titan" ==> r == StringField(obj, "outputText")
    ensures modelName == "llama2" ==> r == StringField(obj, "generation")
    ensures modelName == "claude-v3-sonet" ==>
              r == (if !obj.JObject? then None
                    else if "delta" !in obj.fields then Some("")
                    else if !obj.fields["delta"].JObject? then None
                    else if "text" !in obj.fields["delta"].fields then Some("")
                    else StringField(obj.fields["delta"], "text"))
  {
    if modelName == "claude-v2" || modelName == "claude-instant" then
      match Get(obj, "completion")
      case None => None
      case Some(v) => AsText(v)
    else if modelName == "claude-v3-sonet" then
      match Get(obj, "delta")
      case None => None
      case Some(d) =>
        var delta := if d.Some? then d.value else JObject(map[]);
        match Get(delta, "text")
        case None => None
        case Some(t) => if t.None? then Some("") else AsText(t)
    else if modelName == "titan" then
      match Get(obj, "outputText")
      case None => None
      case Some(v) => AsText(v)
    else if modelName == "llama2" then
      match Get(obj, "generation")
      case None => None
      case Some(v) => AsText(v)
    else None
  }

  /** The accumulated answer and whether a chunk failed to decode (the worker stops there). */
  datatype Progress = Progress(message: string, crashed: bool)

  /** The fold over the events, one event at a time from the left. */
  function Fold(modelName: string, events: seq<Event>): Progress
    decreases |events|
  {
    if |events| == 0 then Progress("", false)
    else
      var p := Fold(modelName, events[..|events| - 1]);
      if p.crashed then p
      else match events[|events| - 1]
        case NoChunk => p
        case Chunk(obj) =>
          match ChunkPart(modelName, obj)
          case None => Progress(p.message, true)
          case Some(part) => Progress(p.message + part, false)
  }

  /** Every chunk of `events` decodes. */
  ghost predicate AllDecode(modelName: string, events: seq<Event>) {
    forall k :: 0 <= k < |events| && events[k].Chunk? ==> ChunkPart(modelName, events[k].obj).Some?
  }

  /** The text an event contributes when it decodes; events without a chunk contribute nothing. */
  function PartOf(modelName: string, e: Event): string {
    if e.Chunk? then ChunkPart(modelName, e.obj).GetOr("") else ""
  }

  /** Reference: the parts of the events concatenated in order, built from the right. */
  function Parts(modelName: string, events: seq<Event>): string
    decreases |events|
  {
    if |events| == 0 then "" else PartOf(modelName, events[0]) + Parts(modelName, events[1..])
  }

  lemma {:induction false} PartsAppend(modelName: string, events: seq<Event>, e: Event)
    ensures Parts(modelName, events + [e]) == Parts(modelName, events) + PartOf(modelName, e)
    decreases |events|
  {
    if |events| == 0 {
      assert events + [e] == [e];
      assert [e][1..] == [];
    } else {
      assert (events + [e])[1..] == events[1..] + [e];
      PartsAppend(modelName, events[1..], e);
    }
  }

  /**
   * The fold completes exactly when every chunk decodes, and then the
   * answer is the in-order concatenation of the chunk parts; events without
   * a chunk contribute nothing.
   */
  lemma {:induction false} FoldIsConcatenation(modelName: string, events: seq<Event>)
    ensures !Fold(modelName, events).crashed <==> AllDecode(modelName, events)
    ensures AllDecode(modelName, events) ==> Fold(modelName, events).message == Parts(modelName, events)
    decreases |events|
  {
    if |events| > 0 {
      var init := events[..|events| - 1];
      var e := events[|events| - 1];
      assert events == init + [e];
      FoldIsConcatenation(modelName, init);
      assert forall k :: 0 <= k < |init| ==> init[k] == events[k];
      PartsAppend(modelName, init, e);
    }
  }

  /**
   * What the worker has appended after `i` events is a prefix of what it
   * has appended after all of them: the answer only ever grows.
   */
  lemma {:induction false} FoldOnlyAppends(modelName: string, events: seq<Event>, i: nat)
    requires i <= |events|
    ensures Fold(modelName, events[..i]).message <= Fold(modelName, events).message
    ensures Fold(modelName, events[..i]).crashed ==> Fold(modelName, events) == Fold(modelName, events[..i])
    decreases |events| - i
  {
    if i < |events| {
      FoldOnlyAppends(modelName, events, i + 1);
      assert events[..i + 1][..i] == events[..i];
    } else {
      assert events[..i] == events;
    }
  }

  /** For an unknown family the first chunk stops the worker, and nothing is ever appended. */
  lemma {:induction false} UnknownFamilyAppendsNothing(modelName: string, events: seq<Event>)
    requires modelName !in {"claude-v2", "claude-instant", "claude-v3-sonet", "titan", "llama2"}
    ensures Fold(modelName, events).message == ""
    ensures Fold(modelName, events).crashed <==> exists k :: 0 <= k < |events| && events[k].Chunk?
    decreases |events|
  {
    if |events| > 0 {
      var init := events[..|events| - 1];
      UnknownFamilyAppendsNothing(modelName, init);
      assert forall k :: 0 <= k < |init| ==> init[k] == events[k];
      if exists k :: 0 <= k < |events| && events[k].Chunk? {
        var k :| 0 <= k < |events| && events[k].Chunk?;
        if k < |init| {
          assert init[k].Chunk?;
        }
      }
    }
  }

  /** The Sonnet family tolerates a chunk without `delta` (e.g. a stop event); Claude v2 does not tolerate one without `completion`. */
  lemma SonnetIsLenientClaudeV2IsNot()
    ensures Fold("claude-v3-sonet", [Chunk(JObject(map["type" := JString("message_stop")]))]) == Progress("", false)
    ensures Fold("claude-v2", [Chunk(JObject(map["type" := JString("message_stop")]))]) == Progress("", true)
  {
    var e := [Chunk(JObject(map["type" := JString("message_stop")]))];
    assert e[..0] == [];
  }

  /** The outcome of the streaming invocation. */
  datatype Invocation =
    | InvokeFailed          // the call raised
    | NoBody                // the response had no `body`
    | Stream(events: seq<Event>)

  /** The tracker after the worker ends, with the metrics and reports it emitted. */
  datatype WorkerResult = WorkerResult(
    message: string,
    status: bool,
    firstChunkReported: bool,
    errorReported: bool)

  /**
   * `__generate_response` as written: one pass over the events with a
   * 1-based chunk counter.  `status` becomes true only after every event
   * was consumed; a failed invocation (the unbound `stream`) or a missing
   * body never sets it, and a chunk that fails to decode stops the worker
   * with the answer it had so far.
   */
  method GenerateResponse(modelName: string, invocation: Invocation) returns (r: WorkerResult)
    ensures r.errorReported <==> invocation.InvokeFailed?
    ensures r.status <==> invocation.Stream? && AllDecode(modelName, invocation.events)
    ensures r.message == (if invocation.Stream? then Fold(modelName, invocation.events).message else "")
    ensures r.status ==> r.message == Parts(modelName, invocation.events)
    ensures r.firstChunkReported <==> invocation.Stream? && |invocation.events| > 0 && invocation.events[0].Chunk?
  {
    r := WorkerResult("", false, false, false);
    if invocation.InvokeFailed? {
      r := r.(errorReported := true);
      return;
    }
    if invocation.NoBody? {
      return;
    }
    var events := invocation.events;
    var message := "";
    var firstChunk := false;
    var i := 0;
    while i < |events|
      invariant 0 <= i <= |events|
      invariant Fold(modelName, events[..i]) == Progress(message, false)
      invariant firstChunk <==> i > 0 && events[0].Chunk?
    {
      var chunkCount := i + 1;
      assert events[..i + 1][..i] == events[..i];
      if events[i].Chunk? {
        if chunkCount == 1 {
          firstChunk := true;
        }
        var part := ChunkPart(modelName, events[i].obj);
        if part.None? {
          FoldOnlyAppends(modelName, events, i + 1);
          FoldIsConcatenation(modelName, events);
          r := WorkerResult(message, false, firstChunk, false);
          return;
        }
        message := message + part.value;
      }
      i := i + 1;
    }
    assert events[..i] == events;
    FoldIsConcatenation(modelName, events);
    r := WorkerResult(message, true, firstChunk, false);
  }

  // ---------------------------------------------------------------------
  // Request redaction
  // ---------------------------------------------------------------------

  /** The redacted request body and the union of the disallowed types found. */
  datatype RequestRedaction = RequestRedaction(body: Body, flagged: set<string>)

  /** The messages with every content redacted. */
  function RedactTurns(turns: seq<Turn>, detect: string -> seq<Entity>, allowed: set<string>): (r: seq<Turn>)
    ensures |r| == |turns|
    ensures forall k :: 0 <= k < |turns| ==>
              r[k] == Turn(turns[k].role, DetectAndRedact(turns[k].content, detect(turns[k].content), allowed).text)
  {
    if |turns| == 0 then []
    else
      [Turn(turns[0].role, DetectAndRedact(turns[0].content, detect(turns[0].content), allowed).text)]
      + RedactTurns(turns[1..], detect, allowed)
  }

  /** The union of the flagged sets of every content. */
  function FlaggedUnion(turns: seq<Turn>, detect: string -> seq<Entity>, allowed: set<string>): (r: set<string>)
    ensures forall t :: t in r <==>
              exists k :: 0 <= k < |turns| && t in DetectAndRedact(turns[k].content, detect(turns[k].content), allowed).flagged
  {
    if |turns| == 0 then {}
    else
      var rest := FlaggedUnion(turns[1..], detect, allowed);
      assert forall k :: 0 <= k < |turns| - 1 ==> turns[1..][k] == turns[k + 1];
      DetectAndRedact(turns[0].content, detect(turns[0].content), allowed).flagged + rest
  }

  /**
   * The redaction step of `invoke_bedrock_streaming`: for the Sonnet id
   * every message content is redacted and the flagged types are united;
   * for any other id only the prompt is.  `Err` is the lookup that raises:
   * a body without `messages` for Sonnet, or without a string `prompt`
   * otherwise (the empty Titan and Llama 2 bodies among them).
   */
  function RedactRequest(modelId: string, body: Body, detect: string -> seq<Entity>, allowed: set<string>)
    : (r: Result<RequestRedaction, string>)
    ensures modelId == SONNET_KEY ==> (r.Ok? <==> body.MessagesBody?)
    ensures modelId != SONNET_KEY ==> (r.Ok? <==> body.CompletionBody? && body.prompt.Some?)
    ensures r.Ok? && modelId == SONNET_KEY ==>
              && r.value.body == body.(messages := RedactTurns(body.messages, detect, allowed))
              && r.value.flagged == FlaggedUnion(body.messages, detect, allowed)
    ensures r.Ok? && modelId != SONNET_KEY ==>
              var red := DetectAndRedact(body.prompt.value, detect(body.prompt.value), allowed);
              r.value == RequestRedaction(body.(prompt := Some(red.text)), red.flagged)
  {
    if modelId == SONNET_KEY then
      if body.MessagesBody? then
        Ok(RequestRedaction(body.(messages := RedactTurns(body.messages, detect, allowed)),
                            FlaggedUnion(body.messages, detect, allowed)))
      else Err("body has no messages")
    else if body.CompletionBody? && body.prompt.Some? then
      var red := DetectAndRedact(body.prompt.value, detect(body.prompt.value), allowed);
      Ok(RequestRedaction(body.(prompt := Some(red.text)), red.flagged))
    else Err("body has no prompt")
  }

  /**
   * With the bodies `generate_payload` builds: the Titan and Llama 2 models
   * get `{}`, so the prompt lookup fails and no request is ever sent for
   * them; the two older Claude models are redacted whenever the mode is
   * known, and Sonnet always.
   */
  lemma RequestRedactionByModel(key: string, messages: seq<Utils.Entry>, botUserId: string, mode: string,
                                c: Constants, detect: string -> seq<Entity>, allowed: set<string>)
    requires key in MODEL_KEYS
    ensures GetModel(key).Some?
    ensures var model := GetModel(key).value;
            var r := RedactRequest(key, GeneratePayload(messages, botUserId, model, mode, c).body, detect, allowed);
            && (key == TITAN_KEY || key == LLAMA2_KEY ==> r.Err?)
            && (key == SONNET_KEY ==> r.Ok?)
            && (key == CLAUDE_V2_KEY || key == CLAUDE_INSTANT_KEY ==> (r.Ok? <==> mode == "assistant" || mode == "passthrough"))
  {
    var model := GetModel(key).value;
    PayloadShapeByModel(key, messages, botUserId, mode, c);
  }

  // ---------------------------------------------------------------------
  // The polling loop
  // ---------------------------------------------------------------------

  const MAX_POLLS: nat := 500

  /** What one poll reads: the tracker's status and message, and what the detector reports for that message. */
  datatype Snapshot = Snapshot(status: bool, message: string, entities: seq<Entity>)

  /** What one poll emits: an update of the chat message (with the types flagged in it), or the size error. */
  datatype PollAction = Published(text: string, flagged: set<string>) | TooLarge

  /** The update published for a message: redacted, then stripped of function markup. */
  function Publication(s: Snapshot, allowed: set<string>): Redaction
  {
    var red := DetectAndRedact(s.message, s.entities, allowed);
    Redaction(RemoveUnwantedText(red.text), red.flagged)
  }

  /** The response size gate fails for `message`. */
  predicate Oversized(message: string) {
    !ValidateResponse(message).accepted
  }

  /** The loop's result: the emitted actions, the number of polls, and whether it returned `False`. */
  datatype PollResult = PollResult(actions: seq<PollAction>, polls: nat, rejected: bool)

  /** The update a poll that passes the size gate emits: none for an empty message. */
  function Head(s: Snapshot, allowed: set<string>, publish: (Snapshot, set<string>) -> Redaction): seq<PollAction>
  {
    if s.message == "" then [] else var p := publish(s, allowed); [Published(p.text, p.flagged)]
  }

  /**
   * The polls from number `k` on, for a given size gate and publication:
   * the loop's reference definition, one poll per call.
   */
  function PollsFromWith(snapshots: seq<Snapshot>, allowed: set<string>, oversized: string -> bool,
                         publish: (Snapshot, set<string>) -> Redaction, k: nat): PollResult
    requires |snapshots| >= MAX_POLLS && k <= MAX_POLLS
    decreases MAX_POLLS - k
  {
    if k == MAX_POLLS then PollResult([], 0, false)
    else
      var s := snapshots[k];
      if s.message != "" && oversized(s.message) then PollResult([TooLarge], 1, true)
      else if s.status then PollResult(Head(s, allowed, publish), 1, false)
      else
        var rest := PollsFromWith(snapshots, allowed, oversized, publish, k + 1);
        PollResult(Head(s, allowed, publish) + rest.actions, 1 + rest.polls, rest.rejected)
  }

  /** The polls of `__update_message_until_completion` from number `k` on. */
  function PollsFrom(snapshots: seq<Snapshot>, allowed: set<string>, k: nat): PollResult
    requires |snapshots| >= MAX_POLLS && k <= MAX_POLLS
  {
    PollsFromWith(snapshots, allowed, Oversized, Publication, k)
  }

  /** The polling loop over any size gate and publication. */
  method PollLoop(snapshots: seq<Snapshot>, allowed: set<string>, oversized: string -> bool,
                  publish: (Snapshot, set<string>) -> Redaction) returns (r: PollResult)
    requires |snapshots| >= MAX_POLLS
    ensures r == PollsFromWith(snapshots, allowed, oversized, publish, 0)
  {
    ghost var total := PollsFromWith(snapshots, allowed, oversized, publish, 0);
    var status := false;
    var counter := 0;
    var actions: seq<PollAction> := [];
    while !status && counter < MAX_POLLS
      invariant 0 <= counter <= MAX_POLLS
      invariant !status ==>
        var rest := PollsFromWith(snapshots, allowed, oversized, publish, counter);
        actions + rest.actions == total.actions && counter + rest.polls == total.polls && rest.rejected == total.rejected
      invariant status ==> actions == total.actions && counter == total.polls && !total.rejected
    {
      var s := snapshots[counter];
      ghost var before := actions;
      ghost var next := PollsFromWith(snapshots, allowed, oversized, publish, counter + 1);
      status := s.status;
      counter := counter + 1;
      if s.message != "" {
        if oversized(s.message) {
          actions := actions + [TooLarge];
          return PollResult(actions, counter, true);
        }
        var p := publish(s, allowed);
        actions := actions + [Published(p.text, p.flagged)];
      }
      assert actions == before + Head(s, allowed, publish);
      if !status {
        AppendAssociates(before, Head(s, allowed, publish), next.actions);
      }
    }
    if !status {
      assert actions + [] == actions;
    }
    r := PollResult(actions, counter, false);
  }

  /**
   * The loop polls until a status reads true, a message is over the size
   * limit, or 500 polls are made: every poll but the last saw status false
   * and a message within the limit, and the last is the one that stopped it.
   */
  lemma {:induction false} PollsStop(snapshots: seq<Snapshot>, allowed: set<string>, oversized: string -> bool,
                                     publish: (Snapshot, set<string>) -> Redaction, k: nat)
    requires |snapshots| >= MAX_POLLS && k < MAX_POLLS
    ensures var r := PollsFromWith(snapshots, allowed, oversized, publish, k);
            && 1 <= r.polls && k + r.polls <= MAX_POLLS
            && (forall i :: k <= i < k + r.polls - 1 ==>
                  !snapshots[i].status && !(snapshots[i].message != "" && oversized(snapshots[i].message)))
            && (r.rejected ==> snapshots[k + r.polls - 1].message != "" && oversized(snapshots[k + r.polls - 1].message))
            && (!r.rejected ==> snapshots[k + r.polls - 1].status || k + r.polls == MAX_POLLS)
    decreases MAX_POLLS - k
  {
    var s := snapshots[k];
    var r := PollsFromWith(snapshots, allowed, oversized, publish, k);
    if !(s.message != "" && oversized(s.message)) && !s.status && k + 1 < MAX_POLLS {
      var rest := PollsFromWith(snapshots, allowed, oversized, publish, k + 1);
      PollsStop(snapshots, allowed, oversized, publish, k + 1);
      assert r.polls == 1 + rest.polls && r.rejected == rest.rejected;
      assert k + r.polls - 1 == (k + 1) + rest.polls - 1;
      forall i | k <= i < k + r.polls - 1
        ensures !snapshots[i].status && !(snapshots[i].message != "" && oversized(snapshots[i].message))
      {
        if i > k {
          assert k + 1 <= i < (k + 1) + rest.polls - 1;
        }
      }
    } else if !(s.message != "" && oversized(s.message)) && !s.status {
      assert PollsFromWith(snapshots, allowed, oversized, publish, k + 1) == PollResult([], 0, false);
    }
  }

  /** The loop reads nothing past its last poll: snapshots that agree up to there give the same result. */
  lemma {:induction false} PollsReadOnlyPolled(snapshots: seq<Snapshot>, other: seq<Snapshot>, allowed: set<string>,
                                               oversized: string -> bool, publish: (Snapshot, set<string>) -> Redaction, k: nat)
    requires |snapshots| >= MAX_POLLS && |other| >= MAX_POLLS && k <= MAX_POLLS
    requires forall i :: k <= i < MAX_POLLS && i < k + PollsFromWith(snapshots, allowed, oversized, publish, k).polls ==>
               other[i] == snapshots[i]
    ensures PollsFromWith(other, allowed, oversized, publish, k) == PollsFromWith(snapshots, allowed, oversized, publish, k)
    decreases MAX_POLLS - k
  {
    if k < MAX_POLLS {
      assert other[k] == snapshots[k];
      var s := snapshots[k];
      if !(s.message != "" && oversized(s.message)) && !s.status {
        var rest := PollsFromWith(snapshots, allowed, oversized, publish, k + 1);
        var r := PollsFromWith(snapshots, allowed, oversized, publish, k);
        assert r.polls == 1 + rest.polls;
        forall i | k + 1 <= i < MAX_POLLS && i < k + 1 + rest.polls
          ensures other[i] == snapshots[i]
        {
          assert k <= i < k + r.polls;
        }
        PollsReadOnlyPolled(snapshots, other, allowed, oversized, publish, k + 1);
      }
    }
  }

  /** `a` is the update published for one of `count` polled snapshots from number `from`, whose message is nonempty and within the limit. */
  ghost predicate PublishedFrom(snapshots: seq<Snapshot>, allowed: set<string>, oversized: string -> bool,
                                publish: (Snapshot, set<string>) -> Redaction, from: nat, count: nat, a: PollAction)
  {
    exists i :: from <= i < from + count && i < |snapshots| && !oversized(snapshots[i].message)
                && a in Head(snapshots[i], allowed, publish)
  }

  /** Every update the loop publishes is that of a polled snapshot with a nonempty message within the limit. */
  lemma {:induction false} PublishedComeFromPolls(snapshots: seq<Snapshot>, allowed: set<string>, oversized: string -> bool,
                                                  publish: (Snapshot, set<string>) -> Redaction, k: nat)
    requires |snapshots| >= MAX_POLLS && k <= MAX_POLLS
    ensures var r := PollsFromWith(snapshots, allowed, oversized, publish, k);
            forall a :: a in r.actions && a.Published? ==>
              PublishedFrom(snapshots, allowed, oversized, publish, k, r.polls, a)
    decreases MAX_POLLS - k
  {
    if k < MAX_POLLS {
      var r := PollsFromWith(snapshots, allowed, oversized, publish, k);
      var s := snapshots[k];
      if !(s.message != "" && oversized(s.message)) {
        var head := Head(s, allowed, publish);
        var rest := if s.status then PollResult([], 0, false)
                    else PollsFromWith(snapshots, allowed, oversized, publish, k + 1);
        if !s.status {
          PublishedComeFromPolls(snapshots, allowed, oversized, publish, k + 1);
        }
        assert r.actions == head + rest.actions && r.polls == 1 + rest.polls;
        forall a | a in r.actions && a.Published?
          ensures PublishedFrom(snapshots, allowed, oversized, publish, k, r.polls, a)
        {
          if a in head {
            assert s.message != "";
          } else {
            assert PublishedFrom(snapshots, allowed, oversized, publish, k + 1, rest.polls, a);
          }
        }
      }
    }
  }

  /**
   * The message read at the last poll, when the loop ends without the size
   * error and that message is nonempty, is the last update published: the
   * final text after status turns true is always delivered.
   */
  lemma {:induction false} FinalUpdatePublished(snapshots: seq<Snapshot>, allowed: set<string>, oversized: string -> bool,
                                                publish: (Snapshot, set<string>) -> Redaction, k: nat)
    requires |snapshots| >= MAX_POLLS && k < MAX_POLLS
    ensures var r := PollsFromWith(snapshots, allowed, oversized, publish, k);
            && 1 <= r.polls && k + r.polls <= MAX_POLLS
            && (!r.rejected && snapshots[k + r.polls - 1].message != "" ==>
                  var p := publish(snapshots[k + r.polls - 1], allowed);
                  |r.actions| > 0 && r.actions[|r.actions| - 1] == Published(p.text, p.flagged))
    decreases MAX_POLLS - k
  {
    var s := snapshots[k];
    var r := PollsFromWith(snapshots, allowed, oversized, publish, k);
    if s.message != "" && oversized(s.message) {
      assert r == PollResult([TooLarge], 1, true);
    } else if s.status || k + 1 == MAX_POLLS {
      if !s.status {
        assert PollsFromWith(snapshots, allowed, oversized, publish, k + 1) == PollResult([], 0, false);
      }
      assert r == PollResult(Head(s, allowed, publish), 1, false);
      if s.message != "" {
        var p := publish(s, allowed);
        assert Head(s, allowed, publish) == [Published(p.text, p.flagged)];
      }
    } else {
      FinalUpdatePublished(snapshots, allowed, oversized, publish, k + 1);
      var rest := PollsFromWith(snapshots, allowed, oversized, publish, k + 1);
      assert r.actions == Head(s, allowed, publish) + rest.actions;
      assert r.polls == 1 + rest.polls && r.rejected == rest.rejected;
      var last := k + r.polls - 1;
      assert last == (k + 1) + rest.polls - 1;
      if !r.rejected && snapshots[last].message != "" {
        var p := publish(snapshots[last], allowed);
        assert |rest.actions| > 0 && rest.actions[|rest.actions| - 1] == Published(p.text, p.flagged);
        LastOfAppend(Head(s, allowed, publish), rest.actions);
        assert r.actions[|r.actions| - 1] == rest.actions[|rest.actions| - 1];
      }
    }
  }

  /**
   * `__update_message_until_completion` over the snapshots it reads: poll,
   * and publish the redacted and cleaned message when there is one, until
   * status reads true or 500 polls are made; return `False` at the first
   * message over the response size limit, without publishing it.
   */
  method UpdateMessageUntilCompletion(snapshots: seq<Snapshot>, allowed: set<string>) returns (r: PollResult)
    requires |snapshots| >= MAX_POLLS
    ensures r == PollsFrom(snapshots, allowed, 0)
    ensures 1 <= r.polls <= MAX_POLLS && |r.actions| <= r.polls
    ensures r.rejected <==> TooLarge in r.actions
  {
    r := PollLoop(snapshots, allowed, Oversized, Publication);
    PollsShape(snapshots, allowed, Oversized, Publication, 0);
  }

  /**
   * The loop stops at the first status that reads true or at the first
   * message over the response limit, whichever comes first, and otherwise
   * after 500 polls.
   */
  lemma UpdateStopsAtCompletion(snapshots: seq<Snapshot>, allowed: set<string>)
    requires |snapshots| >= MAX_POLLS
    ensures var r := PollsFrom(snapshots, allowed, 0);
            && 1 <= r.polls <= MAX_POLLS
            && (forall i :: 0 <= i < r.polls - 1 ==>
                  !snapshots[i].status && !(snapshots[i].message != "" && Oversized(snapshots[i].message)))
            && (!r.rejected && r.polls < MAX_POLLS ==> snapshots[r.polls - 1].status)
            && (r.rejected ==> snapshots[r.polls - 1].message != "" && Oversized(snapshots[r.polls - 1].message))
  {
    PollsStop(snapshots, allowed, Oversized, Publication, 0);
  }

  /**
   * Unless the loop ended on the size error, the message read at its last
   * poll, when nonempty, is the last update published.
   */
  lemma UpdateDeliversFinalMessage(snapshots: seq<Snapshot>, allowed: set<string>)
    requires |snapshots| >= MAX_POLLS
    ensures var r := PollsFrom(snapshots, allowed, 0);
            && 1 <= r.polls <= MAX_POLLS
            && (!r.rejected && snapshots[r.polls - 1].message != "" ==>
                  var p := Publication(snapshots[r.polls - 1], allowed);
                  |r.actions| > 0 && r.actions[|r.actions| - 1] == Published(p.text, p.flagged))
  {
    FinalUpdatePublished(snapshots, allowed, Oversized, Publication, 0);
  }

  /**
   * Every update the loop publishes is that of a polled snapshot: its
   * message is nonempty and at most 10000 UTF-8 bytes, every disallowed
   * entity in it is replaced by `<REDACTED>`, and the function markup removed.
   */
  lemma UpdatePublishesPolledMessages(snapshots: seq<Snapshot>, allowed: set<string>, a: PollAction)
    requires |snapshots| >= MAX_POLLS
    requires a in PollsFrom(snapshots, allowed, 0).actions && a.Published?
    ensures exists i :: 0 <= i < PollsFrom(snapshots, allowed, 0).polls && i < |snapshots| && IsUpdateOf(snapshots[i], allowed, a)
  {
    var r := PollsFrom(snapshots, allowed, 0);
    PublishedComeFromPolls(snapshots, allowed, Oversized, Publication, 0);
    var gate: string -> bool, publish: (Snapshot, set<string>) -> Redaction := Oversized, Publication;
    var i :| 0 <= i < r.polls && i < |snapshots| && !gate(snapshots[i].message) && a in Head(snapshots[i], allowed, publish);
    var s := snapshots[i];
    assert ValidateResponse(s.message).accepted;
    assert a == Published(Publication(s, allowed).text, Publication(s, allowed).flagged);
    assert IsUpdateOf(s, allowed, a);
  }

  /** `a` publishes the message of `s`, which is nonempty and within the response limit, redacted and cleaned. */
  predicate IsUpdateOf(s: Snapshot, allowed: set<string>, a: PollAction) {
    var red := DetectAndRedact(s.message, s.entities, allowed);
    && s.message != "" && ByteLength(s.message) <= MAX_RESPONSE_MESSAGE_SIZE
    && a == Published(RemoveUnwantedText(red.text), red.flagged)
  }

  /**
   * The loop polls at least once and at most 500 times, emits at most one
   * action per poll, and returns `False` exactly when its last action is
   * the size error, which occurs nowhere else.
   */
  lemma {:induction false} PollsShape(snapshots: seq<Snapshot>, allowed: set<string>, oversized: string -> bool,
                                      publish: (Snapshot, set<string>) -> Redaction, k: nat)
    requires |snapshots| >= MAX_POLLS && k <= MAX_POLLS
    ensures var r := PollsFromWith(snapshots, allowed, oversized, publish, k);
            && (k < MAX_POLLS ==> 1 <= r.polls) && r.polls <= MAX_POLLS - k
            && |r.actions| <= r.polls
            && (r.rejected <==> TooLarge in r.actions)
            && (r.rejected ==> r.actions[|r.actions| - 1] == TooLarge)
    decreases MAX_POLLS - k
  {
    if k < MAX_POLLS {
      var s := snapshots[k];
      var r := PollsFromWith(snapshots, allowed, oversized, publish, k);
      var head := Head(s, allowed, publish);
      assert |head| <= 1 && TooLarge !in head;
      if s.message != "" && oversized(s.message) {
        assert r == PollResult([TooLarge], 1, true);
      } else if s.status {
        assert r == PollResult(head, 1, false);
      } else {
        PollsShape(snapshots, allowed, oversized, publish, k + 1);
        var rest := PollsFromWith(snapshots, allowed, oversized, publish, k + 1);
        assert r == PollResult(head + rest.actions, 1 + rest.polls, rest.rejected);
        assert TooLarge in r.actions <==> TooLarge in rest.actions;
        if r.rejected {
          LastOfAppend(head, rest.actions);
        }
      }
    }
  }
}
