/**
 * The model-descriptor table of helpers/model_helper.py (`get_model`).
 */
module ModelHelper {
  import opened Wrappers

  /** A model record; `temperature` is present only for the Sonnet model. */
  datatype ModelRecord = ModelRecord(
    name: string,
    id: string,
    accept: string,
    contentType: string,
    maxTokenSample: int,
    temperature: Option<real>)

  const TITAN_KEY: string := "amazon.titan-text-express-v1"
  const CLAUDE_V2_KEY: string := "anthropic.claude-v2:1"
  const CLAUDE_INSTANT_KEY: string := "anthropic.claude-instant-v1"
  const SONNET_KEY: string := "anthropic.claude-3-sonnet-20240229-v1:0"
  const LLAMA2_KEY: string := "meta.llama2-13b-chat-v1"

  const MODEL_KEYS: set<string> := {TITAN_KEY, CLAUDE_V2_KEY, CLAUDE_INSTANT_KEY, SONNET_KEY, LLAMA2_KEY}

  /**
   * `get_model`: exactly the five listed keys resolve to a record; every
   * record asks for at most 750 tokens with a JSON request body; only the
   * Sonnet record has a temperature (0.5); every record's id is its key
   * except the Titan one.
   */
  function GetModel(key: string): (r: Option<ModelRecord>)
    ensures r.Some? <==> key in MODEL_KEYS
    ensures r.Some? ==> r.value.maxTokenSample == 750 && r.value.contentType == "application/json"
    ensures r.Some? ==> (r.value.temperature.Some? <==> key == SONNET_KEY)
    ensures r.Some? && key == SONNET_KEY ==> r.value.temperature == Some(0.5)
    ensures r.Some? ==> (r.value.id == key <==> key != TITAN_KEY)
    ensures key == TITAN_KEY ==> r.Some? && r.value.id == "amazon.titan-tg1-large"
  {
    if key == TITAN_KEY then
      Some(ModelRecord("titan", "amazon.titan-tg1-large", "*/*", "application/json", 750, None))
    else if key == CLAUDE_V2_KEY then
      Some(ModelRecord("claude-v2", CLAUDE_V2_KEY, "application/json", "application/json", 750, None))
    else if key == CLAUDE_INSTANT_KEY then
      Some(ModelRecord("claude-instant", CLAUDE_INSTANT_KEY, "application/json", "application/json", 750, None))
    else if key == SONNET_KEY then
      Some(ModelRecord("claude-v3-sonet", SONNET_KEY, "application/json", "application/json", 750, Some(0.5)))
    else if key == LLAMA2_KEY then
      Some(ModelRecord("llama2", LLAMA2_KEY, "application/json", "application/json", 750, None))
    else None
  }

  /** The five keys are distinct, so the table has exactly five entries. */
  lemma FiveModels()
    ensures |MODEL_KEYS| == 5
  {
    assert TITAN_KEY[0] == 'a' && LLAMA2_KEY[0] == 'm';
    assert TITAN_KEY[1] == 'm' && CLAUDE_V2_KEY[1] == 'n';
    assert CLAUDE_V2_KEY[10] == 'c' && SONNET_KEY[10] == 'c';
    assert |CLAUDE_V2_KEY| != |CLAUDE_INSTANT_KEY| && |CLAUDE_V2_KEY| != |SONNET_KEY|
        && |CLAUDE_INSTANT_KEY| != |SONNET_KEY|;
  }
}
