/**
 * The `SlackParameterValidator` state machine of
 * validation/slack_params_validator.py: it remembers the channel and the
 * timestamp of the placeholder message, and a later update is checked
 * against them.  The object is an immutable value here; each setter
 * returns the new state and each check returns `Pass` or the failed
 * assertion.
 */
module SlackParamsValidator {
  import opened Wrappers

  /**
   * A remembered timestamp: Slack returns it as text, and the repository's
   * tests pass a float; the initial value is the integer -1.  Python's `==`
   * is true between equal numbers and false between a number and a text.
   */
  datatype Stamp = Number(n: real) | Text(t: string)

  /** The validator's two private fields. */
  datatype Validator = Validator(channelId: Option<string>, disclaimerTs: Stamp)

  const DISCLAIMER_TS_ERROR: string :=
    "SlackParameterValidator failed in disclaimer_ts validation. Please make sure you are updating the right slack message. This is a code bug."
  const CHANNEL_ID_ERROR: string :=
    "SlackParameterValidator failed in channel_id validation. Please make sure you are updating the right slack message. This is a code bug."

  /** A fresh validator: no channel, and the timestamp -1. */
  const FRESH: Validator := Validator(None, Number(-1.0))

  /** `set_channel_id`: replaces the remembered channel. */
  function SetChannelId(v: Validator, channelId: Option<string>): (r: Validator)
    ensures r.channelId == channelId
    ensures r.disclaimerTs == v.disclaimerTs
  {
    v.(channelId := channelId)
  }

  /** `set_disclaimer_ts`: replaces the remembered timestamp. */
  function SetDisclaimerTs(v: Validator, ts: Stamp): (r: Validator)
    ensures r.disclaimerTs == ts
    ensures r.channelId == v.channelId
  {
    v.(disclaimerTs := ts)
  }

  /** `validate_disclaimer_ts`: passes iff `ts` is the remembered timestamp, and fails with the fixed text otherwise. */
  function ValidateDisclaimerTs(v: Validator, ts: Stamp): (o: Outcome<string>)
    ensures o.Pass? <==> ts == v.disclaimerTs
    ensures o.Fail? ==> o.error == DISCLAIMER_TS_ERROR
  {
    if v.disclaimerTs == ts then Pass else Fail(DISCLAIMER_TS_ERROR)
  }

  /** `validate_channel_id`: passes iff `channelId` is the remembered channel, and fails with the fixed text otherwise. */
  function ValidateChannelId(v: Validator, channelId: Option<string>): (o: Outcome<string>)
    ensures o.Pass? <==> channelId == v.channelId
    ensures o.Fail? ==> o.error == CHANNEL_ID_ERROR
  {
    if v.channelId == channelId then Pass else Fail(CHANNEL_ID_ERROR)
  }

  /**
   * After the timestamp is set, exactly that timestamp passes, whatever
   * happened before, and the remembered channel is the one before.
   */
  lemma SetTsThenValidate(v: Validator, ts: Stamp, probe: Stamp)
    ensures ValidateDisclaimerTs(SetDisclaimerTs(v, ts), probe).Pass? <==> probe == ts
    ensures ValidateChannelId(SetDisclaimerTs(v, ts), v.channelId).Pass?
  {
  }

  /**
   * After the channel is set, exactly that channel passes, and the
   * remembered timestamp is the one before.
   */
  lemma SetChannelThenValidate(v: Validator, channelId: Option<string>, probe: Option<string>)
    ensures ValidateChannelId(SetChannelId(v, channelId), probe).Pass? <==> probe == channelId
    ensures ValidateDisclaimerTs(SetChannelId(v, channelId), v.disclaimerTs).Pass?
  {
  }

  /**
   * The repository's tests: the timestamp 123456.0 passes and 123457.0
   * fails; the channel "TEST_ID" passes and "TEST_IDSTRING" fails.
   */
  lemma RepositoryTestCases()
    ensures ValidateDisclaimerTs(SetDisclaimerTs(FRESH, Number(123456.0)), Number(123456.0)).Pass?
    ensures ValidateDisclaimerTs(SetDisclaimerTs(FRESH, Number(123456.0)), Number(123456.0 + 1.0)).Fail?
    ensures ValidateChannelId(SetChannelId(FRESH, Some("TEST_ID")), Some("TEST_ID")).Pass?
    ensures ValidateChannelId(SetChannelId(FRESH, Some("TEST_ID")), Some("TEST_ID" + "STRING")).Fail?
  {
    assert |"TEST_ID" + "STRING"| != |"TEST_ID"|;
  }

  /**
   * A fresh validator accepts only the timestamp -1 and only the missing
   * channel: every real channel and every Slack timestamp fails until the
   * setters run.
   */
  lemma FreshRejectsUntilSet(channelId: string, ts: string)
    ensures ValidateChannelId(FRESH, Some(channelId)).Fail?
    ensures ValidateDisclaimerTs(FRESH, Text(ts)).Fail?
    ensures ValidateDisclaimerTs(FRESH, Number(-1.0)).Pass?
  {
  }

  /** Setting one field twice keeps only the last value; the two setters commute. */
  lemma SettersOverwriteAndCommute(v: Validator, c1: Option<string>, c2: Option<string>, t1: Stamp, t2: Stamp)
    ensures SetChannelId(SetChannelId(v, c1), c2) == SetChannelId(v, c2)
    ensures SetDisclaimerTs(SetDisclaimerTs(v, t1), t2) == SetDisclaimerTs(v, t2)
    ensures SetChannelId(SetDisclaimerTs(v, t1), c1) == SetDisclaimerTs(SetChannelId(v, c1), t1)
  {
  }
}
