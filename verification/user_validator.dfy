/**
 * `validate_slack_user` of validation/user_validator.py against the
 * allowlist table of helpers/allowlist.py.  The table is a parameter so
 * that properties about changing it can be stated; `ALLOWLISTED_USERS` is
 * the shipped one.
 */
module UserValidator {
  import opened Wrappers

  /** Model id (or "all") to the logins allowed for it. */
  type Allowlist = map<string, seq<string>>

  const ALL_KEY: string := "all"

  const ALLOWLISTED_USERS: Allowlist := map[
    "anthropic.claude-v2:1" := [],
    "anthropic.claude-instant-v1" := [],
    ALL_KEY := ["testUser"]
  ]

  const USER_ERROR: string :=
    "BedrockChat App is in limited private beta release and is available only to a limited user set. Please reach out via bedrock-chat-slack-app@amazon.com for any access related queries. Thank you!"
  const MODEL_ERROR: string :=
    "User is not authorised to use selected model. Please reach out via bedrock-chat-slack-app@amazon.com for any access related queries. Thank you!"

  /** `table.get(key, [])`, where a `None` key is never in the table. */
  function Get(table: Allowlist, key: Option<string>): seq<string> {
    if key.Some? && key.value in table then table[key.value] else []
  }

  /** The result, and the error text sent to the channel when the user is refused. */
  datatype UserVerdict = UserVerdict(accepted: bool, errorSent: Option<string>)

  /**
   * `validate_slack_user`: accepted iff the login is listed for the model
   * or under "all"; a refusal sends exactly one error, the user text for
   * the check type "user" and the model text for any other.
   */
  function ValidateSlackUser(table: Allowlist, login: string, checkType: string, modelId: Option<string>)
    : (v: UserVerdict)
    ensures v.accepted <==> login in Get(table, modelId) || login in Get(table, Some(ALL_KEY))
    ensures v.accepted <==> v.errorSent.None?
    ensures !v.accepted ==> v.errorSent == Some(if checkType == "user" then USER_ERROR else MODEL_ERROR)
  {
    var modelUsers := Get(table, modelId);
    var allModels := Get(table, Some(ALL_KEY));
    if login !in modelUsers && login !in allModels then
      UserVerdict(false, Some(if checkType == "user" then USER_ERROR else MODEL_ERROR))
    else UserVerdict(true, None)
  }

  /** A model id the table does not list, or no model id at all, falls back to the "all" list alone. */
  lemma UnknownModelFallsBackToAll(table: Allowlist, login: string, checkType: string, modelId: Option<string>)
    requires modelId.None? || modelId.value !in table
    ensures ValidateSlackUser(table, login, checkType, modelId).accepted <==> login in Get(table, Some(ALL_KEY))
  {
  }

  /**
   * With the shipped table only "testUser" is accepted, whatever the model:
   * the repository's test accepts "testUser" and refuses "gainanovs".
   */
  lemma ShippedTableAcceptsOnlyTestUser(login: string, checkType: string, modelId: Option<string>)
    ensures ValidateSlackUser(ALLOWLISTED_USERS, login, checkType, modelId).accepted <==> login == "testUser"
    ensures ValidateSlackUser(ALLOWLISTED_USERS, "testUser", "user", None).accepted
    ensures ValidateSlackUser(ALLOWLISTED_USERS, "gainanovs", "user", None) == UserVerdict(false, Some(USER_ERROR))
  {
    var table := ALLOWLISTED_USERS;
    assert table[ALL_KEY] == ["testUser"];
    assert Get(table, modelId) == [] || Get(table, modelId) == ["testUser"] by {
      if modelId.Some? && modelId.value in table {
        assert modelId.value == "anthropic.claude-v2:1" || modelId.value == "anthropic.claude-instant-v1"
            || modelId.value == ALL_KEY;
      }
    }
    assert "gainanovs" != "testUser" by {
      assert "gainanovs"[0] != "testUser"[0];
    }
  }

  /** Adding a login to any list of the table never turns an acceptance into a refusal. */
  lemma AddingALoginKeepsAcceptances(table: Allowlist, key: string, added: string,
                                     login: string, checkType: string, modelId: Option<string>)
    ensures var grown := table[key := Get(table, Some(key)) + [added]];
            ValidateSlackUser(table, login, checkType, modelId).accepted ==>
            ValidateSlackUser(grown, login, checkType, modelId).accepted
  {
    var grown := table[key := Get(table, Some(key)) + [added]];
    forall k: Option<string> | login in Get(table, k)
      ensures login in Get(grown, k)
    {
      if k == Some(key) {
        assert Get(grown, k) == Get(table, Some(key)) + [added];
      }
    }
  }
}
