/** The users map and the action's inputs (src/config.ts). Reading the file and parsing
    its text are outside the model: their outcome is given as a `ReadOutcome`, and what
    is modelled is the validation of the parsed value that follows them. */
module Config {
  import opened Wrappers
  import opened Sequences

  /** Slack user id by GitHub login. */
  type UserMap = map<string, string>

  /** A value as `JSON.parse` returns it. An object lists its entries in the order
      `Object.entries` yields them; `JSON.parse` keeps one entry per key, a fact
      stated where it is needed as `DistinctKeys`. */
  datatype JsonValue =
    | JNull
    | JBool(b: bool)
    | JNumber(n: real)
    | JString(s: string)
    | JArray(items: seq<JsonValue>)
    | JObject(entries: seq<Entry>)

  datatype Entry = Entry(key: string, value: JsonValue)

  /** How reading and parsing the users-map file ended. */
  datatype ReadOutcome = NotFound | BadJson | Parsed(value: JsonValue)

  const DefaultUsersMapPath: string := "config/users.json"

  /** JavaScript truthiness of a parsed value. */
  predicate Truthy(v: JsonValue) {
    match v
    case JNull => false
    case JBool(b) => b
    case JNumber(n) => n != 0.0
    case JString(s) => s != ""
    case _ => true
  }

  /** The JavaScript `typeof` of a parsed value; `null` is an "object". */
  function TypeOf(v: JsonValue): string {
    match v
    case JNull => "object"
    case JBool(_) => "boolean"
    case JNumber(_) => "number"
    case JString(_) => "string"
    case _ => "object"
  }

  /** The guard `!parsed || typeof parsed !== "object" || Array.isArray(parsed)`. */
  predicate NotAnObject(v: JsonValue) {
    !Truthy(v) || TypeOf(v) != "object" || v.JArray?
  }

  /** The guard rejects exactly the values that are not JSON objects. */
  lemma NotAnObjectIff(v: JsonValue)
    ensures NotAnObject(v) <==> !v.JObject?
  {
  }

  function NotFoundMessage(path: string): string {
    "Users map file not found at " + path
  }

  function BadJsonMessage(path: string): string {
    "Users map at " + path + " is not valid JSON"
  }

  function NotAnObjectMessage(path: string): string {
    "Users map at " + path + " must be a JSON object mapping GitHub usernames to Slack IDs"
  }

  function NotAStringMessage(key: string): string {
    "Users map value for " + key + " must be a string"
  }

  predicate AllStrings(entries: seq<Entry>) {
    forall i :: 0 <= i < |entries| ==> entries[i].value.JString?
  }

  /** The index of the first entry whose value is not a string, if any. */
  function FirstNonString(entries: seq<Entry>): (r: Option<nat>)
    ensures r.None? <==> AllStrings(entries)
    ensures r.Some? ==> r.value < |entries| && !entries[r.value].value.JString?
    ensures r.Some? ==> AllStrings(entries[..r.value])
    decreases |entries|
  {
    if entries == [] then None
    else
      var init := entries[..|entries| - 1];
      var first := FirstNonString(init);
      if first.Some? then
        PrefixOfPrefix(entries, first.value, |entries| - 1);
        first
      else if entries[|entries| - 1].value.JString? then
        assert forall i :: 0 <= i < |init| ==> entries[i] == init[i];
        None
      else
        Some(|entries| - 1)
  }

  /** The entries as a map; a repeated key keeps its last value. */
  function ToUserMap(entries: seq<Entry>): (m: UserMap)
    requires AllStrings(entries)
    decreases |entries|
  {
    if entries == [] then map[]
    else
      var last := entries[|entries| - 1];
      ToUserMap(entries[..|entries| - 1])[last.key := last.value.s]
  }

  /** What `readUsersMap` returns for the file at `path`, or the message it throws:
      a read failure first, then a parse failure, then a parsed value that is not an
      object, then the first entry whose value is not a string. */
  function UsersMapOutcome(path: string, read: ReadOutcome): Result<UserMap, string> {
    match read
    case NotFound => Failure(NotFoundMessage(path))
    case BadJson => Failure(BadJsonMessage(path))
    case Parsed(v) =>
      if !v.JObject? then Failure(NotAnObjectMessage(path))
      else
        match FirstNonString(v.entries)
        case Some(i) => Failure(NotAStringMessage(v.entries[i].key))
        case None => Success(ToUserMap(v.entries))
  }

  /** `readUsersMap` after the file has been read and parsed: the shape check, then one
      pass over the entries that stops at the first value that is not a string. */
  method ReadUsersMap(usersMapPath: string, read: ReadOutcome) returns (r: Result<UserMap, string>)
    ensures r == UsersMapOutcome(usersMapPath, read)
  {
    match read {
      case NotFound =>
        return Failure(NotFoundMessage(usersMapPath));
      case BadJson =>
        return Failure(BadJsonMessage(usersMapPath));
      case Parsed(parsed) =>
        NotAnObjectIff(parsed);
        if NotAnObject(parsed) {
          return Failure(NotAnObjectMessage(usersMapPath));
        }
        var entries := parsed.entries;
        for i := 0 to |entries|
          invariant AllStrings(entries[..i])
        {
          if !entries[i].value.JString? {
            FirstBadValueReported(usersMapPath, entries, i);
            return Failure(NotAStringMessage(entries[i].key));
          }
          assert entries[..i + 1] == entries[..i] + [entries[i]];
        }
        WholePrefix(entries);
        return Success(ToUserMap(entries));
    }
  }

  // Properties of the validation.

  /** The users map is returned exactly when the file was read, parsed to an object, and
      every value in it is a string. */
  lemma UsersMapSucceeds(path: string, read: ReadOutcome)
    ensures UsersMapOutcome(path, read).Success? <==>
      read.Parsed? && read.value.JObject? && AllStrings(read.value.entries)
  {
  }

  /** A value that is not a string is reported by its key, and it is the first one in
      entry order that is reported. */
  lemma FirstBadValueReported(path: string, entries: seq<Entry>, i: nat)
    requires i < |entries| && !entries[i].value.JString?
    requires AllStrings(entries[..i])
    ensures UsersMapOutcome(path, Parsed(JObject(entries))) == Failure(NotAStringMessage(entries[i].key))
  {
    var first := FirstNonString(entries);
    assert first.Some?;
    assert forall k :: 0 <= k < i ==> entries[k] == entries[..i][k];
    assert forall k :: 0 <= k < first.value ==> entries[k] == entries[..first.value][k];
  }

  /** Every key of the object is a key of the map. */
  lemma {:induction false} ToUserMapKeys(entries: seq<Entry>)
    requires AllStrings(entries)
    ensures forall i :: 0 <= i < |entries| ==> entries[i].key in ToUserMap(entries)
    ensures forall k :: k in ToUserMap(entries) ==> exists i :: 0 <= i < |entries| && entries[i].key == k
    decreases |entries|
  {
    if entries != [] {
      var init := entries[..|entries| - 1];
      assert AllStrings(init) by {
        forall i | 0 <= i < |init| ensures init[i].value.JString? {
          assert init[i] == entries[i];
        }
      }
      ToUserMapKeys(init);
      forall k | k in ToUserMap(entries) ensures exists i :: 0 <= i < |entries| && entries[i].key == k {
        if k != entries[|entries| - 1].key {
          var i :| 0 <= i < |init| && init[i].key == k;
          assert entries[i] == init[i];
        }
      }
    }
  }

  /** Keys are distinct in a JavaScript object. */
  predicate DistinctKeys(entries: seq<Entry>) {
    forall i, j :: 0 <= i < j < |entries| ==> entries[i].key != entries[j].key
  }

  /** With distinct keys, every entry appears in the map with its own value: the object
      is returned key for key. */
  lemma {:induction false} ToUserMapValues(entries: seq<Entry>)
    requires AllStrings(entries) && DistinctKeys(entries)
    ensures forall i :: 0 <= i < |entries| ==>
      entries[i].key in ToUserMap(entries) && ToUserMap(entries)[entries[i].key] == entries[i].value.s
    decreases |entries|
  {
    if entries != [] {
      var init := entries[..|entries| - 1];
      assert AllStrings(init) && DistinctKeys(init) by {
        forall i | 0 <= i < |init| ensures init[i] == entries[i] { }
      }
      ToUserMapValues(init);
      forall i | 0 <= i < |entries| - 1
        ensures ToUserMap(entries)[entries[i].key] == entries[i].value.s
      {
        assert init[i] == entries[i];
      }
    }
  }

  /** A valid users map is returned unchanged: its keys are the object's keys and each
      maps to the object's value. */
  lemma ValidUsersMapUnchanged(path: string, entries: seq<Entry>)
    requires AllStrings(entries) && DistinctKeys(entries)
    ensures UsersMapOutcome(path, Parsed(JObject(entries))).Success?
    ensures var m := UsersMapOutcome(path, Parsed(JObject(entries))).value;
      && (forall k :: k in m <==> exists i :: 0 <= i < |entries| && entries[i].key == k)
      && (forall i :: 0 <= i < |entries| ==> m[entries[i].key] == entries[i].value.s)
  {
    ToUserMapKeys(entries);
    ToUserMapValues(entries);
  }

  /** The empty object is a valid, empty users map. */
  lemma EmptyObjectAccepted(path: string)
    ensures UsersMapOutcome(path, Parsed(JObject([]))) == Success(map[])
  {
  }

  // The cases of the source's tests.

  /** `{"alice": "U01ALICE"}` maps alice to her Slack id. */
  lemma ValidMapScenario(path: string)
    ensures UsersMapOutcome(path, Parsed(JObject([Entry("alice", JString("U01ALICE"))])))
         == Success(map["alice" := "U01ALICE"])
  {
    assert [Entry("alice", JString("U01ALICE"))][..0] == [];
  }

  /** Text that does not parse is reported as not valid JSON. */
  lemma InvalidJsonScenario(path: string) returns (at: nat)
    ensures UsersMapOutcome(path, BadJson).Failure?
    ensures InfixAt("not valid JSON", UsersMapOutcome(path, BadJson).error, at)
  {
    assert BadJsonMessage(path) == ("Users map at " + path + " is ") + "not valid JSON" + "";
    InfixOfConcat("Users map at " + path + " is ", "not valid JSON", "");
    at := |"Users map at " + path + " is "|;
  }

  /** `{"alice": 123}` is rejected because the value is not a string. */
  lemma NumberValueScenario(path: string) returns (at: nat)
    ensures
      var r := UsersMapOutcome(path, Parsed(JObject([Entry("alice", JNumber(123.0))])));
      r.Failure? && InfixAt("must be a string", r.error, at)
  {
    var entries := [Entry("alice", JNumber(123.0))];
    FirstBadValueReported(path, entries, 0);
    assert NotAStringMessage("alice") == ("Users map value for " + "alice" + " ") + "must be a string" + "";
    InfixOfConcat("Users map value for " + "alice" + " ", "must be a string", "");
    at := |"Users map value for " + "alice" + " "|;
  }

  // The action's configuration.

  /** The action inputs, as `core.getInput` returns them ("" when not given). */
  datatype ActionInputs = ActionInputs(
    githubToken: string,
    slackBotToken: string,
    slackChannel: string,
    githubOrg: string,
    usersMapPath: string)

  datatype ActionConfig = ActionConfig(
    githubToken: string,
    slackToken: string,
    slackChannel: string,
    org: string,
    userMap: UserMap)

  /** `core.getInput("users_map_path") || DEFAULT_USERS_MAP_PATH`. */
  function EffectiveUsersMapPath(input: string): (p: string)
    ensures p != ""
    ensures input != "" ==> p == input
    ensures input == "" ==> p == DefaultUsersMapPath
  {
    if input != "" then input else DefaultUsersMapPath
  }

  /** `loadConfig`: the inputs, and the users map read from the effective path;
      `readFile` stands for reading and parsing the file at a path. */
  method LoadConfig(inputs: ActionInputs, readFile: string -> ReadOutcome) returns (r: Result<ActionConfig, string>)
    ensures var path := EffectiveUsersMapPath(inputs.usersMapPath);
      var users := UsersMapOutcome(path, readFile(path));
      && (r.Success? <==> users.Success?)
      && (r.Failure? ==> r.error == users.error)
      && (r.Success? ==> r.value == ActionConfig(inputs.githubToken, inputs.slackBotToken,
                                                 inputs.slackChannel, inputs.githubOrg, users.value))
  {
    var usersMapPath := EffectiveUsersMapPath(inputs.usersMapPath);
    var userMap := ReadUsersMap(usersMapPath, readFile(usersMapPath));
    if userMap.Failure? {
      return Failure(userMap.error);
    }
    return Success(ActionConfig(inputs.githubToken, inputs.slackBotToken, inputs.slackChannel,
                                inputs.githubOrg, userMap.value));
  }
}
