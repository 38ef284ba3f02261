/** normalizeProtoFieldNames: snake_case and lowerCamel spellings of a ProtoJSON
    field are one field, and the last value in source order wins. */
module FieldNames {
  import opened Json

  type Aliases = map<string, string>

  function Canonical(name: string, aliases: Aliases): string {
    if name in aliases then aliases[name] else name
  }

  /** Assignment in source order. */
  function Normal(fields: seq<Field>, aliases: Aliases): map<string, Json> {
    if fields == [] then map[]
    else
      var last := fields[|fields| - 1];
      Normal(fields[..|fields| - 1], aliases)[Canonical(last.name, aliases) := last.value]
  }

  /** `i` is the last field spelled as `name`, one way or the other. */
  predicate LastSpelling(fields: seq<Field>, aliases: Aliases, name: string, i: nat) {
    && i < |fields| && Canonical(fields[i].name, aliases) == name
    && forall k | i < k < |fields| :: Canonical(fields[k].name, aliases) != name
  }

  /** One entry per canonical name, holding the last value in source order. */
  ghost predicate LastValues(m: map<string, Json>, fields: seq<Field>, aliases: Aliases) {
    && (forall i | 0 <= i < |fields| :: Canonical(fields[i].name, aliases) in m)
    && (forall name | name in m ::
          exists i: nat :: LastSpelling(fields, aliases, name, i) && m[name] == fields[i].value)
  }

  lemma LaterSpelling(front: seq<Field>, last: Field, aliases: Aliases, name: string, i: nat)
    requires LastSpelling(front, aliases, name, i) && Canonical(last.name, aliases) != name
    ensures LastSpelling(front + [last], aliases, name, i)
  {
  }

  lemma AppendValue(m: map<string, Json>, front: seq<Field>, last: Field, aliases: Aliases)
    requires LastValues(m, front, aliases)
    ensures LastValues(m[Canonical(last.name, aliases) := last.value], front + [last], aliases)
  {
    hide Canonical;
    var fields, key := front + [last], Canonical(last.name, aliases);
    var n := m[key := last.value];
    assert fields[|front|] == last;
    assert forall i | 0 <= i < |front| :: fields[i] == front[i];
    forall name | name in n
      ensures exists i: nat :: LastSpelling(fields, aliases, name, i) && n[name] == fields[i].value
    {
      if name == key {
        assert LastSpelling(fields, aliases, name, |front|);
      } else {
        var i: nat :| LastSpelling(front, aliases, name, i) && m[name] == front[i].value;
        LaterSpelling(front, last, aliases, name, i);
      }
    }
  }

  lemma {:induction false} NormalIsLastValues(fields: seq<Field>, aliases: Aliases)
    ensures LastValues(Normal(fields, aliases), fields, aliases)
  {
    if fields != [] {
      var front, last := fields[..|fields| - 1], fields[|fields| - 1];
      NormalIsLastValues(front, aliases);
      AppendValue(Normal(front, aliases), front, last, aliases);
      assert fields == front + [last];
    }
  }

  /** The characterisation leaves no freedom: it determines the map. */
  lemma LastValuesAreUnique(m: map<string, Json>, n: map<string, Json>, fields: seq<Field>, aliases: Aliases)
    requires LastValues(m, fields, aliases) && LastValues(n, fields, aliases)
    ensures m == n
  {
    LastValuesAgree(m, n, fields, aliases);
    LastValuesAgree(n, m, fields, aliases);
  }

  lemma LastValuesAgree(m: map<string, Json>, n: map<string, Json>, fields: seq<Field>, aliases: Aliases)
    requires LastValues(m, fields, aliases) && LastValues(n, fields, aliases)
    ensures forall name | name in m :: name in n && m[name] == n[name]
  {
    forall name | name in m ensures name in n && m[name] == n[name] {
      var i: nat :| LastSpelling(fields, aliases, name, i) && m[name] == fields[i].value;
      assert Canonical(fields[i].name, aliases) in n;
      var j: nat :| LastSpelling(fields, aliases, name, j) && n[name] == fields[j].value;
    }
  }

  datatype Input = Malformed | Document(json: Json)

  /** The bytes come back as they were, or re-encoded from a map, or not at all. */
  datatype Outcome = Unchanged | Reencoded(members: map<string, Json>) | Failed

  method NormalizeProtoFieldNames(input: Input, aliases: Aliases) returns (r: Outcome)
    ensures r == Unchanged <==> |aliases| == 0
    ensures |aliases| > 0 ==> (r == Failed <==> !(input.Document? && input.json.JObj?))
    ensures r.Reencoded? ==> LastValues(r.members, input.json.fields, aliases)
  {
    if |aliases| == 0 {
      return Unchanged;
    }
    if !input.Document? || !input.json.JObj? {
      return Failed;
    }
    var source := input.json.fields;
    var fields: map<string, Json> := map[];
    var n := 0;
    while n < |source|
      invariant 0 <= n <= |source|
      invariant fields == Normal(source[..n], aliases)
    {
      var name := source[n].name;
      if name in aliases {
        name := aliases[name];
      }
      assert source[..n + 1][..n] == source[..n];
      fields := fields[name := source[n].value];
      n := n + 1;
    }
    assert source[..n] == source;
    NormalIsLastValues(source, aliases);
    r := Reencoded(fields);
  }

  /** The re-encoded object, its members in any order. */
  predicate Reprints(m: map<string, Json>, fields: seq<Field>) {
    && DistinctNames(fields) && Names(fields) == m.Keys
    && forall i | 0 <= i < |fields| :: fields[i].name in m && fields[i].value == m[fields[i].name]
  }

  /** No alias leads to a name that is itself an alias of something else. */
  predicate Settled(aliases: Aliases) {
    forall k | k in aliases :: Canonical(aliases[k], aliases) == aliases[k]
  }

  predicate TargetsAreNotSources(aliases: Aliases) {
    forall k | k in aliases :: aliases[k] !in aliases
  }

  lemma {:induction false} SettledNames(fields: seq<Field>, aliases: Aliases)
    requires Settled(aliases)
    ensures forall name | name in Normal(fields, aliases) :: Canonical(name, aliases) == name
  {
    if fields != [] {
      SettledNames(fields[..|fields| - 1], aliases);
    }
  }

  lemma ReprintsFront(m: map<string, Json>, front: seq<Field>, last: Field)
    requires Reprints(m, front + [last])
    ensures Reprints(m - {last.name}, front) && last.name in m && m[last.name] == last.value
  {
    var fields := front + [last];
    assert fields[|front|] == last;
    assert forall i | 0 <= i < |front| :: fields[i] == front[i] && fields[i].name != last.name;
    assert Names(fields) == Names(front) + {last.name};
  }

  lemma PutBack(m: map<string, Json>, name: string, value: Json)
    requires name in m && m[name] == value
    ensures (m - {name})[name := value] == m
  {
  }

  /** Fields that are already canonical and distinct are normalised to themselves. */
  lemma {:induction false} NormalOfCanonical(m: map<string, Json>, fields: seq<Field>, aliases: Aliases)
    requires Reprints(m, fields)
    requires forall i | 0 <= i < |fields| :: Canonical(fields[i].name, aliases) == fields[i].name
    ensures Normal(fields, aliases) == m
  {
    if fields == [] {
      assert m.Keys == Names(fields) == {};
    } else {
      var front, last := fields[..|fields| - 1], fields[|fields| - 1];
      assert Normal(fields, aliases) == Normal(front, aliases)[last.name := last.value];
      hide Reprints, Normal, Canonical;
      assert fields == front + [last];
      ReprintsFront(m, front, last);
      NormalOfCanonical(m - {last.name}, front, aliases);
      PutBack(m, last.name, last.value);
    }
  }

  ghost predicate Idempotent(aliases: Aliases) {
    forall fields: seq<Field>, again: seq<Field> | Reprints(Normal(fields, aliases), again) ::
      Normal(again, aliases) == Normal(fields, aliases)
  }

  /** Normalising twice is normalising once, on every input, exactly for the
      settled tables. */
  lemma IdempotentIffSettled(aliases: Aliases)
    ensures Idempotent(aliases) <==> Settled(aliases)
  {
    if Settled(aliases) {
      forall fields: seq<Field>, again: seq<Field> | Reprints(Normal(fields, aliases), again)
        ensures Normal(again, aliases) == Normal(fields, aliases)
      {
        SettledNames(fields, aliases);
        NormalOfCanonical(Normal(fields, aliases), again, aliases);
      }
    } else {
      var k :| k in aliases && Canonical(aliases[k], aliases) != aliases[k];
      var fields, again := [Field(k, JNull)], [Field(aliases[k], JNull)];
      assert fields[..0] == [] && again[..0] == [];
      assert Normal(fields, aliases) == map[aliases[k] := JNull];
      assert again[0].name == aliases[k];
      assert Reprints(Normal(fields, aliases), again);
      assert Canonical(aliases[k], aliases) in Normal(again, aliases);
      assert Canonical(aliases[k], aliases) !in Normal(fields, aliases);
    }
  }

  /** Re-spelling any field names between their two forms changes nothing. */
  lemma {:induction false} RespellingInvariant(fields: seq<Field>, respelled: seq<Field>, aliases: Aliases)
    requires |fields| == |respelled|
    requires forall i | 0 <= i < |fields| ::
               && fields[i].value == respelled[i].value
               && Canonical(fields[i].name, aliases) == Canonical(respelled[i].name, aliases)
    ensures Normal(fields, aliases) == Normal(respelled, aliases)
  {
    if fields != [] {
      var n := |fields| - 1;
      RespellingInvariant(fields[..n], respelled[..n], aliases);
    }
  }

  const MESSAGE: Aliases := map[
    "message_id" := "messageId", "context_id" := "contextId", "task_id" := "taskId",
    "reference_task_ids" := "referenceTaskIds"]
  const ARTIFACT: Aliases := map["artifact_id" := "artifactId"]
  const TASK: Aliases := map["context_id" := "contextId"]
  const SEND_CONFIGURATION: Aliases := map[
    "accepted_output_modes" := "acceptedOutputModes",
    "task_push_notification_config" := "taskPushNotificationConfig",
    "history_length" := "historyLength", "return_immediately" := "returnImmediately"]
  const GET_TASK: Aliases := map["history_length" := "historyLength"]
  const LIST_TASKS: Aliases := map[
    "context_id" := "contextId", "page_size" := "pageSize", "page_token" := "pageToken",
    "history_length" := "historyLength", "status_timestamp_after" := "statusTimestampAfter",
    "include_artifacts" := "includeArtifacts"]
  const LIST_TASKS_RESPONSE: Aliases := map[
    "next_page_token" := "nextPageToken", "page_size" := "pageSize", "total_size" := "totalSize"]
  const AGENT_INTERFACE: Aliases := map[
    "protocol_binding" := "protocolBinding", "protocol_version" := "protocolVersion"]
  const AGENT_CAPABILITIES: Aliases := map[
    "push_notifications" := "pushNotifications", "extended_agent_card" := "extendedAgentCard"]
  const AGENT_SKILL: Aliases := map[
    "input_modes" := "inputModes", "output_modes" := "outputModes",
    "security_requirements" := "securityRequirements"]
  const AGENT_CARD: Aliases := map[
    "supported_interfaces" := "supportedInterfaces", "documentation_url" := "documentationUrl",
    "security_schemes" := "securitySchemes", "security_requirements" := "securityRequirements",
    "default_input_modes" := "defaultInputModes", "default_output_modes" := "defaultOutputModes",
    "icon_url" := "iconUrl"]

  /** The messages that carry an alias table. */
  datatype Table =
    | Message | Artifact | Task | SendConfiguration | GetTask | ListTasks
    | ListTasksResponse | AgentInterface | AgentCapabilities | AgentSkill | AgentCard

  function AliasesOf(table: Table): Aliases {
    match table
    case Message => MESSAGE
    case Artifact => ARTIFACT
    case Task => TASK
    case SendConfiguration => SEND_CONFIGURATION
    case GetTask => GET_TASK
    case ListTasks => LIST_TASKS
    case ListTasksResponse => LIST_TASKS_RESPONSE
    case AgentInterface => AGENT_INTERFACE
    case AgentCapabilities => AGENT_CAPABILITIES
    case AgentSkill => AGENT_SKILL
    case AgentCard => AGENT_CARD
  }

  lemma MessageTablesAreDisjoint()
    ensures TargetsAreNotSources(MESSAGE) && TargetsAreNotSources(ARTIFACT) && TargetsAreNotSources(TASK)
    ensures TargetsAreNotSources(GET_TASK)
  {
  }

  lemma ConfigurationTableIsDisjoint()
    ensures TargetsAreNotSources(SEND_CONFIGURATION)
  {
  }

  lemma ListTablesAreDisjoint()
    ensures TargetsAreNotSources(LIST_TASKS) && TargetsAreNotSources(LIST_TASKS_RESPONSE)
  {
  }

  lemma AgentTablesAreDisjoint()
    ensures TargetsAreNotSources(AGENT_INTERFACE) && TargetsAreNotSources(AGENT_CAPABILITIES)
    ensures TargetsAreNotSources(AGENT_SKILL)
  {
  }

  lemma CardTableIsDisjoint()
    ensures TargetsAreNotSources(AGENT_CARD)
  {
  }

  /** Every shipped table has targets disjoint from its sources, so that
      normalisation with it is idempotent. */
  lemma ShippedTablesAreIdempotent(table: Table)
    ensures TargetsAreNotSources(AliasesOf(table)) && Idempotent(AliasesOf(table))
  {
    hide TargetsAreNotSources;
    MessageTablesAreDisjoint();
    ConfigurationTableIsDisjoint();
    ListTablesAreDisjoint();
    AgentTablesAreDisjoint();
    CardTableIsDisjoint();
    DisjointTableIsIdempotent(AliasesOf(table));
  }

  lemma DisjointTableIsIdempotent(aliases: Aliases)
    requires TargetsAreNotSources(aliases)
    ensures Idempotent(aliases)
  {
    IdempotentIffSettled(aliases);
  }
}
