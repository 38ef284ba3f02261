/** The alias tables' spelling: every target is the ProtoJSON name of its source. */
module FieldSpelling {
  import opened FieldNames

  function Upper(c: char): char {
    if 'a' <= c <= 'z' then 'A' + (c - 'a') else c
  }

  /** ProtoJSON's name of a field: an underscore goes, and the letter behind it is
      written large. */
  function LowerCamel(name: string): string {
    if name == "" then ""
    else if name[0] != '_' then [name[0]] + LowerCamel(name[1..])
    else if |name| == 1 then ""
    else [Upper(name[1])] + LowerCamel(name[2..])
  }

  predicate TargetsAreCamel(aliases: Aliases) {
    forall k | k in aliases :: aliases[k] == LowerCamel(k)
  }

  predicate Word(word: string) {
    word != "" && forall i | 0 <= i < |word| :: word[i] != '_'
  }

  /** `large` is the word with a large first letter. */
  predicate Large(large: string, word: string) {
    word != "" && large == [Upper(word[0])] + word[1..]
  }

  lemma {:induction false} WordStays(word: string, rest: string)
    requires word == "" || Word(word)
    ensures LowerCamel(word + rest) == word + LowerCamel(rest)
  {
    if word == "" {
      assert word + rest == rest;
    } else {
      WordStays(word[1..], rest);
      assert (word + rest)[1..] == word[1..] + rest;
      assert word == [word[0]] + word[1..];
    }
  }

  lemma WordIsLarge(word: string, large: string, rest: string)
    requires Word(word) && Large(large, word)
    ensures LowerCamel("_" + word + rest) == large + LowerCamel(rest)
  {
    var name := "_" + word + rest;
    assert name[2..] == word[1..] + rest && name[1] == word[0];
    assert LowerCamel(name) == [Upper(word[0])] + LowerCamel(word[1..] + rest);
    hide LowerCamel, Upper;
    WordStays(word[1..], rest);
  }

  lemma TwoWords(a: string, b: string, large: string)
    requires Word(a) && Word(b) && Large(large, b)
    ensures LowerCamel(a + "_" + b) == a + large
  {
    WordStays(a, "_" + b);
    WordIsLarge(b, large, "");
    assert "_" + b + "" == "_" + b && a + "_" + b == a + ("_" + b);
  }

  lemma ThreeWords(a: string, b: string, c: string, large: string, larger: string)
    requires Word(a) && Word(b) && Word(c) && Large(large, b) && Large(larger, c)
    ensures LowerCamel(a + "_" + b + "_" + c) == a + large + larger
  {
    hide Large, Word;
    WordStays(a, "_" + b + ("_" + c));
    WordIsLarge(b, large, "_" + c);
    WordIsLarge(c, larger, "");
    assert "_" + c + "" == "_" + c;
    assert a + "_" + b + "_" + c == a + ("_" + b + ("_" + c));
  }

  lemma FourWords(a: string, b: string, c: string, d: string, large: string, larger: string, largest: string)
    requires Word(a) && Word(b) && Word(c) && Word(d) && Large(large, b) && Large(larger, c) && Large(largest, d)
    ensures LowerCamel(a + "_" + b + "_" + c + "_" + d) == a + large + larger + largest
  {
    hide Large, Word, LowerCamel;
    WordStays(a, "_" + b + ("_" + c + ("_" + d)));
    WordIsLarge(b, large, "_" + c + ("_" + d));
    WordIsLarge(c, larger, "_" + d);
    WordIsLarge(d, largest, "");
    NoWord();
    assert "_" + d + "" == "_" + d;
    assert a + "_" + b + "_" + c + "_" + d == a + ("_" + b + ("_" + c + ("_" + d)));
  }

  lemma NoWord()
    ensures LowerCamel("") == ""
  {
  }

  lemma IdNames()
    ensures LowerCamel("message_id") == "messageId"
    ensures LowerCamel("context_id") == "contextId"
    ensures LowerCamel("task_id") == "taskId"
    ensures LowerCamel("artifact_id") == "artifactId"
  {
    hide LowerCamel;
    TwoWords("message", "id", "Id");
    assert "message_id" == "message" + "_" + "id";
    assert "messageId" == "message" + "Id";
    TwoWords("context", "id", "Id");
    assert "context_id" == "context" + "_" + "id";
    assert "contextId" == "context" + "Id";
    TwoWords("task", "id", "Id");
    assert "task_id" == "task" + "_" + "id";
    assert "taskId" == "task" + "Id";
    TwoWords("artifact", "id", "Id");
    assert "artifact_id" == "artifact" + "_" + "id";
    assert "artifactId" == "artifact" + "Id";
  }

  lemma TaskNames()
    ensures LowerCamel("reference_task_ids") == "referenceTaskIds"
    ensures LowerCamel("history_length") == "historyLength"
  {
    hide LowerCamel;
    ThreeWords("reference", "task", "ids", "Task", "Ids");
    assert "reference_task_ids" == "reference" + "_" + "task" + "_" + "ids";
    assert "referenceTaskIds" == "reference" + "Task" + "Ids";
    TwoWords("history", "length", "Length");
    assert "history_length" == "history" + "_" + "length";
    assert "historyLength" == "history" + "Length";
  }

  lemma ReturnName()
    ensures LowerCamel("return_immediately") == "returnImmediately"
  {
    hide LowerCamel;
    TwoWords("return", "immediately", "Immediately");
    assert "return_immediately" == "return" + "_" + "immediately";
    assert "returnImmediately" == "return" + "Immediately";
  }

  lemma PageNames()
    ensures LowerCamel("page_size") == "pageSize"
    ensures LowerCamel("page_token") == "pageToken"
    ensures LowerCamel("next_page_token") == "nextPageToken"
    ensures LowerCamel("total_size") == "totalSize"
  {
    hide LowerCamel;
    TwoWords("page", "size", "Size");
    assert "page_size" == "page" + "_" + "size";
    assert "pageSize" == "page" + "Size";
    TwoWords("page", "token", "Token");
    assert "page_token" == "page" + "_" + "token";
    assert "pageToken" == "page" + "Token";
    ThreeWords("next", "page", "token", "Page", "Token");
    assert "next_page_token" == "next" + "_" + "page" + "_" + "token";
    assert "nextPageToken" == "next" + "Page" + "Token";
    TwoWords("total", "size", "Size");
    assert "total_size" == "total" + "_" + "size";
    assert "totalSize" == "total" + "Size";
  }

  lemma ModeNames()
    ensures LowerCamel("input_modes") == "inputModes"
    ensures LowerCamel("output_modes") == "outputModes"
    ensures LowerCamel("accepted_output_modes") == "acceptedOutputModes"
  {
    hide LowerCamel;
    TwoWords("input", "modes", "Modes");
    assert "input_modes" == "input" + "_" + "modes";
    assert "inputModes" == "input" + "Modes";
    TwoWords("output", "modes", "Modes");
    assert "output_modes" == "output" + "_" + "modes";
    assert "outputModes" == "output" + "Modes";
    ThreeWords("accepted", "output", "modes", "Output", "Modes");
    assert "accepted_output_modes" == "accepted" + "_" + "output" + "_" + "modes";
    assert "acceptedOutputModes" == "accepted" + "Output" + "Modes";
  }

  lemma DefaultNames()
    ensures LowerCamel("default_input_modes") == "defaultInputModes"
    ensures LowerCamel("default_output_modes") == "defaultOutputModes"
  {
    hide LowerCamel;
    ThreeWords("default", "input", "modes", "Input", "Modes");
    assert "default_input_modes" == "default" + "_" + "input" + "_" + "modes";
    assert "defaultInputModes" == "default" + "Input" + "Modes";
    ThreeWords("default", "output", "modes", "Output", "Modes");
    assert "default_output_modes" == "default" + "_" + "output" + "_" + "modes";
    assert "defaultOutputModes" == "default" + "Output" + "Modes";
  }

  lemma PushNames()
    ensures LowerCamel("push_notifications") == "pushNotifications"
  {
    hide LowerCamel;
    TwoWords("push", "notifications", "Notifications");
    assert "push_notifications" == "push" + "_" + "notifications";
    assert "pushNotifications" == "push" + "Notifications";
  }

  lemma PushConfigWords()
    ensures "task_push_notification_config" == "task" + "_" + "push" + "_" + "notification" + "_" + "config"
    ensures "taskPushNotificationConfig" == "task" + "Push" + "Notification" + "Config"
  {
  }

  lemma PushConfigName()
    ensures LowerCamel("task_push_notification_config") == "taskPushNotificationConfig"
  {
    hide LowerCamel;
    FourWords("task", "push", "notification", "config", "Push", "Notification", "Config");
    PushConfigWords();
  }

  lemma ListNames()
    ensures LowerCamel("status_timestamp_after") == "statusTimestampAfter"
    ensures LowerCamel("include_artifacts") == "includeArtifacts"
  {
    hide LowerCamel;
    ThreeWords("status", "timestamp", "after", "Timestamp", "After");
    assert "status_timestamp_after" == "status" + "_" + "timestamp" + "_" + "after";
    assert "statusTimestampAfter" == "status" + "Timestamp" + "After";
    TwoWords("include", "artifacts", "Artifacts");
    assert "include_artifacts" == "include" + "_" + "artifacts";
    assert "includeArtifacts" == "include" + "Artifacts";
  }

  lemma ProtocolNames()
    ensures LowerCamel("protocol_binding") == "protocolBinding"
    ensures LowerCamel("protocol_version") == "protocolVersion"
  {
    hide LowerCamel;
    TwoWords("protocol", "binding", "Binding");
    assert "protocol_binding" == "protocol" + "_" + "binding";
    assert "protocolBinding" == "protocol" + "Binding";
    TwoWords("protocol", "version", "Version");
    assert "protocol_version" == "protocol" + "_" + "version";
    assert "protocolVersion" == "protocol" + "Version";
  }

  lemma ExtendedName()
    ensures LowerCamel("extended_agent_card") == "extendedAgentCard"
  {
    hide LowerCamel;
    ThreeWords("extended", "agent", "card", "Agent", "Card");
    assert "extended_agent_card" == "extended" + "_" + "agent" + "_" + "card";
    assert "extendedAgentCard" == "extended" + "Agent" + "Card";
  }

  lemma RequirementsName()
    ensures LowerCamel("security_requirements") == "securityRequirements"
  {
    hide LowerCamel;
    TwoWords("security", "requirements", "Requirements");
    assert "security_requirements" == "security" + "_" + "requirements";
    assert "securityRequirements" == "security" + "Requirements";
  }

  lemma SchemesName()
    ensures LowerCamel("security_schemes") == "securitySchemes"
  {
    hide LowerCamel;
    TwoWords("security", "schemes", "Schemes");
    assert "security_schemes" == "security" + "_" + "schemes";
    assert "securitySchemes" == "security" + "Schemes";
  }

  lemma CardNames()
    ensures LowerCamel("supported_interfaces") == "supportedInterfaces"
    ensures LowerCamel("documentation_url") == "documentationUrl"
    ensures LowerCamel("icon_url") == "iconUrl"
  {
    hide LowerCamel;
    TwoWords("supported", "interfaces", "Interfaces");
    assert "supported_interfaces" == "supported" + "_" + "interfaces";
    assert "supportedInterfaces" == "supported" + "Interfaces";
    TwoWords("documentation", "url", "Url");
    assert "documentation_url" == "documentation" + "_" + "url";
    assert "documentationUrl" == "documentation" + "Url";
    TwoWords("icon", "url", "Url");
    assert "icon_url" == "icon" + "_" + "url";
    assert "iconUrl" == "icon" + "Url";
  }

  lemma MessageTableIsCamel()
    ensures TargetsAreCamel(MESSAGE)
  {
    hide LowerCamel;
    IdNames();
    TaskNames();
  }

  lemma ArtifactTableIsCamel()
    ensures TargetsAreCamel(ARTIFACT)
  {
    hide LowerCamel;
    IdNames();
  }

  lemma TaskTableIsCamel()
    ensures TargetsAreCamel(TASK)
  {
    hide LowerCamel;
    IdNames();
  }

  lemma SendConfigurationTableIsCamel()
    ensures TargetsAreCamel(SEND_CONFIGURATION)
  {
    hide LowerCamel;
    ModeNames();
    PushConfigName();
    TaskNames();
    ReturnName();
  }

  lemma GetTaskTableIsCamel()
    ensures TargetsAreCamel(GET_TASK)
  {
    hide LowerCamel;
    TaskNames();
  }

  lemma ListTasksTableIsCamel()
    ensures TargetsAreCamel(LIST_TASKS)
  {
    hide LowerCamel;
    IdNames();
    PageNames();
    TaskNames();
    ListNames();
  }

  lemma ListTasksResponseTableIsCamel()
    ensures TargetsAreCamel(LIST_TASKS_RESPONSE)
  {
    hide LowerCamel;
    PageNames();
  }

  lemma AgentInterfaceTableIsCamel()
    ensures TargetsAreCamel(AGENT_INTERFACE)
  {
    hide LowerCamel;
    ProtocolNames();
  }

  lemma AgentCapabilitiesTableIsCamel()
    ensures TargetsAreCamel(AGENT_CAPABILITIES)
  {
    hide LowerCamel;
    PushNames();
    ExtendedName();
  }

  lemma AgentSkillTableIsCamel()
    ensures TargetsAreCamel(AGENT_SKILL)
  {
    hide LowerCamel;
    ModeNames();
    RequirementsName();
  }

  lemma AgentCardTableIsCamel()
    ensures TargetsAreCamel(AGENT_CARD)
  {
    hide LowerCamel;
    CardNames();
    SchemesName();
    RequirementsName();
    DefaultNames();
  }

  /** Every shipped table leads from a field's name to its ProtoJSON name. */
  lemma ShippedTablesAreCamel(table: Table)
    ensures TargetsAreCamel(AliasesOf(table))
  {
    hide TargetsAreCamel;
    match table
    case Message => MessageTableIsCamel();
    case Artifact => ArtifactTableIsCamel();
    case Task => TaskTableIsCamel();
    case SendConfiguration => SendConfigurationTableIsCamel();
    case GetTask => GetTaskTableIsCamel();
    case ListTasks => ListTasksTableIsCamel();
    case ListTasksResponse => ListTasksResponseTableIsCamel();
    case AgentInterface => AgentInterfaceTableIsCamel();
    case AgentCapabilities => AgentCapabilitiesTableIsCamel();
    case AgentSkill => AgentSkillTableIsCamel();
    case AgentCard => AgentCardTableIsCamel();
  }
}
