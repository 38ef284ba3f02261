# Donmai CLI: verified models of its protocols, codecs and stores

This project models the parts of the Donmai command line and its A2A library
that are state machines, codecs or in-place data structure edits, and proves
what they promise for every input, every run and every interleaving with their
environment. `dafny verify dfyconfig.toml` checks all of it.

| files | subject |
|---|---|
| `ProcessGroup`, `PsTable`, `ProbeTrace`, `Probe` | the GitHub token probe: a child in its own process group is started, observed, stopped and reaped while every other process keeps running; `ProbeTrace` states the two loops as protocols over what happened |
| `Json`, `Base64`, `PartCodec`, `FieldNames`, `FieldSpelling`, `Timestamp` | the ProtoJSON codec of A2A v1: Part, field aliases, timestamps |
| `MappingNode`, `YamlText`, `YamlNode`, `YamlEdit`, `UsagePing`, `UsagePingFile`, `UsagePingCases` | the usage-ping consent block of daemon.yaml: list edits, documents with anchors and aliases, the same edits on linked nodes in memory, the set commands as sequences of atomic file writes, and the documents on which they surprise |
| `SessionStream` | tailing an activity log by polling with a cursor |
| `CommentUpsert` | the one drift-check comment on a pull request |
| `IndexRoot` | lexical containment of `--repo-path` |
| `ReceiptAuthority`, `CredentialCache` | which fields of a session detail decide the work, and the credentials used for it |
| `WorktreeCleanup`, `PoolBuckets`, `Durations` | cleanup accounting, pool aggregation, duration printing |
| `Decimal` | `%d`, `%0Nd` and `strconv.Atoi` |

## How the environment is modelled

- The other processes are an arbitrary function from moments to sequences of
  forks, exits, reaps and group changes, run before every system call of the
  probe; failing `ps`, failing `kill` and the branch taken by `select` are
  arbitrary functions too. A contract of `Probe.Run` therefore holds on every
  interleaving. Assumed: a `ps` table is taken atomically; ids in use are not
  handed out again; nobody but the daemon reaps its child; a process enters the
  child's group only by being forked inside it. What a signal does is left to the
  other processes: they may exit, later, or not at all.
- `rounds` bounds how many ticks pass before a deadline or a context ends a loop.
  It is arbitrary, so no property depends on it.
- JSON objects are sequences of fields, in source order and with duplicates;
  printing is a relation, so a printed object may have any member order.
- daemon.yaml is the tree that its text spells, with anchors, and with aliases by
  name. Reading it resolves every alias to the last node of that name before it,
  as the YAML parser does; a document with an alias that finds none does not load.
  A crash or an I/O error may come between any two atomic replacements of the
  file. `YamlEdit` keeps a view from linked nodes to texts and shows that each edit
  in place, also one that reaches the block through an alias pointer, does to the
  text what `UsagePing` says.
- A call to the GitHub API may take effect although its answer is an error.
- The activity server appends between polls, pages as it likes, and may or may
  not return a cursor; its pages are contiguous after the cursor.
- Decoders and validators of other packages are arbitrary functions; the two
  reconcilers of the runner package are modelled.

## Where the code does not do what one would expect

Each of these is proved, with the exact condition under which the expected law
holds.

- *Last field wins* fails for one shape of raw field: `encoding/json` decodes a
  JSON array into the byte array of the previous raw field, and a `null` element
  keeps the byte found there (`PartCodec.StaleByteExample`). The value is that of
  the last field if and only if no such byte is kept (`PartCodec.LastWins`).
- A Part decodes from its own encoding if and only if it has one arm and its raw
  arm, if active, is not nil (`PartCodec.RoundTrip`): a nil raw slice is printed
  as `null`, which the decoder ignores.
- Go's RFC 3339 parser accepts one-digit hours, a decimal comma and more than
  nine fractional digits; digits after the ninth are cut off
  (`Timestamp.FractionIsExactOrTruncated`).
- Upsert and delete match a key node of any kind, find only scalar keys. Upsert
  then find works if and only if the matched key is visible to find
  (`MappingNode.UpsertThenFind`, failing at `MappingNode.HiddenKeyExample`), so
  that an enable may store an id that nobody can read
  (`UsagePing.EnableConsentIff`, `UsagePingCases.HiddenIdExample`). A disable
  leaves no usagePing key if and only if no second one follows the first
  (`UsagePing.DisableClearsIff`, failing at `UsagePingCases.SecondBlockExample`).
- "Preserving every other key" fails when another key is an alias into the block. A
  write into a block that another key is an alias of changes that key too, and a
  disable then leaves a file that does not load (`UsagePingCases.SharedBlockExample`).
  Replacing a named endpoint that another key is an alias of also leaves a file that
  does not load, although the block has no name (`UsagePingCases.NamedEndpointExample`).
  A write into a block given in place keeps every other key if and only if the block
  before and after it leaves the same nodes under every name taken behind it; one
  through an alias must moreover be read as before (`UsagePing.WriteKeepsOthersIff`).
  Where no field has a name that says: nothing read of the block changes, or nothing
  behind it is an alias of it (`UsagePing.UnnamedWriteIff`). A disable keeps the rest
  if and only if every name taken behind the block meant the same before it, which for
  new names says that nothing is an alias into the block
  (`UsagePing.DisableKeepsOthersIff`, `UsagePing.DisableNeedsNoAlias`).
- A write may change other fields of its own block, when they are aliases of the node
  it removes. It keeps them all if and only if every name taken behind the removed node
  meant the same before it (`UsagePing.WriteIsSeen`, `UsagePing.EditListIff`). Each
  single field reads as before, unless it is an alias of the removed node; then it
  reads as what the name stood for before that node (`UsagePing.FieldAfterWrite`). In
  this way setting the endpoint can even turn "enabled" on without an id
  (`UsagePingCases.NamedFieldExample`); it keeps the consent promise if and only if
  these readings do (`UsagePing.EndpointConsentIff`). Over all runs the promise holds as
  soon as the id is a plain scalar, which every enable makes it, and as long as neither
  `enabled` nor the id is an alias into the endpoint (`UsagePing.ConsentAlways`).
- `publish` raises on a comment whose `user` is null, or on a bot comment whose
  `body` is null, if it comes before the marker comment; no write happens then.
  And a run may report failure although its write took effect
  (`CommentUpsert.WritesIffNothingRaises`, `CommentUpsert.NullUserExample`).
- Both duration printers overflow beyond 9223372036 seconds
  (`Durations.ReadsBackIffInRange`, `Durations.OverflowExample`).

## Model

| member | source | states |
|---|---|---|
| `Probe.Run.RunOwnedGitHubTokenProbe` | afcli/local_github_credentials_unix.go:41-83 | On every interleaving, a run starts a child exactly when ps and Start work, and is then disciplined: Start first, Wait last and once, and in between the observation protocol followed by the stop protocol, with truthful inspections of the child's own group and signals to it only, each while the child is unreaped and the id is neither 1 nor the daemon's group. It reports quiescent exactly when both protocols ended well and Wait met no delay limit: no inspection failed or lost the anchor, and the last step before Wait was an inspection that found no live member; then none can appear in any continuation and none is there when Wait reaps. |
| `Probe.Run.ObserveAndStop` | afcli/local_github_credentials_unix.go:52-73 | Observation and stop together succeed exactly on the evidence for quiescence, and stop runs whether or not observation failed. |
| `Probe.Run.Observe` | afcli/local_github_credentials_unix.go:52-72 | What happened follows the observation protocol; it succeeds exactly when its last look found the leader in place but not running, or its ticks are used up, and fails at the first lost look. |
| `Probe.Run.Stop` | afcli/local_github_credentials_unix.go:133-190 | Without getpgid nothing is done. Otherwise there is a first look; if it shows writers, TERM follows at once; KILL is sent if and only if a grace branch was taken. Success if and only if every look was clear and the last one found the group quiet, in the world as it still is; failure has a lost look, a refused signal followed by a look that still shows writers, or a deadline taken after such a look. |
| `Probe.Run.StopLoop` | afcli/local_github_credentials_unix.go:170-190 | The loop continues the stop protocol: whichever branches select takes, each is taken after a look that showed writers, the grace branch sends KILL once, and it ends in a stopped phase, well exactly when the last look was quiet. |
| `Probe.Run.Send` | afcli/local_github_credentials_unix.go:152-161 | One signal to the owned group while its leader is unreaped; a failed kill is forgiven only by a fresh clear look without live members. |
| `Probe.Run.Writers` | afcli/local_github_credentials_unix.go:138-147 | The inspect closure: an error for an unreadable table or a lost anchor, otherwise the truth about live members. |
| `Probe.Run.Wait` | afcli/local_github_credentials_unix.go:74-75 | Wait reaps the leader, which was still unreaped and owned; a group that was quiet before is quiet when it does. |
| `Probe.QuietForever` | afcli/local_github_credentials_unix.go:19-21 | No sequence of steps of other processes revives a quiet group. |
| `Probe.Run.Select` | afcli/local_github_credentials_unix.go:174-187 | The branch is the one the environment chooses, or the deadline when no ticks are left. |
| `ProcessGroup.StepsKeepOwned` | afcli/local_github_credentials_unix.go:19-21 | From Start to Wait, whatever others do, the child's id stays anchored and everything in its group descends from the child. |
| `ProcessGroup.StepsKeepQuiet` | afcli/local_github_credentials_unix.go:41-83 | Quietness of the group is preserved by every run of the environment. |
| `ProcessGroup.SpawnIsOwned` | afcli/local_github_credentials_unix.go:45-49 | Start with Setpgid establishes ownership of a fresh group. |
| `ProbeTrace.SignalsOfConcat` | afcli/local_github_credentials_unix.go:133-190 | The signals of a run are those of its parts in order. |
| `ProbeTrace.StopLaws` | afcli/local_github_credentials_unix.go:133-190 | Every sequence of looks, signals and branches that follows the stop protocol: looks first, TERM right after a first look that shows writers, a branch only after a look that shows writers, signals escalating once, KILL exactly when a grace branch was taken, and for every way to stop the evidence for it. |
| `ProbeTrace.StopIsResolute` | afcli/local_github_credentials_unix.go:133-190 | A finished stop that saw writers first has sent TERM, and gave up only for a lost look, a refused signal or the deadline. |
| `ProbeTrace.WatchLaws` | afcli/local_github_credentials_unix.go:52-72 | Observation sends no signal and ends with the leader ended, all its ticks used, or a lost look. |
| `ProbeTrace.FollowsIsAttended` | afcli/local_github_credentials_unix.go:52-73 | Observation followed by stop escalates once, and succeeds exactly on the evidence for quiescence. |
| `PsTable.InspectLocalGitHubGroup` | afcli/local_github_credentials_unix.go:100-131 | The table is refused exactly when a line is not blank and not four columns with three integers; an atomic table, in any line order, yields the true anchored, leader and writer state. |
| `PsTable.ScanOfPart` | afcli/local_github_credentials_unix.go:105-129 | After any prefix of the table the state is exactly what that prefix shows. |
| `PsTable.PrintedRowReadsBack` | afcli/local_github_credentials_unix.go:113-124 | The line printed for a process reads back as that process, a leading Z meaning zombie. |
| `PsTable.ReadTable` | afcli/local_github_credentials_unix.go:85-98 | A ps table in an arbitrary order describes the process table it was taken from. |
| `PsTable.LineIsReadIff` | afcli/local_github_credentials_unix.go:105-120 | A line is skipped, refused or read exactly as its number of columns and its three integer texts say. |
| `PartCodec.RoundTrip` | a2a/protojson.go:184-209 | Decoding the printed Part gives that Part back, in every printed field order, if and only if the Part is well formed. |
| `PartCodec.DecodedPartsRoundTrip` | a2a/protojson.go:213-298 | Every Part that the decoder produced survives another encode and decode. |
| `PartCodec.MarshalEmits` | a2a/protojson.go:184-209 | The output map carries exactly the arm named by the kind and the metadata, filename and mediaType that are set, each once. |
| `PartCodec.LastWins` | a2a/protojson.go:211-298 | For every accepted field sequence at most one arm is populated; it is the arm of the last effective content field, none if there is none, and its value is what that field says on its own if and only if it keeps no byte of the run of raw fields before it. |
| `PartCodec.EffectiveTakesOver` | a2a/protojson.go:233-273 | An effective field takes over the content whatever was decoded before and clears the other arms. |
| `PartCodec.InertKeepsContent` | a2a/protojson.go:233-286 | A null text, raw or url and every attribute field leave the content alone. |
| `PartCodec.DecodeFieldKeepsForm` | a2a/protojson.go:312-326 | Every iteration keeps one arm at most, with a raw arm that is not nil. |
| `PartCodec.Target.UnmarshalJSON` | a2a/protojson.go:213-298 | Accepts exactly the objects whose fields all have a known name and a value that the name admits; a success stores the decoded, well formed Part, any failure leaves the receiver unchanged. |
| `PartCodec.FailureIsFinal` | a2a/protojson.go:223-289 | A field that fails makes the whole object fail, whatever follows. |
| `PartCodec.RawReuse` | a2a/protojson.go:245-256 | Re-decoding into the previous raw bytes gives the value of the field alone if and only if no stale byte is kept. |
| `PartCodec.BackingIsRawBytes` | a2a/protojson.go:245-256 | The bytes left in memory are those of the run of raw fields since the last other effective field. |
| `PartCodec.StaleByteExample` | a2a/protojson.go:245-256 | After any raw string with a non-zero first byte, a raw field `[null]` decodes to that byte instead of zero. |
| `PartCodec.TextPart` | a2a/types.go:101 | A text Part is well formed. |
| `PartCodec.RawPart` | a2a/types.go:104-106 | A raw Part, even of no bytes, is well formed. |
| `PartCodec.UrlPart` | a2a/types.go:109 | A URL Part is well formed. |
| `PartCodec.DataPart` | a2a/types.go:113 | A data Part, even of nil, is well formed. |
| `PartCodec.AcceptedIff` | a2a/protojson.go:211-298 | A field sequence decodes if and only if every field has one of the eight known names and a value of the kind that name admits; unknown fields fail closed. |
| `PartCodec.LastTextWins` | a2a/protojson.go:278-285 | The decoded mediaType is the text of the last non-null field spelled mediaType or media_type, and filename that of its last non-null field; empty if there is none. |
| `PartCodec.MetadataMerges` | a2a/protojson.go:274-277 | The decoded metadata is the merge of the metadata objects since the last null one, a later member replacing an earlier one; absent exactly if there is none. |
| `PartCodec.RawByteIs` | a2a/protojson.go:245-256 | Every byte of a decoded raw arm is the one of the last field that decides about its place: a number in an array, a byte of a base64 string, or zero. |
| `PartCodec.LastByteWins` | a2a/protojson.go:245-256 | The same for the whole array in memory behind the slice. |
| `Base64.DecodeOfEncode` | a2a/protojson.go:191-192 | Base64 of section 4 of RFC 4648 reads back, for every byte sequence. |
| `Base64.GroupsIff` | a2a/protojson.go:245-256 | The decoder accepts exactly the texts of whole groups over the alphabet, the last of which may end in one or two pads. |
| `Base64.LineBreaksAreSkipped` | a2a/protojson.go:245-256 | A carriage return or line feed anywhere changes nothing. |
| `Base64.EncodeOfDecode` | a2a/protojson.go:245-256 | Encoding what was decoded gives the text back, except that bits of the last symbol that belong to no byte are cleared. |
| `Json.PrintedReadsBack` | a2a/protojson.go:196-199 | A printed value reads back as itself whatever the member order of its objects. |
| `Json.LastMemberWins` | a2a/protojson.go:264-277 | Exactly the names that occur become members, each with its last value. |
| `Json.EveryValueIsPrinted` | a2a/protojson.go:196-199 | Every value has a printed form, so that no round trip holds for want of one. |
| `FieldNames.NormalizeProtoFieldNames` | a2a/protojson.go:337-377 | An empty table returns the bytes untouched, anything but an object fails, and otherwise there is one entry per canonical name, holding the last value in source order. |
| `FieldNames.LastValuesAreUnique` | a2a/protojson.go:337-377 | That description determines the result. |
| `FieldNames.IdempotentIffSettled` | a2a/protojson.go:337-377 | Normalising twice is normalising once, for all inputs and all re-encodings, if and only if no alias leads to another alias. |
| `FieldNames.RespellingInvariant` | a2a/protojson.go:337-377 | Re-spelling any names between snake_case and lowerCamel changes nothing. |
| `FieldNames.ShippedTablesAreIdempotent` | a2a/protojson.go:510-545 | Every shipped table has targets disjoint from its sources and is idempotent. |
| `FieldSpelling.ShippedTablesAreCamel` | a2a/protojson.go:510-545 | Every target of every shipped table is the lowerCamel spelling of its source. |
| `Timestamp.ParseOfFormat` | a2a/protojson.go:58-72 | Parsing undoes formatting for every valid instant of the years 1 to 9999. |
| `Timestamp.ParseIsValid` | a2a/protojson.go:16-28 | Only valid times of those years are accepted. |
| `Timestamp.CanonicalIsFixed` | a2a/protojson.go:40-56 | What decoding stores is accepted again and stays as it is. |
| `Timestamp.SameCanonicalIffSameInstant` | a2a/protojson.go:16-72 | Two spellings, given by date, clock and digits, have the same canonical form if and only if date, clock and nanoseconds denote the same instant. |
| `Timestamp.InstantIsInjective` | a2a/protojson.go:58-60 | Different civil times are different instants, by counting days from year 0. |
| `Timestamp.FractionIsShortest` | a2a/protojson.go:62-71 | The fraction is exact and the shortest among 0, 3, 6 and 9 digits. |
| `Timestamp.FractionIsExactOrTruncated` | a2a/protojson.go:23-26 | Up to nine fractional digits are read exactly, longer fractions are rounded down to whole nanoseconds. |
| `Timestamp.SpellingIsRead` | a2a/protojson.go:16-28 | Every lawful spelling (any valid date and clock, hour of one or two digits, point or comma, any digits) is read as exactly that date, clock and fraction. |
| `Timestamp.OnlySpellingsAreRead` | a2a/protojson.go:16-28 | Nothing else is accepted. |
| `Timestamp.InstantIsOnto` | a2a/protojson.go:58-60 | Every nanosecond between two years is the instant of a valid date and clock: the calendar leaves no gap. |
| `Timestamp.GregorianYears` | a2a/protojson.go:58-60 | The days before a year are those of the Gregorian calendar, in closed form. |
| `Decimal.AtoiIff` | afcli/daemon.go:1587-1590 | An integer text is accepted if and only if it is an optional sign and digits whose number fits 64 bits, and that number results. |
| `MappingNode.UpsertThenFind` | afcli/usage_ping_yaml.go:200-214 | On any list, upsert then find returns the new node if and only if the key it is stored under is visible to find. |
| `MappingNode.FindAfterUpsert` | afcli/usage_ping_yaml.go:200-246 | What find returns for the upserted key on any list: the new value, the appended key itself, or what it returned before. |
| `MappingNode.HiddenKeyExample` | afcli/usage_ping_yaml.go:204-207 | A key node that is not a scalar takes the value and hides it from find. |
| `MappingNode.DeleteThenFind` | afcli/usage_ping_yaml.go:217-227 | On any list, delete then find returns nothing if and only if no further scalar key of that name follows. |
| `MappingNode.UpsertKeepsOther` | afcli/usage_ping_yaml.go:200-214 | On any list, upsert keeps what find returns for another key if and only if that key did not dangle at the end of a list that was appended to. |
| `MappingNode.DeleteKeepsOther` | afcli/usage_ping_yaml.go:217-227 | Delete does not change what find returns for another key. |
| `MappingNode.FindIsView` | afcli/usage_ping_yaml.go:231-246 | On regular lists find is lookup in the map the list denotes. |
| `MappingNode.UpsertRefines` | afcli/usage_ping_yaml.go:200-214 | On regular lists upsert is map update and keeps even length and unique scalar keys. |
| `MappingNode.DeleteRefines` | afcli/usage_ping_yaml.go:217-227 | On regular lists delete is map removal and keeps regularity. |
| `MappingNode.UpsertKeepsOrder` | afcli/usage_ping_yaml.go:200-214 | Keys keep their order; a new key goes to the end. |
| `MappingNode.DeleteKeepsOrder` | afcli/usage_ping_yaml.go:217-227 | The remaining keys keep their order. |
| `MappingNode.EditsRefineMap` | afcli/usage_ping_yaml.go:200-246 | Any sequence of edits keeps the list regular and refines the same sequence of map operations. |
| `YamlNode.FindMappingValue` | afcli/usage_ping_yaml.go:231-246 | On linked nodes: null unless the node is a mapping with that scalar key; aliases followed. |
| `YamlNode.UpsertUsagePingKey` | afcli/usage_ping_yaml.go:200-214 | In place: the list becomes the upserted list, a new key is a fresh scalar node, no other node changes. |
| `YamlNode.DeleteUsagePingKey` | afcli/usage_ping_yaml.go:217-227 | In place: the first pair with that key text is spliced out, no other node changes. |
| `YamlText.SameReadingIff` | afcli/usage_ping_yaml.go:231-246 | Nodes are read the same in two scopes if and only if the scopes agree on every name that the nodes take from them. |
| `YamlText.SpliceIff` | afcli/usage_ping_yaml.go:200-227 | Exchanging part of a list leaves everything before it as read, and everything behind it if and only if both parts leave the same nodes under every name taken there. |
| `YamlText.LastIsBound` | afcli/usage_ping_yaml.go:236-242 | The node an alias stands for is the one that began last among those of its name, and the scope holds its meaning. |
| `YamlText.ExchangeIff` | afcli/usage_ping_yaml.go:109-118 | Exchanging a node anywhere is noticed nowhere if and only if the new node is read like the old one and leaves the same nodes under every name taken behind it. |
| `YamlText.AliasStandsFor` | afcli/usage_ping_yaml.go:236-242 | At any place of a document an alias is read as the last node of its name before it that does not contain it, exactly when there is one. |
| `YamlText.LoadsIff` | afcli/usage_ping_yaml.go:138-157 | A document loads if and only if every alias in it has a node of its name before it that does not contain it. |
| `YamlEdit.ReadUsagePingField` | afcli/usage_ping_yaml.go:47-64 | On the nodes that the parser builds, reading with aliases followed at both levels is reading from the text. |
| `YamlEdit.ParsedIsSensible` | afcli/usage_ping_yaml.go:138-157 | With every alias pointer at the last node of its name before it, each node means what its text means in its place. |
| `YamlEdit.WriteUsagePingField` | afcli/usage_ping_yaml.go:70-119 | On the nodes that the parser builds, the whole edit in place (append a block, replace one that is not a mapping, edit the existing one, or edit the one an alias points to) leaves nodes that spell the written document. |
| `YamlEdit.DeleteUsagePingBlock` | afcli/usage_ping_yaml.go:124-134 | The splice in place leaves nodes that spell the document without the pair. |
| `YamlEdit.EnsureBlock` | afcli/usage_ping_yaml.go:75-108 | Whichever case applies, the document then holds a mapping block at the end of a known way, and spells the document with that block in its place. |
| `YamlEdit.ChangeShows` | afcli/usage_ping_yaml.go:109-118 | A node changed in place changes the texts of the nodes on the way from the document to it, and no others. |
| `UsagePing.WriteEffect` | afcli/usage_ping_yaml.go:70-119 | A write that keeps the other nodes of the block is read back if its key is visible and keeps every other field; a removed lone field reads as empty. |
| `UsagePing.WriteIsSeen` | afcli/usage_ping_yaml.go:70-119 | In all four cases and with any names, what is read of the block after a write is the same edit of what was read before if and only if every name taken behind the removed node meant the same before it. |
| `UsagePing.EditListIff` | afcli/usage_ping_yaml.go:109-117 | The same if-and-only-if for any list of nodes and any scope: append, replace and remove. |
| `UsagePing.WrittenField` | afcli/usage_ping_yaml.go:109-118 | A field written under a visible key is read back, whatever names the document holds. |
| `UsagePing.FieldAfterWrite` | afcli/usage_ping_yaml.go:70-119 | On any document and with any names, what another field (or one whose key is hidden) reads as after a write: what it read as, or, if it was an alias of the removed node, what that name stood for before the node. |
| `UsagePing.WriteKeepsOthersIff` | afcli/usage_ping_yaml.go:70-119 | With any names anywhere, a write keeps every other node of the document if and only if the block leaves the same nodes under every name taken behind it and, if it is reached through an alias, is read as before; a value that is not a mapping must not take needed names with it. |
| `UsagePing.UnnamedWriteIff` | afcli/usage_ping_yaml.go:70-119 | For a block in place without named fields: if and only if nothing read of it changes or nothing behind it is an alias of it. |
| `UsagePing.UpdateKeepsOthersIff` | afcli/usage_ping_yaml.go:98-104 | Replacing the usagePing value by any node, with any names inside, keeps the others if and only if both leave the same nodes under every name taken later. |
| `UsagePing.OtherKeysRead` | afcli/usage_ping_yaml.go:70-119 | Where the others are kept, every other key has the value it had. |
| `UsagePing.DisableEffect` | afcli/usage_ping_yaml.go:124-134 | Where the rest is kept, a disable leaves every other key as it was. |
| `UsagePing.DisableKeepsOthersIff` | afcli/usage_ping_yaml.go:124-134 | A disable keeps the rest of the document if and only if every name taken behind the removed pair meant the same before it. |
| `UsagePing.DisableNeedsNoAlias` | afcli/usage_ping_yaml.go:124-134 | For names that are new with the pair: if and only if nothing behind it is an alias of the block or of a node inside it. |
| `UsagePing.DisableClearsIff` | afcli/usage_ping_yaml.go:217-227 | On any mapping, a disable clears usagePing if and only if no second such key follows. |
| `UsagePing.CommandKeepsConsent` | afcli/daemon.go:1584-1629 | Every file content that a command produces on the way satisfies consent; enable and disable establish it from any storable content. |
| `UsagePing.EnableConsentIff` | afcli/daemon.go:1591-1608 | With any keys and names, each of the two writes of an enable leaves a file that satisfies consent if and only if the id key is visible or what the two fields will read as satisfies it. |
| `UsagePing.EndpointConsentIff` | afcli/daemon.go:1614-1621 | With any keys and names, setting the endpoint leaves a file that satisfies consent if and only if what the two fields will read as satisfies it. |
| `UsagePing.ConsentAlways` | afcli/daemon.go:1584-1629 | Over any sequence of set commands, each cut short between any two writes, an enabled file carries a 32-character lower-case hex id, if usagePing occurs once, find sees the id key, and the id is plain or neither it nor `enabled` is an alias into the endpoint; all else may be shared, named or aliased. |
| `UsagePing.EnableSettles` | afcli/daemon.go:1591-1608 | From its first write on, an enable leaves the id as a plain valid scalar that no name in the document can change. |
| `UsagePing.EnableKeepsId` | afcli/daemon.go:1591-1608 | With any names in the block, a completed enable reads as enabled with the valid id the file had or a minted one, and keeps the endpoint where the writes keep the other fields. |
| `UsagePing.Hex` | afcli/usage_ping_yaml.go:23-29 | The hex text of n bytes is 2n lower-case hex digits, so a minted id is valid. |
| `UsagePing.ClearedField` | afcli/usage_ping_yaml.go:109-118 | A lone field written as the empty text reads as empty. |
| `UsagePing.LoneDisable` | afcli/usage_ping_yaml.go:124-134 | A disable of a lone block leaves no usagePing key. |
| `UsagePing.HexSpells` | afcli/usage_ping_yaml.go:23-29 | The i-th byte is spelled by the i-th pair of hex digits. |
| `UsagePing.ValidIffMinted` | afcli/usage_ping_yaml.go:20-43 | An id is valid if and only if it is the hex text of 16 bytes. |
| `UsagePing.ValidUsagePingID` | afcli/usage_ping_yaml.go:33-43 | The loop accepts exactly 32 lower-case hex digits. |
| `UsagePingCases.SharedBlockExample` | afcli/usage_ping_yaml.go:75-118 | With `usagePing: &u {...}` and `other: *u`, a write changes what `other` means and a disable leaves a file that does not load. |
| `UsagePingCases.SecondBlockExample` | afcli/usage_ping_yaml.go:217-227 | With two usagePing keys a disable exposes the second, which may say "enabled" without an id. |
| `UsagePingCases.HiddenIdExample` | afcli/daemon.go:1591-1608 | With an alias as key named installationId an enable leaves "enabled" without a readable id. |
| `UsagePingCases.NamedFieldExample` | afcli/daemon.go:1614-1621 | With a named endpoint that `enabled` is an alias of, setting the endpoint may turn "enabled" on without an id. |
| `UsagePingCases.NamedEndpointExample` | afcli/usage_ping_yaml.go:200-207 | With `usagePing: {endpoint: &e ...}` and `other: *e`, setting the endpoint leaves a file that does not load. |
| `UsagePingFile.ConfigFile.Store` | afcli/usage_ping_yaml.go:180-197 | The file holds the new document or, on failure, exactly the old one. |
| `UsagePingFile.ConfigFile.WriteUsagePingField` | afcli/usage_ping_yaml.go:70-119 | One atomic replacement by the written document, or an unchanged file; whatever the document is. A value of usagePing that is not a mapping is in the backup before it is replaced, and the backup is otherwise left alone. |
| `UsagePingFile.ConfigFile.EnableCount` | afcli/daemon.go:1591-1608 | The file goes through a prefix of the two writes of an enable, through both on success. |
| `UsagePingFile.ConfigFile.DisableCount` | afcli/daemon.go:1610-1613 | The file is replaced once by the document without the block, or unchanged. |
| `UsagePingFile.ConfigFile.ApplyUsagePingSet` | afcli/daemon.go:1584-1629 | From key and value: enabled with 1, enabled with 0 and endpoint do to the file what their rows say, every other key or value is refused and changes nothing; whatever fails, the file went through a prefix of the writes of that command, and a file that kept the consent promise keeps it. If the file loads and nothing fails it succeeds, and a replaced value is in the backup. |
| `UsagePingFile.TrimSpaceTrims` | afcli/daemon.go:1615 | Trimming leaves the part of the text between leading and trailing spaces, with no space at its ends. |
| `UsagePingFile.ConfigFile.ApplyEnabled` | afcli/daemon.go:1586-1613 | 1 that succeeds leaves a file that reads as enabled with a valid id where the keys are visible; 0 that succeeds leaves no usagePing where it is alone; any other value is refused and changes nothing. |
| `UsagePingFile.ConfigFile.ApplyEndpoint` | afcli/daemon.go:1614-1625 | An endpoint that is not empty and not https is refused; a success leaves a file whose endpoint reads as the trimmed value where the key is visible. |
| `UsagePingFile.NothingAsideAfterWrite` | afcli/usage_ping_yaml.go:83-108 | After a write usagePing is a mapping, so that the second write of an enable does not replace the backup. |
| `SessionStream.PrintedIsSegment` | afcli/session_stream.go:51-113 | After any number of polls the output is the contiguous segment of the log from its origin to where the next request resumes: no gap, no duplicate, also after empty replies and with follow-only. |
| `SessionStream.CursorMovesToPageEnd` | afcli/session_stream.go:129-140 | The advanced cursor makes the next request resume exactly behind the page. |
| `SessionStream.FinishedIsFlushed` | afcli/session_stream.go:70-113 | A stream that finished has printed every event that the session will ever log. |
| `SessionStream.PollsDrain` | afcli/session_stream.go:75-113 | Each poll of a terminal session finishes the stream or moves it on by at least one event. |
| `SessionStream.TerminalStreamFinishes` | afcli/session_stream.go:70-113 | Once the session is terminal the loop returns within one poll per event and one more, with everything printed. |
| `SessionStream.StreamSession` | afcli/session_stream.go:51-115 | Whatever fails, requests or the writer inside a page, and whenever it ends, the output is one contiguous segment of the log from its origin on; every outcome has exactly its cause; it ends by itself only on the finishing poll, with nothing left out, and for a terminal session it does so if nothing fails and the polls suffice. |
| `SessionStream.Tail` | afcli/session_stream.go:51-115 | All polls but the last were answered, written and not final. Failed: the next request fails. Cancelled: all polls are used. Unwritable: the writer fails inside the last page, after exactly the events there was room for. Finished: the last page was written and ended the session. The output is that of these polls. |
| `SessionStream.WriteActivities` | afcli/session_stream.go:154-170 | A page is printed event by event; it fails exactly when the room is smaller than the page, after exactly as many events. |
| `SessionStream.TerminalStreamEnds` | afcli/session_stream.go:70-113 | With answered requests, a writer that never fails and enough polls, every stream of a terminal session ends Finished. |
| `CommentUpsert.Action.Publish` | action/run.py:165-186 | It stops at the first call that is not answered as asked. If none fails, what paging does to the comments is find-first on the whole list; whatever the API answers and whether or not a failed write took effect, the comments are as before or as that one write leaves them, and success is reported only for that write. A failed call is reported as unavailable exactly for 403 or 404 in auto mode, else as an error. |
| `CommentUpsert.Action.Write` | action/run.py:39-58 | A PATCH or POST has taken effect if its answer is fine, and may have if it is not. |
| `CommentUpsert.WritesIffNothingRaises` | action/run.py:170-182 | Below 1000 comments a run writes if and only if the search does not stop at a comment that raises or at a marker comment without a usable id. |
| `CommentUpsert.NullUserExample` | action/run.py:173 | A comment with a null user makes every run raise before it writes. |
| `CommentUpsert.FirstStop` | action/run.py:170-178 | The first comment at which the search ends, none before it, or -1 if there is none. |
| `CommentUpsert.SummaryIsMarked` | action/run.py:150-162 | Every summary starts with the marker, so that later runs recognise it. |
| `CommentUpsert.AtMostOneIsAdded` | action/run.py:165-186 | Any number of sequential runs, failed ones with and without effect among them, with anything appended in between, adds at most one marker comment, and none if there was one. |
| `CommentUpsert.PostedIsFound` | action/run.py:179-181 | A posted comment is appended with exactly the given text, and it is the one the next run finds. |
| `CommentUpsert.FoundForever` | action/run.py:165-186 | A comment once found is found by all later runs, whatever failed in between and however long the thread grows. |
| `CommentUpsert.Examine` | action/run.py:173 | The test of one comment, evaluated member by member as Python does, raises or matches exactly as the search assumes. |
| `IndexRoot.AcceptedStaysInside` | afcli/code.go:418-441 | An accepted path is the root followed by plain names, reached by walking the argument from the root; a relative argument is refused as escaping exactly when that walk ends outside. |
| `IndexRoot.EscapesIffOutside` | afcli/code.go:426-430 | The textual test on the relative path holds exactly for clean paths that do not lie below the root. |
| `IndexRoot.CleanOfJoin` | afcli/code.go:426 | Cleaning the joined text is walking the argument's segments from the root. |
| `IndexRoot.WalkStaysClean` | afcli/code.go:426 | No walk leaves an empty, "." or ".." segment behind. |
| `IndexRoot.DottedNamesPass` | afcli/code.go:428 | A name that merely begins with ".." is accepted. |
| `IndexRoot.ThereAndBackPasses` | afcli/code.go:426-430 | Leaving the root and coming back is accepted. |
| `IndexRoot.DotsAreNothing` | afcli/code.go:426 | Walking a path is walking it without its empty and "." segments. |
| `IndexRoot.UpUndoes` | afcli/code.go:426 | A name followed by ".." leaves the walk where it was. |
| `IndexRoot.DotSlashPasses` | afcli/code.go:426-430 | A path written with "./" in front is accepted as without it. |
| `Durations.ReadsBackIffInRange` | afcli/agent.go:180-205 | The printed seconds read back as the number if and only if it lies in 0 to 9223372036. |
| `Durations.FormatIsInjective` | afcli/daemon.go:1756-1780 | In that range different durations print differently; both printers are the same function. |
| `Durations.OverflowExample` | afcli/agent.go:184 | The next second overflows to a negative duration and is printed wrongly. |
| `Durations.CompactReadsBack` | afcli/agent.go:189-204 | The text of hours, minutes and seconds, with zero parts left out, reads back as their sum. |
| `Durations.PartsAddUp` | afcli/agent.go:184-187 | The three parts of a duration add up to its whole seconds. |
| `Durations.FormatShows` | afcli/agent.go:180-205 | In the range the text shows hours, minutes below 60 and seconds below 60, in this order and without zero parts. |
| `Durations.ZeroPartsAreLeftOut` | afcli/agent.go:189-204 | The switch prints the parts that are not zero, in order, and "0s" if there are none. |
| `CredentialCache.Cache.constructor` | afcli/agent_run.go:1043-1055 | The cache starts with the initial credentials, or with the attempt bearer in local mode (set at lines 481 to 490). |
| `CredentialCache.Cache.Current` | afcli/agent_run.go:1057-1083 | In any order of locked sections: a known credential never becomes empty, remotely each one is the last non-empty answer; in local mode every return, success or failure, carries the initial worker id and the attempt token, and success needs a valid detail with unchanged binding. |
| `CredentialCache.LastIsNewestKnown` | afcli/agent_run.go:1074-1081 | Over any answers, the credential is the last non-empty one, else the initial one. |
| `ReceiptAuthority.PayloadDecides` | afcli/agent_run.go:1557-1732 | Two accepted details that agree on the payload and the restored fields give the same final work item, whatever all their other fields say, except for the repository; repositories differ only where the payload names and declares none and an identity case authorises each one filled in. |
| `ReceiptAuthority.ReconcileKeepsRepository` | runner/stage_budget_reconcile.go:27-51 | Stage budget and profile reconciliation commute with a change of the repository and leave the prompt alone. |
| `ReceiptAuthority.MirrorIsIgnored` | afcli/agent_run.go:1633-1690 | With a payload, acceptance and result depend on nothing but the receipt fields, the workarea intent and the repository and project identity: every other field of the detail may be changed. |
| `ReceiptAuthority.AcceptedIff` | afcli/agent_run.go:1557-1787 | Exactly these details become work: the payload, if any, passes both validators and decodes to work with the same intent and stage budget, and its repository is the same or left open for the project it belongs to; the budget is not malformed; the profiles fold. |
| `ReceiptAuthority.AuthorisedIff` | afcli/agent_run.go:1755-1782 | A repository may be filled in exactly when the detail repeats the project and repository ids of the identity or, without ids, everybody agrees on the project name. |
| `ReceiptAuthority.PayloadIsTaken` | afcli/agent_run.go:1633-1668 | With a payload everything the detail does not restore is the payload's, apart from the repository. |
| `ReceiptAuthority.ProfileIsTaken` | afcli/agent_run.go:1700-1731 | A profile of the detail decides, whatever the payload says. |
| `ReceiptAuthority.DetailIsRestored` | afcli/agent_run.go:1666-1690 | Receipts, credentials, capabilities and the failure policy of accepted work are the detail's, the co-author pair its validated one, and the intent is shared. |
| `ReceiptAuthority.BudgetIsAgreed` | runner/stage_budget_reconcile.go:27-51 | The stage budget of accepted work is the detail's, well formed, and the payload's own if there is a payload. |
| `ReceiptAuthority.MirrorIsTaken` | afcli/agent_run.go:1557-1632 | Without a payload every field of the work is the detail's. |
| `WorktreeCleanup.RunWorktreeCleanup` | afcli/admin.go:868-984 | Counters, errors and issued removals are those of the entries' outcomes; a real run has orphaned = cleaned + safety skips + failed removals; a dry run removes nothing; no removal names a reserved, leased or .git-directory entry, even with force. |
| `WorktreeCleanup.Accounting` | afcli/admin.go:898-981 | Every scanned entry has exactly one outcome and the outcomes add up. |
| `WorktreeCleanup.RemovalsAreSafe` | afcli/admin.go:949-972 | Every directory for which a removal is issued may be removed. |
| `WorktreeCleanup.Visit` | afcli/admin.go:898-981 | One entry changes the report by exactly what its one outcome adds. |
| `WorktreeCleanup.RemovedIff` | afcli/admin.go:898-981 | An entry is removed if and only if it is an orphan that may be removed, in a real run, and one of the two commands works. |
| `PoolBuckets.Aggregate` | afcli/daemon.go:1252-1282 | The bucket map has exactly the keys that occur, each with the statistics of its members. |
| `PoolBuckets.RowsConserve` | afcli/daemon.go:1252-1293 | The rows account for every member and every megabyte exactly once. |
| `PoolBuckets.RowOrderIsDetermined` | afcli/daemon.go:1283-1293 | The sorted row order is the same for every iteration order of the map. |
| `PoolBuckets.ColumnsCount` | afcli/daemon.go:1252-1282 | Every column of a row counts the members of that key with that status; disk adds up all of them. |

## Left out

- `Probe.Run.RunOwnedGitHubTokenProbe`: real time is not modelled, so that grace, deadline and tick are branches that may be taken at any moment; a process that joins the group by setpgid from outside is excluded by assumption.
- `PsTable.InspectLocalGitHubGroup`: lines arrive split at blanks; the size limit of the ps output is one of the failures of ps.
- `PartCodec.Target.UnmarshalJSON`: JSON lexing, invalid UTF-8 and the precision of numbers are not modelled; numbers are exact reals.
- `PartCodec.DataPart`: only values that encoding/json itself produces are modelled; any other Go value (an int, a struct) would come back as one of those and not equal.
- `UsagePingFile.ConfigFile.WriteUsagePingField`: a document with an anchor that contains an alias of itself counts as one that does not load, although the node parser accepts it; comments and styles are not modelled; the file modes of the backup are not modelled.
- `UsagePing.WriteEffect`: needs that the write keeps the other nodes of the block, which `UsagePing.WriteIsSeen` characterises exactly.
- `UsagePing.ConsentAlways`: files with a second usagePing key, a hidden id key, or an `enabled` or unsettled id that is an alias into the endpoint are excluded; the promise can fail on such files (`UsagePingCases`), and `UsagePing.EnableConsentIff` and `UsagePing.EndpointConsentIff` say exactly when one command keeps it.
- `UsagePing.CommandKeepsConsent`: consent is what readUsagePingField reads; merge keys, which the daemon's own decoder also honours, are ordinary keys here.
- `SessionStream.WriteActivities`: an event is written whole or not at all.
- `CommentUpsert.Action.Publish`: the thread does not change during one run, and concurrent runs are not modelled.
- `IndexRoot.AcceptedStaysInside`: Unix paths only; symbolic links are not followed by the lexical check and not modelled.
- `ReceiptAuthority.PayloadDecides`: structured fields are opaque texts, and how the two profiles of a detail fold into one is an arbitrary function of both.
- `PoolBuckets.RowsConserve`: the 64-bit width of the disk totals is not modelled.
- YAML and JSON parsing and printing, file modes, git, gh and ps internals.
- The strict decoding of whole A2A messages, case-insensitive field matching, and the Role and TaskState enumerations.
- The retry loop that reports a running session, its jitter, and the tail of log lines: short loops whose properties are read off their bodies.
- Cobra wiring, HTTP clients, terminal rendering and the other packages of the repository.
