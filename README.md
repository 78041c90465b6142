# libseawolf in Dafny

A model of the core of libseawolf: the hub server that the programs of a
robot vehicle connect to, and the C client library they link against.
The hub authenticates clients, keeps a table of shared variables, relays
notifications between clients and logs on their behalf. The client library
provides the wire codec for hub messages, notification filters, logging,
configuration readers, containers (list, stack, queue, hash map, memory
pool), and framing for Arduino boards on a serial line.

Each C file of the core becomes one Dafny module. Code that changes
state in place (arrays that are shifted, tables that are filled, static
variables that are reassigned) becomes a `class` whose methods carry
`modifies` clauses and loops with invariants. Each of those methods is
proved against a specification function, and the properties the code
promises are proved about that function as lemmas. Branching code with
no state becomes functions and lemmas.

The modules, by C source:
- `Comm` (src/comm.c): message packing and unpacking, with their round trip, and the request-ID table.
- `HubProcess`, `HubClient`, `HubVar` and `HubNet` (src/hub/process.c, src/hub/client.c, src/hub/var.c): the dispatcher for AUTH, COMM, NOTIFY, VAR and LOG requests, client sessions with their filters, and the variable store.
- `HubConfig` (src/hub/config.c): the hub's default option table, the choice of configuration file, and the override merge.
- `Notify` (src/notify.c): the client's filters and default policy, its notification queue, and the "action param" body.
- `Logging` (src/logging.c): level names and numbers, and how `Logging_log` decides to drop, send or print a message.
- `Config` and `SeawolfConfig` (src/config.c, src/seawolf_config.c): the two "option = value" readers and their truth predicates.
- `Util` (src/util.c, include/seawolf/util.h): in-place strip, split, and the max/min/clamp macros.
- `List`, `Stack`, `Queue`, `Dictionary` and `MemPool` (src/list.c, src/stack.c, src/queue.c, src/dictionary.c, src/mem_pool.c): the containers and the chunk allocator.
- `ArdComm` (src/ardcomm.c): writing and reading the brace-delimited frames, and the handshake.
- `Wrappers` and `LibC`: Option for pointers that may be NULL, and the ctype, atoi and printf behaviour the code relies on.

Conventions:
- A C pointer that may be NULL is an `Option`. A C string is a `seq<char>` without its terminator. A buffer that the code scans for a NUL keeps the NUL.
- Integers are unbounded. 16-bit and 32-bit fields are wrapped explicitly where the code stores into them: the packed length, the header fields, the djb2 hash, `write_index`, and `short` levels.
- Calls into code outside the core are recorded as `HubNet.Effect` values, in call order. These are `Hub_Net_sendMessage`, `Hub_Net_markClientClosed`, `Hub_Net_broadcastNotification` and `Hub_Logging_log`. The result of handling a request is the return code, the effects, and the new client state, filters and variable cache.
- The file system is a map from path to contents. The environment's HOME, strerror's text, and the hub's `%f` formatting and `atof` are parameters.

Where the documentation and the code disagree, the model follows the code:
- `ArdComm_getId` returns 0 on success, although its doc comment says 1 (src/ardcomm.c:136-156).
- `ArdComm_getMessage`'s data loop checks the type buffer at the data index (`msgtype[buffer_s]`, src/ardcomm.c:75), not the data byte. The model keeps that check. So `ArdComm.RoundTrip` needs the type buffer's old chars to pass it. `ArdComm.LongIdentifierOverruns` shows that an identifier longer than 16 chars makes `ArdComm_getId` read past its type buffer.
- The hub's own filter check (src/hub/client.c) differs from the client library's (src/notify.c). Each is modelled as written. `HubClient.HubActionWeakerThanLibrary` and `HubClient.PrefixFiltersNeverPass` state the difference.
- process.c:173 calls `Hub_Var_setValue`, whose source is not part of this model. It is given the return codes of `Hub_Var_set`.

The memory pool has three defects, listed under "## Findings". Each has an as-written member that exhibits it. The pool the rest of the model uses is corrected: a block holds its eight chunks and is full exactly when they are all taken.

## Model

| member | source | states |
|---|---|---|
| `Util.Max` | include/seawolf/util.h:36 | the result is at least each argument and is one of them |
| `Util.Min` | include/seawolf/util.h:45 | the result is at most each argument and is one of them |
| `Util.InRange` | include/seawolf/util.h:55 | below a gives a, inside [a, b] gives x unchanged, above b (with a <= b) gives b, and for a <= b the result always lies in [a, b] |
| `Util.StrippedShape` | src/util.c:177-201 | stripping keeps one contiguous run of the input starting at its first non-space character; that run neither starts nor ends with white space, and everything dropped is white space |
| `Util.StrippedEmptyIffBlank` | src/util.c:181-200 | stripping leaves the empty string exactly when the input is all white space (both directions) |
| `Util.StrippedOfTrimmed` | src/util.c:186-200 | a string with no white space at either end is left as it is |
| `Util.StrippedIdempotent` | src/util.c:177-201 | stripping twice gives the same as stripping once |
| `Util.Strip` | src/util.c:177-201 | in place on the buffer: the C string it holds afterwards is the stripped original, the positions passed over by the forward copy and the backward walk hold NUL, and the rest of the buffer is untouched; a non-empty blank string is excluded because the backward walk would read buffer[-1] |
| `Util.Compact` | src/util.c:186-200 | the non-empty branch of Util_strip: after skipping the leading white space, the buffer ends up holding the stripped string laid out as above |
| `Util.ShiftDown` | src/util.c:190-193 | the forward copy moves the text after the leading white space to the front, writes a NUL right after it, and leaves the buffer beyond that NUL unchanged |
| `Util.TrimTail` | src/util.c:197-200 | the backward walk overwrites exactly the trailing white space with NUL and keeps everything before it |
| `Util.StripImageCStr` | src/util.c:193-200 | a buffer laid out as Util_strip leaves it, read as a C string, is the stripped original |
| `Util.Split` | src/util.c:215-238 | when the split character is absent, returns 1 with p1 the whole string; otherwise returns 0 with p1 the text before its first occurrence (which p1 does not contain) and p2 the text after it, so p1 + split + p2 is the input |
| `Comm.ReadU16OfU16` | src/comm.c:372-374 | ntohs of the two bytes htons writes gives back the value modulo 2^16 |
| `Comm.BodyLength` | src/comm.c:361-368 | the data part is as long as the sum over the components of their length plus one |
| `Comm.BodyCons` | src/comm.c:377-381 | the data part starts with the first component and its NUL, followed by the data part of the others, so components keep their order |
| `Comm.Pack` | src/comm.c:354-386 | the length field is 6 plus the sum of (strlen + 1) over the components, truncated to 16 bits, and the bytes are the header (data length, request ID, count, each big-endian) followed by every component and one NUL, in order |
| `Comm.ComponentLengths` | src/comm.c:361-365 | the first loop of Comm_packMessage records strlen + 1 for every component and sums them |
| `Comm.PackedLengthExact` | src/comm.c:368-369 | when the total fits 16 bits, the length field is the exact size of the packed bytes |
| `Comm.HeaderFields` | src/comm.c:372-374 | the three header fields read back as data length, request ID and count, in that order, and the data follows at offset 6 |
| `Comm.Unpack` | src/comm.c:397-419 | unpacking computes Decode: a count of 0 (where the C's assert aborts) is ZeroCount, and a well-framed buffer gives the message with the header's request ID and the count components split from the data; a buffer too short for the header or the data, which the C over-reads unchecked, is Truncated |
| `Comm.SplitComponents` | src/comm.c:408-416 | the component loop yields exactly the count NUL-terminated strings at the front of the data, each starting one past the NUL of the one before; data with fewer NULs than count, where the C's strlen runs past the copy, gives None |
| `Comm.StrLen` | src/comm.c:415 | strlen() bounded by the buffer: the bytes scanned are not NUL and the byte it stops at is NUL, unless it reached the end |
| `Comm.ComponentsStep` | src/comm.c:414-416 | a component runs from its start up to the first NUL, and the next one starts right after that NUL |
| `Comm.DecodeRejectsZeroCount` | src/comm.c:403-404 | a header whose count field is 0 never unpacks into a message |
| `Comm.ComponentsOfBody` | src/comm.c:408-416 | splitting the data part of NUL-free components gives them back, whatever bytes follow |
| `Comm.ComponentsShape` | src/comm.c:413-416 | a successful split yields exactly count components, none of which holds a NUL |
| `Comm.BodyOfComponents` | src/comm.c:410-416 | the components found by a successful split, laid out again with their NULs, are a prefix of the data they came from |
| `Comm.DecodeEncode` | src/comm.c:354-419 | round trip: unpacking a packed message gives back its request ID and components when there is at least one component, every component is made of bytes and holds no NUL, and the packed length (data plus the 6-byte header) fits 16 bits |
| `Comm.BodyBytes` | src/comm.c:377-381 | components made of bytes are laid out as bytes, each followed by its NUL |
| `Comm.DecodeFramed` | src/comm.c:397-419 | a header with a non-zero count followed by exactly the announced data decodes to the header's request ID and the components split from that data |
| `Comm.MessageNew` | src/comm.c:432-444 | a new message has request ID 0 and room for exactly n components |
| `Comm.NextFreeIdIsFree` | src/comm.c:320-341 | the probe never settles on the reserved ID 0 and only settles on an ID whose pending flag is false |
| `Comm.NextFreeIdNoneIffFull` | src/comm.c:320-338 | the probe finds no ID exactly when every ID from 1 to size - 1 is pending (both directions) |
| `Comm.ProbeStep` | src/comm.c:322 | the step id % (size - 1) + 1 visits the next ID and wraps from size - 1 back to 1 |
| `Comm.RequestTable.constructor` | src/comm.c:116-117 | the tables start with 8 slots, none pending and none holding a response, and probing starts at 1 |
| `Comm.RequestTable.Grow` | src/comm.c:326-337 | the growth step appends 8 zeroed slots to both tables and moves the probe start to the first new slot |
| `Comm.RequestTable.AssignRequestID` | src/comm.c:315-344 | returns the free ID the cyclic probe from last_id finds, marking it pending with no response and changing nothing else; when every ID is pending it grows the tables by 8 and takes the first new slot, provided the size stays below 0xffff; otherwise it reports exhaustion, where the C would spin forever |
| `Config.ReadLine` | src/config.c:75-98 | the character loop only moves forward; it reports too long exactly when 512 characters are stored, stores fewer otherwise, and consumes at least one character unless it stops at the end of input |
| `Config.ReadLineSpec` | src/config.c:75-100 | one line read: too long exactly when the text before its first '#' has 512 or more characters; otherwise that text is what is stored, reading resumes after the newline, and the end of input was hit exactly when the line has no newline |
| `Config.ReadLineStep` | src/config.c:84-97 | one character of the line: the stored text and the comment flag follow the text seen so far, and storing the 512th character stops the line as too long |
| `Config.UncommentedSnoc` | src/config.c:84-91 | a character is kept only while no '#' has appeared, the '#' included |
| `Config.ScanLine` | src/config.c:71-98 | the fgetc loop for one line computes ReadLine from the line start with nothing stored and no comment |
| `Config.FindEquals` | src/config.c:114-121 | the split loop stops at the first '=', or at the end of a line without one |
| `Config.SplitOption` | src/config.c:114-131 | the option is the stripped text before the first '=' and the value the stripped text after it |
| `Config.Parse` | src/config.c:66-135 | a parse returns the option map exactly when its error code is CONFIG_SUCCESS, fails only with CONFIG_ELINETOOLONG or CONFIG_EPARSE, and never loses an option already stored |
| `Config.ParseLine` | src/config.c:66-135 | one line of the parse: 512 or more uncommented characters fail with CONFIG_ELINETOOLONG before the line is counted; a blank last line returns the map; another blank line is skipped; a line without '=' fails with CONFIG_EPARSE; any other line stores its option and value, so a later duplicate overwrites an earlier one, and parsing goes on at the next line |
| `Config.ReadConfig` | src/config.c:53-60 | a file that cannot be opened fails with CONFIG_EFILEACCESS and line number 0 |
| `Config.ParseErrorLine` | src/config.c:54-127 | on CONFIG_EPARSE, config_lineno names the failing line: the line it counts to is non-blank and has no '=', and it is that line's number in the file |
| `Config.ParseFailStep` | src/config.c:99-127 | a parse failing with CONFIG_EPARSE fails on its first line, which is then counted and non-blank without '=', or goes on from the next line with one more line counted |
| `Config.TruthIgnoresCase` | src/config.c:197-200 | the truth test gives the same answer for a value and its upper-cased form |
| `Config.ConfigTruth` | src/config.c:193-210 | true exactly when the lower-cased value is "1", "true", "yes" or "on" |
| `Config.Reader.ReadFile` | src/config.c:43-157 | config_errno, config_lineno and the result are the outcome of the whole parse, and a missing file gives CONFIG_EFILEACCESS |
| `Config.ReadLines` | src/config.c:66-135 | the outer loop, run line by line over an opened file, ends with exactly the outcome of the parse from the first line |
| `Config.ReadOneLine` | src/config.c:67-134 | one pass of the outer loop either ends the parse with its outcome or moves on to a later position with one more line counted, without changing the final outcome |
| `SeawolfConfig.StrLower` | src/seawolf_config.c:26-33 | in place: the C string becomes its lower-cased form, the NUL stays where it was and everything after it is untouched |
| `SeawolfConfig.CLenOfLowered` | src/seawolf_config.c:27-31 | lower-casing the characters before the first NUL keeps that NUL first, and the C string read back is the lower-cased original |
| `SeawolfConfig.LowerCopy` | src/seawolf_config.c:45 | strlower applied to a copy of a C string gives its lower-cased form |
| `SeawolfConfig.TrueValueOf` | src/seawolf_config.c:44-57 | true exactly when the lower-cased value is "true", "t", "1", "yes" or "y" |
| `SeawolfConfig.TrueValueIgnoresCase` | src/seawolf_config.c:44-57 | trueValue gives the same answer for a value and its upper-cased form |
| `SeawolfConfig.ThresholdLevel` | src/seawolf_config.c:163-179 | the level chosen is the position of the lower-cased value among debug, info, normal, warning, error, critical, and -1 exactly when it is none of them |
| `SeawolfConfig.ThresholdMatchesLogging` | src/seawolf_config.c:163-179 | the threshold option picks the same level as Logging_getLevelFromName does for the value, and rejects exactly the values that finds no level for |
| `SeawolfConfig.CaseMatch` | src/seawolf_config.c:164-176 | a value lower-cases to a level's lower-case name exactly when it upper-cases to the level's name |
| `SeawolfConfig.Apply` | src/seawolf_config.c:151-182 | option names outside the five known ones change nothing; each known name sets its own setting and no other: the password or server to the value, the port to atoi of the value modulo 2^16 (the uint16_t parameter), replication to the value's truth, the threshold to the level the value names; an invalid threshold value changes nothing |
| `SeawolfConfig.Complaints` | src/seawolf_config.c:163-182 | something is printed exactly for an unknown option name or an invalid threshold value |
| `SeawolfConfig.ThresholdOptionSetsLevel` | src/seawolf_config.c:163-176 | a threshold value that names a level, in any case, sets exactly that level and prints nothing |
| `SeawolfConfig.OptionNamesCaseSensitive` | src/seawolf_config.c:151-182 | an option name that differs from a known one only in case is reported as unknown and changes nothing |
| `SeawolfConfig.ReadLine` | src/seawolf_config.c:104-126 | the character loop only moves forward and stores at most 511 characters; when it consumes nothing it stores nothing new; and unless it hit the end of input or started with a full line it consumes at least one character |
| `SeawolfConfig.ReadLineSpec` | src/seawolf_config.c:104-126 | one line read: an uncommented text shorter than 511 characters is all stored and reading resumes after the newline; a longer one has its first 511 characters stored and reading resumes right after them, so the rest is read as the next line |
| `SeawolfConfig.ReadLineStep` | src/seawolf_config.c:108-125 | one character of the line: the stored text and comment flag follow the text seen so far, with no length failure |
| `SeawolfConfig.CutAt` | src/seawolf_config.c:108 | when the 511th character is stored the loop stops there, having stored exactly the first 511 characters of the line's uncommented text |
| `SeawolfConfig.ScanLine` | src/seawolf_config.c:104-126 | the fgetc loop for one line computes ReadLine from the line start with nothing stored and no comment |
| `SeawolfConfig.Load` | src/seawolf_config.c:99-183 | the line loop only ever adds reports, never removes one |
| `SeawolfConfig.LoadFile` | src/seawolf_config.c:86-96 | a file that cannot be opened leaves every setting alone and reports the file name |
| `SeawolfConfig.LoadLine` | src/seawolf_config.c:99-183 | one line of the loop: a blank line at the end of input ends the load; another blank line is skipped; a line without '=' is reported and skipped; any other line applies its stripped option and value; each goes on at the next line start, which for a cut line is right after its 511th character |
| `SeawolfConfig.LongLineIsCut` | src/seawolf_config.c:108-126 | a line whose uncommented text reaches 511 characters is processed as its first 511 characters, stripped, and the load resumes right after them |
| `SeawolfConfig.SplitIsFirst` | src/seawolf_config.c:140-148 | Util_split's two parts, stripped, are the option and value of the line's first '=' |
| `SeawolfConfig.Client.LoadConfig` | src/seawolf_config.c:85-184 | the settings and the printed reports end up as the whole load describes, and the logger's initialised flag, sent logs and standard output are untouched |
| `SeawolfConfig.Client.LoadOneLine` | src/seawolf_config.c:100-182 | one pass of the loop either ends the load with its outcome or moves on to a later position without changing the outcome |
| `SeawolfConfig.Client.Dispatch` | src/seawolf_config.c:150-182 | the chain of option-name tests updates the settings as Apply says and prints exactly what Complaints says |
| `HubConfig.SeededIsDefaults` | src/hub/config.c:18-25 | seeding the table from every entry of valid_options gives exactly the eight valid options, each with its listed default |
| `HubConfig.ChosenFile` | src/hub/config.c:39-63 | a file already chosen is kept; a newly chosen one is a path that exists |
| `HubConfig.ChoiceOrder` | src/hub/config.c:42-56 | with no file chosen, $HOME/.swhubrc is taken when HOME is set and it exists; otherwise /etc/seawolf_hub.conf when it exists, and none when it does not |
| `HubConfig.Merge` | src/hub/config.c:112-123 | the merged table has exactly the keys of the default table |
| `HubConfig.MergeSome` | src/hub/config.c:112-123 | after any prefix of the key list the table still has exactly the keys of the default table |
| `HubConfig.MergeStep` | src/hub/config.c:113-122 | one option looked at: a valid one takes the file's value and logs nothing; another one changes nothing and adds one warning naming it |
| `HubConfig.MergeSomeValues` | src/hub/config.c:112-123 | after the options in the list so far, each valid option holds the file's value when the list names it and its default otherwise |
| `HubConfig.MergeAllKeys` | src/hub/config.c:108-123 | draining a key list that names every key of the file once gives the whole merge, whatever its order |
| `HubConfig.UnknownOptionsIgnored` | src/hub/config.c:117-122 | options the file gives that are not valid make no difference to the table |
| `HubConfig.MergedTable` | src/hub/config.c:72-75 | after processing, the key set is exactly the eight valid options, each holding the file's value where the file has one and its default otherwise |
| `HubConfig.UnknownWarnings` | src/hub/config.c:117-122 | there are never more warnings than options looked at |
| `HubConfig.UnknownWarningsExactly` | src/hub/config.c:117-122 | a warning names an option exactly when the file gives it and it is not valid |
| `HubConfig.KeysOf` | src/hub/config.c:108 | the key list names every key of the file's table exactly once |
| `HubConfig.HubConfig.LoadConfig` | src/hub/config.c:27-33 | the given file becomes the configuration file and nothing else changes |
| `HubConfig.HubConfig.GetOption` | src/hub/config.c:129-132 | returns a value exactly when the key is in the table, and then it is the stored value; an unknown key gives NULL |
| `HubConfig.HubConfig.ProcessConfig` | src/hub/config.c:65-127 | when no file is found the table is the defaults and one warning is logged; a file that fails to read logs its error and ends in Hub_exitError; otherwise the table is the defaults overridden by the file's valid options and each unknown option is warned about once |
| `HubConfig.HubConfig.SeedDefaults` | src/hub/config.c:72-75 | the seeding loop builds the default table |
| `HubConfig.HubConfig.ChooseConfigFile` | src/hub/config.c:39-63 | reports a file exactly when the probing order finds one, records it as the configuration file, and changes nothing else |
| `HubConfig.HubConfig.MergeOptions` | src/hub/config.c:112-123 | draining the key list leaves the table and the warnings as the merge of those keys says |
| `HubConfig.HubConfig.MergeOne` | src/hub/config.c:113-122 | one pass: an option already in the table takes the new value; any other option is not stored and adds one warning naming it |
| `Logging.LevelNameCapitals` | src/logging.c:20-25 | every level name is non-empty and written in capitals, so upper-casing leaves it alone |
| `Logging.LevelNamesDistinct` | src/logging.c:20-25 | no two levels share a name |
| `Logging.GetLevelName` | src/logging.c:75-77 | the name of a level is a non-empty capitalised word that no other level has |
| `Logging.ScanLevels` | src/logging.c:98-103 | the scan returns the first level from its start whose name equals the argument, and -1 exactly when none does |
| `Logging.LevelFromName` | src/logging.c:88-107 | the answer is the level whose name equals the upper-cased argument, and -1 exactly when no level has that name |
| `Logging.GetLevelFromName` | src/logging.c:88-107 | upper-casing a copy in a loop and scanning DEBUG..CRITICAL gives that answer |
| `Logging.LevelFromLevelName` | src/logging.c:75-107 | round trip: looking a level's name up gives the level back, for each of the six levels |
| `Logging.LevelFromNameIgnoresCase` | src/logging.c:92-95 | the lookup finds the same level for a name and its lower-cased form |
| `Logging.LevelField` | src/logging.c:128 | snprintf with a 4-byte buffer keeps at most three characters, a prefix of the decimal level, and all of it when it fits |
| `Logging.LogMessage` | src/logging.c:126-132 | the LOG message has request ID 0 and exactly four components: "LOG", the application name, the level field and the text |
| `Logging.LogMessageLevelReadsBack` | src/logging.c:128-131 | for each of the six levels, atoi of the level component gives the level back |
| `Logging.StdoutLine` | src/logging.c:140 | the printed line starts with '[' and ends with a newline |
| `Logging.Logger.constructor` | src/logging.c:11-17 | a new logger is not initialised, has threshold NORMAL and replication on, and has sent and printed nothing |
| `Logging.Logger.Init` | src/logging.c:41-43 | sets the initialised flag and changes nothing else |
| `Logging.Logger.Close` | src/logging.c:152-154 | clears the initialised flag and changes nothing else |
| `Logging.Logger.SetThreshold` | src/logging.c:52-54 | sets the threshold and changes nothing else |
| `Logging.Logger.ReplicateStdio` | src/logging.c:63-65 | sets the replication flag and changes nothing else |
| `Logging.Logger.Log` | src/logging.c:119-143 | below the threshold nothing is sent or printed; otherwise the LOG message is sent exactly when the component is initialised, and the line is printed exactly when replication is on or the component is not initialised; the flags never change |
| `Notify.Space` | src/notify.c:243-252 | the slots allocated for n filters always leave room for the next one, except when n is a multiple of 5 and the array is full, which is when Notify_filter grows it |
| `Notify.SpaceAfterAppend` | src/notify.c:250-263 | appending a filter keeps the allocation rule: 5 more slots exactly when the count was a non-zero multiple of 5 |
| `Notify.SendBody` | src/notify.c:129 | the outgoing body is the action, one space and the parameter |
| `Notify.SendMessage` | src/notify.c:122-135 | Notify_send hands over a message with request ID 0 and the three components "NOTIFY", "OUT" and the "action param" body |
| `Notify.SplitBody` | src/notify.c:96-109 | a body with a space splits at its first space into an action without spaces and the rest as the parameter, which joined with a space give the body back; a body without a space is the case where the C scan runs past the NUL |
| `Notify.SplitSendBody` | src/notify.c:96-129 | round trip: splitting the body Notify_send builds gives back its action and parameter when the action holds no space |
| `Notify.ActionFilterAcceptsSent` | src/notify.c:174-189 | a notification sent with some action always passes an ACTION filter on that action, whatever its parameter |
| `Notify.ActionImpliesPrefix` | src/notify.c:174-206 | whatever an ACTION filter accepts, the PREFIX filter with the same text accepts too |
| `Notify.FirstPassing` | src/notify.c:92-94 | the first queued body that passes the filters: every body before it fails them |
| `Notify.FirstPassingIsFirst` | src/notify.c:92-94 | a run of failing bodies ended by a passing one (or by the end of the queue) is exactly what the search finds |
| `Notify.Notifier.constructor` | src/notify.c:20-27 | before Notify_init there are no filters and no filter array, the policy is DROP and the component is not initialised |
| `Notify.Notifier.Init` | src/notify.c:42-47 | allocates 5 filter slots and an empty queue and marks the component initialised, keeping the policy |
| `Notify.Notifier.SetPolicy` | src/notify.c:57-59 | sets the default policy and changes nothing else |
| `Notify.Notifier.AddFilter` | src/notify.c:233-264 | NULL drops every filter and leaves 5 fresh slots; any other text appends exactly one filter, with the type byte and the text, after the earlier ones, and it always fits the allocated slots |
| `Notify.Notifier.CheckFilter` | src/notify.c:145-212 | with no filters the answer is the default policy; otherwise true exactly when some filter accepts the message: MATCH on equality, ACTION when the message is longer than the text, starts with it and has a space right after it, PREFIX when it starts with it; filters of any other type accept nothing |
| `Notify.SamePrefix` | src/notify.c:180-185 | the comparison loop says whether the message starts with the filter text |
| `Notify.Notifier.InputMessage` | src/notify.c:69-77 | the body is queued exactly when the component is initialised and the body passes the filters; nothing else changes |
| `Notify.Notifier.Get` | src/notify.c:87-112 | bodies that fail the filters are dropped from the queue front; the first one that passes is removed and split at its first space; a queue with none that passes drains, which is where the C would block |
| `Notify.SplitMessage` | src/notify.c:97-101 | the scan for the first space splits the body as SplitBody says |
| `HubClient.VerdictIffDecisive` | src/hub/client.c:105-146 | a body passes exactly when some MATCH or ACTION filter accepts it and no later PREFIX filter resets the verdict (both directions) |
| `HubClient.VerdictHasDecisive` | src/hub/client.c:110-142 | a passing body has a filter that set the verdict with no reset after it |
| `HubClient.NoVerdictNoDecisive` | src/hub/client.c:110-142 | a body that does not pass has no such filter |
| `HubClient.PrefixFiltersNeverPass` | src/hub/client.c:124-134 | PREFIX filters never set the verdict, so a client with only PREFIX filters (or none) receives nothing |
| `HubClient.HubActionWeakerThanLibrary` | src/hub/client.c:136-140 | every body the client library's ACTION filter accepts, the hub's strncmp test accepts too |
| `HubClient.PrefixWalk` | src/hub/client.c:124-134 | the walk over the body resets the verdict exactly when the body has a space at the index where the pattern ends, and otherwise leaves it alone; the characters are never compared |
| `HubClient.Kick` | src/hub/client.c:38-50 | kicking marks the client closed first, then sends it COMM KICKING with the reason and request ID 0 |
| `HubClient.Close` | src/hub/client.c:55-64 | closing sends COMM CLOSING with request ID 0 first, then marks the client closed |
| `HubClient.Client.constructor` | src/hub/client.c:12-33 | a new client keeps its socket, is unauthenticated and has no filters |
| `HubClient.Client.AddFilter` | src/hub/client.c:69-81 | appends exactly one filter, with the type as an unsigned byte and the pattern, after the earlier ones, which are unchanged; the state is kept |
| `HubClient.Client.ClearFilters` | src/hub/client.c:86-100 | leaves no filters, and leaves the state alone |
| `HubClient.Client.CheckFilters` | src/hub/client.c:105-146 | the loop starts from false and applies the filters in order: MATCH sets the verdict on an equal body, ACTION on a body starting with the pattern, PREFIX only resets it, and unknown types are ignored |
| `HubVar.Fresh` | src/hub/var.c:41-46 | the record built for a definition keeps its name, flags and default, and its value starts at the default |
| `HubVar.CacheOf` | src/hub/var.c:40-48 | after initialisation every record is filed under its own name and each variable's value equals its default |
| `HubVar.CacheOfKeys` | src/hub/var.c:40-48 | the cache holds exactly the defined names |
| `HubVar.CacheOfLastWins` | src/hub/var.c:47 | when a name is defined twice, the record built from its last definition wins |
| `HubVar.CacheOfSnoc` | src/hub/var.c:40-48 | storing one more definition is one more map update under its name |
| `HubVar.SetValue` | src/hub/var.c:63-80 | an unknown name gives -1 and a read-only variable gives -2, both changing nothing; otherwise the result is 0 and only the named record's value changes, to the new value, keeping its flags, its default and every other variable |
| `HubVar.SetThenGet` | src/hub/var.c:58-80 | after a successful set a get sees the new value, and setting the old value back restores the cache |
| `HubVar.VarStore.constructor` | src/hub/var.c:53 | the cache starts empty |
| `HubVar.VarStore.InitCacheTable` | src/hub/var.c:30-50 | with no definition rows a warning is logged and the cache is left alone; otherwise every row is stored under its name with its value at the default |
| `HubVar.VarStore.Get` | src/hub/var.c:58-61 | NULL exactly when the name is not in the cache, and otherwise the record filed under it |
| `HubVar.VarStore.Set` | src/hub/var.c:63-80 | the return code and the new cache are what SetValue describes |
| `HubProcess.Classify` | src/hub/process.c:202-216 | a non-COMM message from a client that is not CONNECTED is refused; AUTH needs exactly 3 components and SHUTDOWN exactly 2, in any state; NOTIFY and VAR requests are only recognised for a CONNECTED client; LOG is recognised exactly for a CONNECTED client and 4 components |
| `HubProcess.CommIgnoresState` | src/hub/process.c:203-204 | a COMM message is handled the same whatever the client's state |
| `HubProcess.ValueReply` | src/hub/process.c:153-163 | the VAR VALUE reply carries the request's ID and the four components VAR, VALUE, RO or RW by the read-only flag, and the printed value |
| `HubProcess.Respond` | src/hub/process.c:31-190 | every handler returns 0 or -1; a client only becomes CONNECTED through an AUTH with the configured password; only ADD_FILTER and CLEAR_FILTERS touch the filters, and only VAR SET touches the variables |
| `HubProcess.UnauthenticatedOnlyComm` | src/hub/process.c:202-216 | for an unauthenticated client, every message that is not COMM returns -1 with no effect and no change |
| `HubProcess.AuthOutcomes` | src/hub/process.c:36-59 | with no password configured an error is logged and -1 returned; the right password answers COMM SUCCESS under the request's ID and connects the client; a wrong one answers COMM FAILURE, then marks the client closed and sends COMM KICKING "Authentication failure", and the state stays as it was |
| `HubProcess.CommOutcomes` | src/hub/process.c:60-66 | COMM SHUTDOWN with exactly 2 components closes the client and returns 0; any other COMM shape returns -1 with no effect |
| `HubProcess.NotifyOutcomes` | src/hub/process.c:85-107 | OUT with 3 components broadcasts NOTIFY IN with the body; ADD_FILTER with 4 appends the filter with atoi of its type as a byte; CLEAR_FILTERS with 2 drops every filter; any other shape returns -1 with no effect |
| `HubProcess.VarGetOutcomes` | src/hub/process.c:143-171 | GET of an unknown name logs an error, kicks with "Invalid variable access (name)" and returns -1; GET of a known one replies VAR VALUE under the request's ID and returns 0; no variable changes |
| `HubProcess.VarSetOutcomes` | src/hub/process.c:172-187 | SET of a writable variable stores atof of the value and returns 0 with no reply; an unknown or read-only name logs an error, kicks the client, returns -1 and changes no variable |
| `HubProcess.VarOtherShapes` | src/hub/process.c:189 | a VAR message that is neither a 3-component GET nor a 4-component SET returns -1 with no kick |
| `HubProcess.LogOutcomes` | src/hub/process.c:119-126 | LOG with exactly 4 components logs the text under the sender's name at atoi of the level, read as a short; any other count returns -1 |
| `HubProcess.Process` | src/hub/process.c:202-216 | handling a message updates the client's state and filters, the variable store and the effects exactly as Handle says |
| `Dictionary.HashOf` | src/dictionary.c:48-56 | the djb2 hash (5381, then hash * 33 + byte for each byte) is a 32-bit value |
| `Dictionary.Hash` | src/dictionary.c:48-56 | the shift-and-add loop in 32-bit unsigned arithmetic computes djb2 modulo 2^32 |
| `Dictionary.StringKey` | src/dictionary.c:190-192 | a string key is the string's bytes followed by its NUL |
| `Dictionary.StringKeyInjective` | src/dictionary.c:190-192 | two NUL-free strings give the same key only when they are equal |
| `Dictionary.BucketOf` | src/dictionary.c:127-128 | a key's bucket, hash modulo the bucket count, is a valid bucket index |
| `Dictionary.Lookup` | src/dictionary.c:205-220 | in a table that represents the map, walking a key's chain finds the key exactly when the map has it, with the map's value |
| `Dictionary.ReplaceValue` | src/dictionary.c:136-141 | overwriting the value of the item found for a key gives a table that represents the map with that key updated |
| `Dictionary.AppendNew` | src/dictionary.c:148-155 | appending a new key's item to the end of its chain gives a table that represents the map with that key added |
| `Dictionary.RemoveAt` | src/dictionary.c:385-398 | unlinking the item found for a key gives a table that represents the map without that key |
| `Dictionary.MoveOne` | src/dictionary.c:98-106 | pushing a not-yet-moved item onto the front of its bucket in the bigger table keeps every moved key placed once, with its value |
| `Dictionary.Dictionary.constructor` | src/dictionary.c:65-84 | a new dictionary has 16 empty buckets, no items and represents the empty map |
| `Dictionary.Dictionary.Get` | src/dictionary.c:232-245 | returns the value stored under the key, and NULL exactly when the key is missing |
| `Dictionary.Dictionary.FindItem` | src/dictionary.c:205-220 | the chain walk stops at the key's item, which holds its value, exactly when the key is stored, and no earlier item in the chain has the key |
| `Dictionary.Dictionary.Exists` | src/dictionary.c:324-338 | true exactly when the key is stored |
| `Dictionary.Dictionary.Set` | src/dictionary.c:126-166 | afterwards the key maps to the new value and every other key is unchanged; an existing key keeps the item and bucket counts; a new key adds one item, and the buckets double exactly when item_count / bucket_count exceeds 8 while the count is below 65536 |
| `Dictionary.Dictionary.IncreaseBuckets` | src/dictionary.c:86-114 | the bucket array doubles and every key/value pair survives the rehash, with the item count unchanged |
| `Dictionary.Dictionary.Rehash` | src/dictionary.c:93-109 | the moving loops build a new table of the given size that represents the same map |
| `Dictionary.Dictionary.MoveChain` | src/dictionary.c:95-108 | moving one old bucket's chain adds exactly that bucket's keys to the new table |
| `Dictionary.Dictionary.Remove` | src/dictionary.c:376-406 | a stored key is removed with result 0 and one item fewer; a missing key gives -1 and changes nothing; other keys are unaffected |
| `Dictionary.Dictionary.GetKeys` | src/dictionary.c:442-455 | the list holds every stored key exactly once, and as many entries as there are items |
| `Dictionary.Dictionary.CollectChain` | src/dictionary.c:446-451 | walking one bucket's chain adds exactly that bucket's keys, with no repeats |
| `Dictionary.DistinctCardinality` | src/dictionary.c:442-455 | a list without repeats that holds exactly the elements of a set has as many entries as the set |
| `List.Below` | src/list.c:271-278 | the items sent to the less list, in order, are items of the list that the pivot compares greater than |
| `List.NotBelow` | src/list.c:271-278 | the items sent to the more list, in order, are items of the list that the pivot does not compare greater than |
| `List.SplitPermutes` | src/list.c:271-278 | splitting by the pivot loses and invents no item: the two parts together are a permutation of the list |
| `List.SplitStep` | src/list.c:271-277 | each pass of the split loop extends exactly one of the two parts, by the current item |
| `List.SplitLength` | src/list.c:280-282 | the two parts' sizes add up to the number of items split |
| `List.QuickSorted` | src/list.c:257-296 | the order List_sort leaves is a permutation of the items, of the same length |
| `List.JoinPermutes` | src/list.c:285-291 | rearranging each part and joining them around the first item keeps every item exactly once |
| `List.QuickSortedUnfold` | src/list.c:257-296 | a list of two or more items sorts to the sorted less part, then the first item, then the sorted more part |
| `List.SplitSides` | src/list.c:273-277 | with a consistent comparator, the less items come at or before the pivot and the more items at or after it |
| `List.JoinSorted` | src/list.c:289-291 | sorted runs on either side of a pivot that lies between them join into a sorted run |
| `List.QuickSortedIsSorted` | src/list.c:257-296 | with a comparator consistent on the items (antisymmetric, transitive), List_sort's order is sorted by it |
| `List.List.constructor` | src/list.c:29-44 | a new list is empty and has 16 slots |
| `List.List.Grow` | src/list.c:58-61 | growing adds 16 slots and keeps the items |
| `List.List.Shrink` | src/list.c:142-145 | shrinking releases 16 slots and keeps the items |
| `List.List.Insert` | src/list.c:56-70 | the value lands at index n, the items from n on move up one and the rest stay; the size grows by one, and the slots grow by 16 exactly when the list was full |
| `List.List.ShiftUp` | src/list.c:64-66 | the loop moves every item from n on up one slot and leaves the slots below n alone |
| `List.List.Append` | src/list.c:81-84 | the value is added at the end and its index, the old size, is returned |
| `List.List.Set` | src/list.c:95-99 | below the size the item at n is replaced; at or past the size nothing changes |
| `List.List.Get` | src/list.c:110-116 | the item at n below the size, NULL at or past it |
| `List.List.Remove` | src/list.c:127-148 | a non-NULL item at n is returned and the later items move down one; 16 slots are released exactly when more than 16 would be free; an index past the end or a NULL item gives NULL and changes nothing |
| `List.List.ShiftDown` | src/list.c:136-139 | the loop moves every item after n down one slot and leaves the slots below n alone |
| `List.List.IndexOf` | src/list.c:159-167 | the first index holding the value, and -1 exactly when no item equals it |
| `List.List.GetSize` | src/list.c:177-179 | the size is the number of items |
| `List.List.Copy` | src/list.c:190-209 | a fresh list with the same items and the same number of slots |
| `List.List.Sort` | src/list.c:257-296 | the items end up in the order QuickSorted gives, which is a permutation of the old items and, with a consistent comparator, sorted |
| `List.List.SortAndJoin` | src/list.c:285-291 | sorting both parts and copying them back leaves the sorted less part, the pivot, then the sorted more part |
| `List.List.SortBoth` | src/list.c:285-286 | the two recursive calls sort each part |
| `List.List.Partition` | src/list.c:262-278 | the split loop fills two fresh lists with the items after the first: those the first item compares greater than, and the rest, each in order |
| `List.List.Deal` | src/list.c:273-277 | one item goes to the end of exactly one of the two parts |
| `List.List.CopyBack` | src/list.c:289-291 | the list ends up as the less part, the pivot and the more part |
| `List.List.Blit` | src/list.c:289-290 | memcpy places count items at the offset and leaves every other slot alone |
| `Stack.Capacity` | src/stack.c:54-83 | the slots held for a stack of a given height are the next multiple of 16 strictly above it, so a push always has room |
| `Stack.CapacityAfterPush` | src/stack.c:59-61 | a push reallocates to one more block exactly when the new height is a multiple of 16 |
| `Stack.CapacityAfterPop` | src/stack.c:81-83 | a pop reallocates down to the height plus one exactly when that is a multiple of 16 |
| `Stack.Stack.constructor` | src/stack.c:29-44 | a new stack is empty, with 16 slots |
| `Stack.Stack.Resize` | src/stack.c:60 | the reallocation keeps the items below the height |
| `Stack.Stack.Push` | src/stack.c:54-62 | the value becomes the top and the items under it are unchanged |
| `Stack.Stack.Pop` | src/stack.c:72-86 | an empty stack gives NULL and stays empty; otherwise the top comes off and is returned and the rest is unchanged |
| `Stack.Stack.Top` | src/stack.c:96-98 | the top item of a non-empty stack, which stays as it was |
| `Stack.Stack.GetSize` | src/stack.c:108-110 | the size is the number of items |
| `Queue.Queue.constructor` | src/queue.c:25-32 | a new queue is empty |
| `Queue.Queue.Append` | src/queue.c:42-47 | the value joins at the back and the items before it are unchanged |
| `Queue.Queue.Pop` | src/queue.c:61-72 | without waiting: a non-NULL front item comes off and is returned, the rest keep their order; an empty queue, or a NULL at the front, gives NULL and changes nothing |
| `Queue.Queue.GetSize` | src/queue.c:82-84 | the size is the number of queued items |
| `MemPool.ClearFrom` | src/mem_pool.c:221-226 | the first chunk at or above a start whose bit is clear, 32 when every one is taken |
| `MemPool.LowestClear` | src/mem_pool.c:221-226 | the search loop stops at the lowest clear bit: every chunk below it is taken, and it is clear unless it is 32 |
| `MemPool.EveryChunkTaken` | src/mem_pool.c:64-70 | a map marking only the block's eight chunks, with each of them taken, is the full map |
| `MemPool.SetTakes` | src/mem_pool.c:234 | or-ing in a chunk's mask takes that chunk, and a chunk of the block keeps the map inside the block |
| `MemPool.FreeChunkExists` | src/mem_pool.c:221-226 | a block map that is not full has its lowest clear chunk inside the block |
| `MemPool.TakeAsWritten` | src/mem_pool.c:221-234 | as written, a take hands out the lowest clear bit, and the full flag ends up raised exactly when it was already, when that bit is 31, or when no bit is clear |
| `MemPool.ShiftsOut` | src/mem_pool.c:229 | m << 1 is zero for the mask of chunk 31 and for no other |
| `MemPool.TakeAsWrittenOverruns` | src/mem_pool.c:228-231 | as written, retaking a freed low chunk of a block with every bit set leaves the flag clear, and the next take hands out chunk 32 |
| `MemPool.NinthChunkOutsideBlock` | src/mem_pool.c:221-239 | as written, once chunks 0 to 7 are taken the flag stays clear and the next take hands out chunk 8, which starts at offset 4096, the end of the 4096-byte block |
| `MemPool.BlockForAllocAsWritten` | src/mem_pool.c:134-148 | as written, the first block that is not full, else the last block, and a new block only when there are no blocks |
| `MemPool.BlockForAllocAsWrittenReturnsFull` | src/mem_pool.c:138-147 | as written, for every non-empty list of blocks that are all full, the block returned is the last one and it is full |
| `MemPool.FirstNotFull` | src/mem_pool.c:138-144 | the first block that is not full, or the number of blocks: every block before it is full |
| `MemPool.Countdown` | src/mem_pool.c:192-194 | pushing descriptors lo to hi onto the free list leaves hi first, down to lo last |
| `MemPool.Block.constructor` | src/mem_pool.c:118-123 | a new block has no chunk taken and is not full |
| `MemPool.Block.Take` | src/mem_pool.c:221-234 | a block that is not full hands out its lowest free chunk, which lies inside the block, sets its bit, and is full afterwards exactly when all eight chunks are taken |
| `MemPool.Block.FindClear` | src/mem_pool.c:221-226 | the search loop finds the lowest clear bit |
| `MemPool.Block.Release` | src/mem_pool.c:168-177 | the chunk's bit is cleared and the block is not full |
| `MemPool.Alloc.Assign` | src/mem_pool.c:239-243 | the descriptor points into the chunk, internal, with write index 0 and size 512 |
| `MemPool.Pool.constructor` | src/mem_pool.c:95-98 | no blocks, no descriptors, an empty free list |
| `MemPool.Pool.AllocNewBlock` | src/mem_pool.c:118-129 | an empty block whose index is its position is appended to the blocks list |
| `MemPool.Pool.GetBlockForAlloc` | src/mem_pool.c:134-154 | the first block that is not full, and a new block only when every block is full; the block returned is never full |
| `MemPool.Pool.SetDescriptorFree` | src/mem_pool.c:160-163 | the descriptor is pushed on the free list |
| `MemPool.Pool.GetDescriptor` | src/mem_pool.c:182-204 | the head of the free list is popped; an empty free list first gains eight new descriptors, pushed in order, so the last one is handed out |
| `MemPool.Pool.GrowDescriptors` | src/mem_pool.c:188-190 | eight new descriptors are added at the end and the old ones stay |
| `MemPool.Pool.Allocate` | src/mem_pool.c:215-246 | the chunk taken is the lowest clear chunk of the first block that is not full (chunk 0 of a new block when all are full), clear before and set after; the descriptor, popped off the free list or the last of 8 new ones, is internal with write index 0, size 512 and that block and chunk; no other block's map and no other descriptor changes |
| `MemPool.Pool.TakeChunk` | src/mem_pool.c:216-235 | the block is the first that is not full, or a new empty one; the chunk is its lowest clear one, below 8 and clear before; the block's map gains exactly that bit and every other block's map is unchanged |
| `MemPool.Pool.Describe` | src/mem_pool.c:237-245 | the popped descriptor records the block and chunk, internal, write index 0, size 512; the blocks and every other existing descriptor are unchanged |
| `MemPool.Pool.ReleaseChunk` | src/mem_pool.c:168-177 | the descriptor's block map loses exactly the chunk's bit, and every other block's map is unchanged |
| `MemPool.Pool.Free` | src/mem_pool.c:255-265 | an internal allocation clears exactly its chunk's bit in its block, an external one touches no block; every other block's map and every descriptor is unchanged, and the descriptor goes on the free list either way |
| `MemPool.Pool.Reserve` | src/mem_pool.c:310-334 | the bytes at the old write index are handed out and the index moves on by the size, wrapping at 65536; the bytes already written stay; an allocation that runs out of room becomes external and gives back its chunk |
| `MemPool.Pool.MakeRoom` | src/mem_pool.c:314-328 | afterwards the requested bytes fit; the written bytes stay, and the allocation is external exactly when it was or when they did not fit below 512 |
| `MemPool.Pool.MoveOut` | src/mem_pool.c:321-328 | the written bytes move to a new buffer of the requested size, the allocation becomes external and its chunk is given back |
| `MemPool.Pool.Write` | src/mem_pool.c:278-283 | the data is copied to the reserved bytes and the bytes before them stay |
| `MemPool.Pool.Strdup` | src/mem_pool.c:295-297 | the string and a NUL terminator are written at the old write index |
| `ArdComm.Frame` | src/ardcomm.c:96-106 | a frame is the type and the data with '{', the divider, '}' and the newline: four bytes longer than the two strings |
| `ArdComm.StrLen` | src/ardcomm.c:99-101 | strlen is the index of the first NUL, the whole buffer when it holds none |
| `ArdComm.CStringOfTerminated` | src/ardcomm.c:99-101 | a string without NUL, once terminated, reads back as itself whatever follows |
| `ArdComm.ByteAt` | src/serial.c:343-352 | Serial_getByte gives the next byte, and -1 exactly when the stream is exhausted |
| `ArdComm.Stored` | src/ardcomm.c:64 | storing Serial_getByte's int in a char keeps every byte; -1 becomes 0xFF |
| `ArdComm.Cell` | src/ardcomm.c:64-81 | the i-th char a reading loop stores is the i-th byte read, 0xFF once the stream is exhausted |
| `ArdComm.Cells` | src/ardcomm.c:64-81 | the first n chars a reading loop stores |
| `ArdComm.Advance` | src/ardcomm.c:56 | reads move along the stream and stop at its end |
| `ArdComm.SkipTo` | src/ardcomm.c:55-61 | the frame-hunting loop stops just past the first '{', and gives up exactly when the rest of the stream holds none |
| `ArdComm.TypeField` | src/ardcomm.c:64-71 | the type loop ends at the first divider after plain chars, rejects at the first '{' or '}', and runs past the buffer when neither comes in time |
| `ArdComm.DataField` | src/ardcomm.c:74-81 | the data loop ends at the first '}', rejects where the type buffer at the data index holds the divider or '{', and runs past a buffer otherwise |
| `ArdComm.Receive` | src/ardcomm.c:48-84 | the outcome of ArdComm_getMessage stays within both buffers and the stream, and a delivered message (return 1) has a type and data each ending in the NUL written after it |
| `ArdComm.TypeFieldSkips` | src/ardcomm.c:64-70 | the type loop passes over plain chars |
| `ArdComm.DataFieldSkips` | src/ardcomm.c:74-80 | the data loop passes over chars that are not '}' while the type buffer's check passes |
| `ArdComm.FramedCells` | src/ardcomm.c:96-102 | in a sent frame the type follows the '{' and the data follows the divider |
| `ArdComm.FrameFound` | src/ardcomm.c:55-61 | the frame is found right after leading bytes that hold no '{' |
| `ArdComm.RoundTrip` | src/ardcomm.c:48-106 | reading back what ArdComm_sendMessage writes returns 1 with the type and the data, each terminated, and stops after the '}', when the type is plain, the data has no '}', both fit, and the type buffer's check passes |
| `ArdComm.ReceiveDelivered` | src/ardcomm.c:48-84 | the path of a delivered message: frame found, type divided, data ended |
| `ArdComm.FramedType` | src/ardcomm.c:64-71 | the type loop over a sent frame stores the type and stops at its divider |
| `ArdComm.FramedData` | src/ardcomm.c:74-81 | the data loop over a sent frame stores the data and stops at its '}' |
| `ArdComm.TypeBufferPasses` | src/ardcomm.c:71-75 | the type buffer the type loop leaves passes the data loop's check wherever the old chars do |
| `ArdComm.BraceInTypeRejected` | src/ardcomm.c:64-68 | a '{' or '}' before the divider gives -1, after the chars up to it were stored |
| `ArdComm.FoundAfter` | src/ardcomm.c:55-61 | a '{' after bytes that hold none starts the frame |
| `ArdComm.BraceTypeField` | src/ardcomm.c:64-68 | the type loop rejects at the brace, having stored it |
| `ArdComm.CellsAfter` | src/ardcomm.c:64-81 | a loop reading from just past a stretch stores the bytes that follow it |
| `ArdComm.SerialPort.GetByte` | src/serial.c:343-352 | the next byte or -1, and the stream moves on by one unless exhausted |
| `ArdComm.SerialPort.SendByte` | src/serial.c:423-425 | the byte is written |
| `ArdComm.SerialPort.Send` | src/serial.c:437-447 | all the bytes are written, in order |
| `ArdComm.SendMessage` | src/ardcomm.c:96-106 | the port receives exactly the frame for the two C strings |
| `ArdComm.StoredImage` | src/ardcomm.c:64-81 | a buffer whose first n chars were read and whose others are untouched |
| `ArdComm.TerminatedImage` | src/ardcomm.c:71-81 | a buffer whose first n chars were read, then terminated, and whose others are untouched |
| `ArdComm.FindFrame` | src/ardcomm.c:54-61 | the loop stops just past the first '{', or at the end of the stream when there is none |
| `ArdComm.ReadType` | src/ardcomm.c:63-71 | the loop ends as TypeField says, with the type buffer holding what was read and the NUL |
| `ArdComm.ReadData` | src/ardcomm.c:73-81 | the loop ends as DataField says, with the data buffer holding what was read and the NUL |
| `ArdComm.GetMessage` | src/ardcomm.c:48-84 | the return value and both buffers are what Receive gives, unless a buffer is overrun |
| `ArdComm.CStringOfPrefix` | src/ardcomm.c:149 | strcmp sees only the chars up to the first NUL |
| `ArdComm.GetId` | src/ardcomm.c:140-156 | 0 when the message's type is "ID", -1 otherwise; a message of another type clears id and logs an ERROR |
| `ArdComm.CheckIdType` | src/ardcomm.c:148-155 | "ID" gives 0 and leaves id alone; another type clears id and logs the error |
| `ArdComm.ClearString` | src/ardcomm.c:150 | id then holds the empty C string |
| `ArdComm.Handshake` | src/ardcomm.c:116-129 | after an identification the port receives the ESTABLISHED then the READY frame, each with data NULL, and 0 is returned; otherwise nothing is sent; unless the read overran, the stream is left just past the message read; a message of another type is logged at ERROR (sent and printed per the logger's settings), and otherwise nothing is logged |
| `ArdComm.Announce` | src/ardcomm.c:124-125 | the two frames are sent in order |
| `ArdComm.IdFrameAccepted` | src/ardcomm.c:140-156 | an ID frame whose identifier has no '}' and fits both buffers identifies the device |
| `ArdComm.OtherTypeRefused` | src/ardcomm.c:149-153 | a well-formed frame of any other type gives -1 |
| `ArdComm.LongIdentifierOverruns` | src/ardcomm.c:74-75 | as written, an identifier longer than the 16-char type buffer makes the data loop read past that buffer |

## Left out

- Sockets, the select loop, threads, mutexes and condition variables: `Comm_init`, the receive thread, `Comm_sendMessage`'s wait for a reply, src/hub/netloop.c and src/hub/netio.c. These are I/O and concurrency. Locks are no-ops in the model.
- `Queue.Queue.Pop`: only the non-waiting path (wait false) is modelled. A waiting pop blocks on a condition variable until another thread appends.
- `Dictionary_waitFor` and `Dictionary_waitForValue`: these block until another thread sets a key.
- `Notify.Notifier.Get`: a queue that runs dry, where `Notify_get` would block, is the result `WouldBlock`. A body without a space, where the C reads past the body, is the result `NoSpace`.
- `Comm.RequestTable.AssignRequestID`: when every ID is pending and the table can no longer grow, the C spins forever. The model returns `Exhausted` there.
- `ArdComm.GetMessage`: where the C reads or writes past a buffer's end, the result is `Undefined`, and the model says nothing more about the buffers or the stream.
- `Serial_flush` at the end of `ArdComm_handshake`: it only discards pending device input.
- src/serial.c's termios, ioctl and fcntl calls. The serial port is a finite byte sequence to read from and an output sequence to write to.
- `Util.Strip`: requires the string to be empty or to hold a non-space character. On a non-empty all-blank string the C reads `buffer[-1]`. The configuration readers, which do meet such lines, use `Util.Stripped`, which gives the empty string there.
- `Stack.Stack.Top`: requires a non-empty stack. On an empty one the C reads `base[-1]`.
- `List.List.Insert`: requires an index at most the size. Past the end the C stores beyond the items and counts an uninitialized slot as an item.
- `List.List.Remove` and the other list operations take indices as naturals. A negative index is outside the model.
- `Logging.Logger.Log`: requires a valid level whenever the message is printed. The C indexes `level_names` with the level.
- `Notify.Notifier.AddFilter`: requires the filter array to be allocated. `Notify_filter` writes through it without a check.
- `Notify.Notifier.Init`: requires that no filter is registered yet. A second `Notify_init` keeps the filter count but allocates a fresh, empty array.
- `HubClient.PrefixWalk`: past the pattern's end, the C's walk goes on reading `filter_body` beyond its NUL, outside the filter's buffer. What it reads there cannot change the verdict again, so the model walks on without reading it.
- `Comm.Unpack`: the C checks neither the buffer against the header nor the data against the count. A buffer shorter than the 6-byte header or than the announced data, and data with fewer NULs than components, make it read past its buffers. The model returns `Truncated` for all three and says nothing about what the C would read. The `assert(count != 0)` abort is the result `ZeroCount`.
- `Util.Split`: requires a split character other than NUL (every caller passes '='). When the character is absent the C leaves p2 untouched; the model returns p2 empty.
- `Comm.Pack`: the 16-bit `length` field holds the components' total plus the 6-byte header, so it wraps once the total passes 65529 bytes. The C then allocates the wrapped length (0 to 5 bytes for totals 65530 to 65535) and writes the header and the data past it. The model's packed data holds every byte, and only the length fields wrap. `Comm.DecodeEncode` therefore requires the packed length to fit 16 bits.
- `MemPool`: an allocation's address (block base plus chunk index times 512) is not modelled. A descriptor records its block index and chunk, and its bytes are a sequence of their own. Bytes that C leaves indeterminate (a fresh chunk, the tail of a malloc or realloc) are zeros in the model.
- `MemPool.Block.index`: the C field is a `uint16_t` set from the list size. The model's index is unbounded, so the wrap after 65536 blocks is not modelled. The C as written never makes a second block (see the findings below), but the corrected `Pool.GetBlockForAlloc` could reach that many.
- `MemPool.Pool.GrowDescriptors`: the descriptor pool is a sequence of objects. Moving it by realloc, which would leave outstanding descriptor pointers dangling, is not modelled.
- `MemPool_close` and the `*_destroy` functions: they only free memory.
- `SeawolfConfig.Client.Dispatch`: the option and value are strings. The C splits the stripped line with `Util_split`, which copies without a bound, into `char option[64]` and `char value[448]` (MAX_LINE - 64). A line with 64 or more characters before its first '=', or of 64 or more characters with no '=', overflows `option`; one with 448 or more characters after its first '=' overflows `value`. Neither overflow is modelled.
- `LibC.Atoi`: integers are unbounded, so overflow of `atoi` is not modelled.
- `HubConfig.HubConfig.ProcessConfig`: `Hub_exitError` is reported as the `exitError` result rather than ending the process.
- `Dictionary.Dictionary.GetKeys`: the keys come in bucket order, as in the C. The properties state which keys are listed, each once, but not their order.
- `HubVar`: the sqlite database, variable persistence and the loading of definitions from a file are left out. The variable store starts from a given list of definitions.
- `Util_format`, `Util_usleep`, src/pid.c, src/timer.c, src/task.c, src/synch.c, src/main.c, src/hub/hub.c, src/hub/db.c, src/hub/logging.c, src/var.c and the Python bindings are not part of this model. They are formatting with per-thread buffers, floating-point control, clocks, threads, process start-up and shutdown, database and file I/O, and network-backed variables.

## Findings

| source | as written | input that shows it | evidently intended | confidence | as-written member | corrected member |
|---|---|---|---|---|---|---|
| src/mem_pool.c:228-231 | a block is marked full when the chunk taken is chunk 31 (`(m << 1) == 0`), not when its last free chunk goes | a block with all 32 bits set has chunk 5 freed and then retaken: the flag stays clear, and the next allocation searches past bit 31 and gets chunk 32 | the full flag is set exactly when every chunk of the block is taken | high, not executed | `MemPool.TakeAsWrittenOverruns` | `MemPool.Block.Take` |
| src/mem_pool.c:138-148 | when every block is full, the search loop leaves `block` at the last block, so no new block is made and a full block is returned | any non-empty list of blocks, all full (for instance one full block) | a new block is allocated whenever no block has a free chunk | high, not executed | `MemPool.BlockForAllocAsWrittenReturnsFull` | `MemPool.Pool.GetBlockForAlloc` |
| src/mem_pool.c:64-70 | the chunk search runs over all 32 bits of `alloc_map`, but a 4096-byte block holds only 4096 / 512 = 8 chunks | a fresh block after eight allocations (chunks 0 to 7): the flag is clear, and the ninth allocation gets chunk 8, at offset 4096, past the block | a block holds eight chunks and is full once they are all taken | high, not executed | `MemPool.NinthChunkOutsideBlock` | `MemPool.Block.Take` |
