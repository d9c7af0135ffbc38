# Status monitor probes, in Dafny

A model of the status-probe logic of an Android status monitor. Each
monitored entity (a game server, a host running a small health server, a
web site, a pingable router) has a check strategy that turns one exchange
with the outside world into a three-valued `Result`: Online, Offline or
NoConnection, with a message and an optional uptime. A background service
runs every check every 20 seconds and folds each result into its entity.
A list adapter then turns the entity into the text of a status card.

The modules follow the program's classes:

- `Lang`: `Option` for Java's `null`, bytes, the `int` range, and the exceptions the probes catch (`Fault`).
- `Strings`: the `String` operations the probes use (`indexOf`, `contains`, `trim`, `toLowerCase`, `replaceAll("\\s+", " ")`).
- `Decimal`: decimal text of an `int` or `long` and reading it back, and Java's truncating `/`.
- `Results`: `MonitorEntity.Status` and `StatusCheckStrategy.Result` with its factories.
- `Http`: the status-code classes of section 15.3 (2xx Successful) and section 15.4 (3xx Redirection) of RFC 9110.
- `VarInt`: the protocol's variable-length integer, `writeVarInt` and `readVarInt`. Its byte layout is that of unsigned LEB128 (DWARF version 5, section 7.6) over the 32 bits of a Java `int`.
- `MinecraftCheck`: handshake and status-request framing, reading the status response, scanning its JSON text, and the message and exception mapping of `check`.
- `HealthCheck`: `SimpleHealthCheck`, covering the URL, code classification, body reading, quoted-field scanning and exception mapping.
- `WebsiteCheck`: `WebsiteCheck`, covering the timeout-only retry loop, the case-insensitive content match, the 50 000-character body cap, and title extraction.
- `PingCheck`: `PingCheck`, covering the three-attempt retry loop, the per-line scan of the `ping` output, and the verdict.
- `Entity`: `MonitorEntity` as a class whose setters update its fields in place, and its `Builder`.
- `StatusChecker`: the dispatcher's choice between "No network", the probe's own result and "Check failed".
- `Service`: `MonitorService`, covering the running flag, the checks it issues, the posted re-runs, and the completion callback that updates an entity, calls the listener and raises alerts.
- `Adapter`: the elapsed-time text, the message with its uptime line, and the badge text.

Every piece of I/O is an input to the model:

- A socket is the bytes the server sends plus the fault raised by reading past them.
- An HTTP connection is either a fault, or a response code plus body lines that may fail to read.
- A `ping` process is its output lines plus its exit code, or a fault.
- `Thread.sleep` either sleeps or is interrupted.
- A connectivity query is the manager, the active network and its capabilities.

What a probe writes to the socket is returned as a byte sequence.

Where the code's behaviour is easy to misread, the model follows the code:

- Before its first `setStatus` an entity holds the placeholder status Offline. The first `setStatus` therefore leaves Offline, not `null`, as the previous status (`Entity.FirstCallLeavesOffline`).
- A probe that throws is reported as NoConnection "Check failed", never Offline (`StatusChecker.OnlineOnlyFromProbe`).
- `MinecraftCheck`'s `extractJson(json, "name")` takes the first `"name"` anywhere in the text. In a status response that is usually the version name, but a player sample listed before the version would supply it instead (`MinecraftCheck.JsonValue`).
- The service's alert fires for every Offline result while notifications are on. It does not consult `shouldNotify`, so it also fires when the entity was already Offline, and it never fires for NoConnection (`Service.AlertIgnoresPrevious`).

## Model

| member | source | states |
|---|---|---|
| Results.Make | app/src/main/java/com/example/statusmonitor/StatusCheckStrategy.java:13-21 | the two-argument constructor is the three-argument one with no uptime |
| Results.MakeOnline | app/src/main/java/com/example/statusmonitor/StatusCheckStrategy.java:23-25 | `online(m)` is Online with message m and no uptime |
| Results.MakeOnlineWithUptime | app/src/main/java/com/example/statusmonitor/StatusCheckStrategy.java:27-29 | `online(m, u)` is Online with message m and uptime u |
| Results.MakeOffline | app/src/main/java/com/example/statusmonitor/StatusCheckStrategy.java:31-33 | `offline(m)` is Offline with message m and no uptime |
| Results.MakeNoConnection | app/src/main/java/com/example/statusmonitor/StatusCheckStrategy.java:35-37 | `noConnection(m)` is NoConnection with message m and no uptime |
| Decimal.IntToStringRoundTrip | app/src/main/java/com/example/statusmonitor/checks/SimpleHealthCheck.java:127 | the decimal text Java writes for any integer reads back as that integer |
| Decimal.JavaDiv | app/src/main/java/com/example/statusmonitor/StatusAdapter.java:200 | Java's `/` by a positive divisor: the floor for non-negative operands, rounding toward zero for negative ones |
| Strings.IndexOf | app/src/main/java/com/example/statusmonitor/checks/MinecraftCheck.java:165 | `indexOf(pat, from)` is -1 or an occurrence at or after `from`, with no occurrence between `from` and it |
| Strings.IndexOfFinds | app/src/main/java/com/example/statusmonitor/checks/MinecraftCheck.java:165 | the first occurrence at or after `from` is what `indexOf` returns |
| Strings.ContainsIff | app/src/main/java/com/example/statusmonitor/checks/PingCheck.java:52 | `contains(pat)` holds exactly when the pattern occurs somewhere |
| Strings.ToLower | app/src/main/java/com/example/statusmonitor/checks/WebsiteCheck.java:101 | lower-casing keeps the length and maps each character on its own |
| Strings.ToLowerIdempotent | app/src/main/java/com/example/statusmonitor/checks/WebsiteCheck.java:28 | lower-casing twice is lower-casing once |
| Strings.LowerOccurs | app/src/main/java/com/example/statusmonitor/checks/WebsiteCheck.java:48 | an occurrence of a pattern survives lower-casing both texts |
| Strings.Trim | app/src/main/java/com/example/statusmonitor/checks/SimpleHealthCheck.java:159 | `trim()` is no longer than its input and neither starts nor ends with a character at or below ' '; `TrimSlice` says which slice of the input it is |
| Strings.TrimIdempotent | app/src/main/java/com/example/statusmonitor/checks/SimpleHealthCheck.java:159 | trimming twice is trimming once |
| Strings.TrimSlice | app/src/main/java/com/example/statusmonitor/checks/SimpleHealthCheck.java:159 | `trim()` is the slice of its input that starts after the leading characters at or below ' ' and has only such characters after it |
| Strings.TrimPadded | app/src/main/java/com/example/statusmonitor/checks/WebsiteCheck.java:107 | text padded on both sides with characters at or below ' ' trims back to the text, when the text neither starts nor ends with one |
| Strings.CollapseSpaces | app/src/main/java/com/example/statusmonitor/checks/WebsiteCheck.java:109 | `replaceAll("\\s+", " ")` keeps every other character in order, leaves only ' ' as white space, never two side by side, and starts with white space exactly when its input does; `CollapseWord` and `CollapseJoin` say where the spaces stand |
| Strings.CollapseWord | app/src/main/java/com/example/statusmonitor/checks/WebsiteCheck.java:109 | text without a `\s` character is left as it is |
| Strings.CollapseJoin | app/src/main/java/com/example/statusmonitor/checks/WebsiteCheck.java:109 | a run of `\s` characters between two pieces, neither with a `\s` character at the joint, becomes one ' ' between the two collapsed pieces |
| Strings.Concat | app/src/main/java/com/example/statusmonitor/checks/SimpleHealthCheck.java:158 | the lines appended without separator have the sum of their lengths |
| VarInt.Unsigned | app/src/main/java/com/example/statusmonitor/checks/MinecraftCheck.java:134 | the 32 bits `>>>` shifts, read as an unsigned number: the value itself when non-negative, at least 2^31 when negative |
| VarInt.Signed | app/src/main/java/com/example/statusmonitor/checks/MinecraftCheck.java:152 | the `int` whose 32 bits are `u` is the inverse of `Unsigned` |
| VarInt.GroupsShape | app/src/main/java/com/example/statusmonitor/checks/MinecraftCheck.java:131-137 | every byte written but the last has bit 0x80 set, and the last has it clear |
| VarInt.WriteVarInt | app/src/main/java/com/example/statusmonitor/checks/MinecraftCheck.java:131-137 | the loop writes the 7-bit groups of the value's 32 bits, low group first |
| VarInt.GroupsLength | app/src/main/java/com/example/statusmonitor/checks/MinecraftCheck.java:131-137 | k bytes hold every value below 2^(7k), and a value of 2^(7(k-1)) or more needs k |
| VarInt.EncodeLength | app/src/main/java/com/example/statusmonitor/checks/MinecraftCheck.java:131-137 | one to five bytes, exactly five for a negative value, the value itself as one byte below 128 |
| VarInt.ReadVarInt | app/src/main/java/com/example/statusmonitor/checks/MinecraftCheck.java:145-158 | the loop reads what `Decode` specifies, including the end-of-stream fault and "VarInt too big" |
| VarInt.RoundTrip | app/src/main/java/com/example/statusmonitor/checks/MinecraftCheck.java:145-158 | reading the bytes `writeVarInt(v)` wrote gives back `v` and consumes exactly those bytes |
| VarInt.DecodeShape | app/src/main/java/com/example/statusmonitor/checks/MinecraftCheck.java:150-156 | a read consumes one to five bytes, all but the last with bit 0x80 set; five such bytes in a row raise "VarInt too big", so a sixth is never read; the only faults are that one and the end of the stream |
| VarInt.PaddedZero | app/src/main/java/com/example/statusmonitor/checks/MinecraftCheck.java:145-158 | decoding is not injective: [0x80, 0x00] reads as 0, which is written as one byte |
| MinecraftCheck.NewProbe | app/src/main/java/com/example/statusmonitor/checks/MinecraftCheck.java:29-31 | the one-argument constructor uses port 25565 |
| MinecraftCheck.Description | app/src/main/java/com/example/statusmonitor/checks/MinecraftCheck.java:89-92 | "MC:" followed by text that reads back as the port |
| MinecraftCheck.ShortBytes | app/src/main/java/com/example/statusmonitor/checks/MinecraftCheck.java:101 | `writeShort(port)` writes two bytes, high byte first, holding the port's low 16 bits |
| MinecraftCheck.HandshakeBodyLength | app/src/main/java/com/example/statusmonitor/checks/MinecraftCheck.java:94-108 | the handshake packet is the host's bytes plus at most 11 bytes |
| MinecraftCheck.SendHandshake | app/src/main/java/com/example/statusmonitor/checks/MinecraftCheck.java:94-108 | the bytes written are the length-framed packet: id 0, protocol 765, host length and bytes, port, next state 1 |
| MinecraftCheck.SendStatusRequest | app/src/main/java/com/example/statusmonitor/checks/MinecraftCheck.java:110-114 | the status request is exactly 0x01 0x00: a frame holding packet id 0 |
| MinecraftCheck.FrameRoundTrip | app/src/main/java/com/example/statusmonitor/checks/MinecraftCheck.java:104-106 | a length-framed packet reads back as exactly that packet, leaving what follows |
| MinecraftCheck.HandshakeTailRoundTrip | app/src/main/java/com/example/statusmonitor/checks/MinecraftCheck.java:100-102 | after the host length, the host bytes, the port's low 16 bits and next state 1 read back with nothing left over |
| MinecraftCheck.HandshakeRoundTrip | app/src/main/java/com/example/statusmonitor/checks/MinecraftCheck.java:94-102 | the handshake packet reads back field by field as id 0, protocol 765, the host, the port mod 65536 and next state 1 |
| MinecraftCheck.SentHandshakeReadsBack | app/src/main/java/com/example/statusmonitor/checks/MinecraftCheck.java:94-108 | what `sendHandshake` writes is one frame that a server parses as that handshake |
| MinecraftCheck.Text | app/src/main/java/com/example/statusmonitor/checks/MinecraftCheck.java:128 | one character per byte, with the byte's value |
| MinecraftCheck.StatusResponse | app/src/main/java/com/example/statusmonitor/checks/MinecraftCheck.java:116-129 | a JSON text returned is 1 to 32767 characters long and lies within the bytes received |
| MinecraftCheck.ReadStatusResponse | app/src/main/java/com/example/statusmonitor/checks/MinecraftCheck.java:116-129 | the reads and checks in order: negative length, packet id other than 0, or JSON length outside 1..32767 give null; a short stream throws |
| MinecraftCheck.ResponseRoundTrip | app/src/main/java/com/example/statusmonitor/checks/MinecraftCheck.java:116-129 | a well-formed response frame reads back as its JSON text, and no byte past the frame is read |
| MinecraftCheck.WrongPacketId | app/src/main/java/com/example/statusmonitor/checks/MinecraftCheck.java:120-121 | a frame whose packet id is not 0 reads as null after the id |
| MinecraftCheck.NegativeLength | app/src/main/java/com/example/statusmonitor/checks/MinecraftCheck.java:117-118 | a negative packet length reads as null after its five bytes |
| MinecraftCheck.BadJsonLength | app/src/main/java/com/example/statusmonitor/checks/MinecraftCheck.java:123-124 | after a non-negative packet length and packet id 0, a JSON length of 0 or less or above 32767 reads as null, right after that length |
| MinecraftCheck.TruncatedPayload | app/src/main/java/com/example/statusmonitor/checks/MinecraftCheck.java:123-128 | a JSON length in range with fewer bytes left than it announces throws what reading past the end of the stream throws |
| MinecraftCheck.ReadFaultKinds | app/src/main/java/com/example/statusmonitor/checks/MinecraftCheck.java:116-129 | reading the response throws only what reading past the reply throws, or "VarInt too big" |
| MinecraftCheck.SkipWhitespace | app/src/main/java/com/example/statusmonitor/checks/MinecraftCheck.java:172-175 | the first index at or after `i` not holding white space, with white space in between |
| MinecraftCheck.NumberEnd | app/src/main/java/com/example/statusmonitor/checks/MinecraftCheck.java:187-191 | the end of the maximal run of digits, '-' and '.' from `i` |
| MinecraftCheck.JsonValue | app/src/main/java/com/example/statusmonitor/checks/MinecraftCheck.java:160-196 | a value found holds no '"', and there is none unless the quoted key occurs in the text |
| MinecraftCheck.ValueAfterKey | app/src/main/java/com/example/statusmonitor/checks/MinecraftCheck.java:168-169 | a value found after the ':' holds no '"' |
| MinecraftCheck.ValueAt | app/src/main/java/com/example/statusmonitor/checks/MinecraftCheck.java:177-195 | a value read at the first non-blank character holds no '"' |
| MinecraftCheck.ValueAtNull | app/src/main/java/com/example/statusmonitor/checks/MinecraftCheck.java:177-195 | no value exactly when the text ends at the value's start, when a '"' there is never closed, or when the character there is neither '"', a digit nor '-' |
| MinecraftCheck.ExtractJson | app/src/main/java/com/example/statusmonitor/checks/MinecraftCheck.java:160-196 | the two scanning loops compute `JsonValue`; a null text gives null |
| MinecraftCheck.ValueAtLoop | app/src/main/java/com/example/statusmonitor/checks/MinecraftCheck.java:177-195 | the string branch and the number loop compute `ValueAt` |
| MinecraftCheck.JsonValueAfterKey | app/src/main/java/com/example/statusmonitor/checks/MinecraftCheck.java:164-166 | no quoted key gives null; otherwise the value is the one after the key |
| MinecraftCheck.NoColon | app/src/main/java/com/example/statusmonitor/checks/MinecraftCheck.java:168-169 | no ':' after the key gives null |
| MinecraftCheck.ValueAfterColon | app/src/main/java/com/example/statusmonitor/checks/MinecraftCheck.java:168-175 | after the ':' and the skipped white space, the value is the one at the first non-blank character |
| MinecraftCheck.JsonValueAt | app/src/main/java/com/example/statusmonitor/checks/MinecraftCheck.java:164-177 | key found, ':' found, white space skipped: the value is the one at `valueStart` |
| MinecraftCheck.KeyThenValue | app/src/main/java/com/example/statusmonitor/checks/MinecraftCheck.java:164-175 | when the first quoted key is followed by ':' and white space, the value starts after the white space |
| MinecraftCheck.QuotedValueAt | app/src/main/java/com/example/statusmonitor/checks/MinecraftCheck.java:180-184 | a '"' starts a string value that runs to the next '"', with no escapes |
| MinecraftCheck.NumberValueAt | app/src/main/java/com/example/statusmonitor/checks/MinecraftCheck.java:185-192 | a digit or '-' starts a number value that runs over digits, '-' and '.' |
| MinecraftCheck.StringFieldReadsBack | app/src/main/java/com/example/statusmonitor/checks/MinecraftCheck.java:160-196 | a string field written after the first occurrence of its key reads back |
| MinecraftCheck.NumberFieldReadsBack | app/src/main/java/com/example/statusmonitor/checks/MinecraftCheck.java:160-196 | an integer field written after the first occurrence of its key reads back as its text, which parses as the integer |
| MinecraftCheck.Message | app/src/main/java/com/example/statusmonitor/checks/MinecraftCheck.java:65-74 | the version, a "\n", then "online/max players" when the version is non-empty and both counts were found; only the counts when the version is absent or empty; only the version when a count is missing; "Online" when nothing was found |
| MinecraftCheck.FaultResult | app/src/main/java/com/example/statusmonitor/checks/MinecraftCheck.java:76-86 | NoConnection exactly for an unknown host or no route; never Online; another exception reports its class name |
| MinecraftCheck.ResponseResult | app/src/main/java/com/example/statusmonitor/checks/MinecraftCheck.java:54-74 | Online exactly when a JSON text was read, with the composed message of its "name", "online" and "max" values and no uptime; Offline "No response" when none was read; the exception mapping when reading threw |
| MinecraftCheck.LayoutName | app/src/main/java/com/example/statusmonitor/checks/MinecraftCheck.java:61 | in a status text shaped like the server's reply, the "name" key reads back as the version |
| MinecraftCheck.LayoutMax | app/src/main/java/com/example/statusmonitor/checks/MinecraftCheck.java:63 | in that status text, the "max" key reads back as the player limit |
| MinecraftCheck.LayoutOnline | app/src/main/java/com/example/statusmonitor/checks/MinecraftCheck.java:62 | in that status text, the "online" key reads back as the player count |
| MinecraftCheck.VanillaMessage | app/src/main/java/com/example/statusmonitor/checks/MinecraftCheck.java:54-74 | a status reply with a release number, a player limit and a player count gives Online "version\nonline/max players" |
| MinecraftCheck.SampleMessage | app/src/main/java/com/example/statusmonitor/checks/MinecraftCheck.java:54-74 | the reply for version 1.20.4 with 3 of 20 players gives Online "1.20.4\n3/20 players" |
| MinecraftCheck.Outcome | app/src/main/java/com/example/statusmonitor/checks/MinecraftCheck.java:38-87 | Online only with a valid port and a connected socket; a port outside 0..65535 reports IllegalArgumentException |
| MinecraftCheck.Request | app/src/main/java/com/example/statusmonitor/checks/MinecraftCheck.java:47-51 | the bytes sent end with the status request 0x01 0x00 |
| MinecraftCheck.Check | app/src/main/java/com/example/statusmonitor/checks/MinecraftCheck.java:38-87 | returns `Outcome`; writes the handshake and the request only when connecting succeeded |
| MinecraftCheck.AnsweringServerIsOnline | app/src/main/java/com/example/statusmonitor/checks/MinecraftCheck.java:54-74 | a server answering with a well-formed status response is Online with the message built from its JSON fields |
| MinecraftCheck.NoConnectionOnlyWhenUnreachable | app/src/main/java/com/example/statusmonitor/checks/MinecraftCheck.java:76-86 | NoConnection exactly when connecting failed for an unknown host or no route |
| HealthCheck.Url | app/src/main/java/com/example/statusmonitor/checks/SimpleHealthCheck.java:112 | the URL starts with "http://" and ends with "/health" |
| HealthCheck.UrlParts | app/src/main/java/com/example/statusmonitor/checks/SimpleHealthCheck.java:112 | between them lie the host, ':' and text that reads back as the port |
| HealthCheck.Description | app/src/main/java/com/example/statusmonitor/checks/SimpleHealthCheck.java:149-152 | "HTTP:" followed by text that reads back as the port |
| HealthCheck.BodyText | app/src/main/java/com/example/statusmonitor/checks/SimpleHealthCheck.java:154-163 | a body exactly when the lines could be read, no longer than the lines together |
| HealthCheck.ReadBody | app/src/main/java/com/example/statusmonitor/checks/SimpleHealthCheck.java:154-163 | the line loop computes `BodyText`: the lines joined with no separator, trimmed |
| HealthCheck.QuotedField | app/src/main/java/com/example/statusmonitor/checks/SimpleHealthCheck.java:165-175 | a value found holds no '"', comes from a text, and the quoted key occurs in it |
| HealthCheck.QuotedFrom | app/src/main/java/com/example/statusmonitor/checks/SimpleHealthCheck.java:170-174 | the text between the first two '"' from a position holds no '"' |
| HealthCheck.FieldAfterKey | app/src/main/java/com/example/statusmonitor/checks/SimpleHealthCheck.java:166-170 | the search for the value starts one character past the first quoted key |
| HealthCheck.FieldAt | app/src/main/java/com/example/statusmonitor/checks/SimpleHealthCheck.java:165-175 | the value is the one quoted after that starting point |
| HealthCheck.QuotedFromAt | app/src/main/java/com/example/statusmonitor/checks/SimpleHealthCheck.java:170-174 | the first '"' from a position and the next one delimit the value |
| HealthCheck.NoOpeningQuote | app/src/main/java/com/example/statusmonitor/checks/SimpleHealthCheck.java:165-171 | with no '"' after the first `"key"` and the character after it, the field is null |
| HealthCheck.NoClosingQuote | app/src/main/java/com/example/statusmonitor/checks/SimpleHealthCheck.java:165-173 | with a single '"' after the first `"key"` and the character after it, the field is null |
| HealthCheck.FieldReadsBack | app/src/main/java/com/example/statusmonitor/checks/SimpleHealthCheck.java:165-175 | a quoted value placed after the first quoted key, one separator character and a gap without '"' reads back |
| HealthCheck.FaultResult | app/src/main/java/com/example/statusmonitor/checks/SimpleHealthCheck.java:130-143 | never Online and no uptime; NoConnection exactly for an unknown host, no route, or another exception whose message says the network is unreachable or the name cannot be resolved; "No DNS", "Timeout", "Connection refused", "No route", "No network" or the exception's class name, each for its own case |
| HealthCheck.ReplyResult | app/src/main/java/com/example/statusmonitor/checks/SimpleHealthCheck.java:118-128 | Online exactly for a 2xx code |
| HealthCheck.Outcome | app/src/main/java/com/example/statusmonitor/checks/SimpleHealthCheck.java:108-147 | Online only for a 2xx reply |
| HealthCheck.Check | app/src/main/java/com/example/statusmonitor/checks/SimpleHealthCheck.java:108-147 | asks the URL `Url` and returns `Outcome` |
| HealthCheck.ErrorCodeMessage | app/src/main/java/com/example/statusmonitor/checks/SimpleHealthCheck.java:126-127 | a code outside 2xx is Offline with "HTTP " and text that reads back as the code |
| HealthCheck.UnreadableBodyIsOk | app/src/main/java/com/example/statusmonitor/checks/SimpleHealthCheck.java:120-125 | a 2xx whose body cannot be read is Online "OK" with no uptime |
| HealthCheck.SuccessfulReply | app/src/main/java/com/example/statusmonitor/checks/SimpleHealthCheck.java:120-125 | a 2xx is Online with the body's name ("OK" if none) and its uptime |
| HealthCheck.SampleName | app/src/main/java/com/example/statusmonitor/checks/SimpleHealthCheck.java:165-175 | the health server's reply yields the name "pve0" |
| HealthCheck.SampleUptime | app/src/main/java/com/example/statusmonitor/checks/SimpleHealthCheck.java:165-175 | the health server's reply yields the uptime "2:15:00" |
| HealthCheck.SampleReply | app/src/main/java/com/example/statusmonitor/checks/SimpleHealthCheck.java:118-125 | a 200 with that reply is Online "pve0" with uptime "2:15:00" |
| HealthCheck.UnavailableReply | app/src/main/java/com/example/statusmonitor/checks/SimpleHealthCheck.java:126-127 | a 503 is Offline "HTTP 503" |
| WebsiteCheck.NewProbe | app/src/main/java/com/example/statusmonitor/checks/WebsiteCheck.java:26-29 | the expected text is stored lower-cased, character by character |
| WebsiteCheck.LiteralTextMatches | app/src/main/java/com/example/statusmonitor/checks/WebsiteCheck.java:48 | a page holding the configured text verbatim matches |
| WebsiteCheck.ExpectedIgnoresCase | app/src/main/java/com/example/statusmonitor/checks/WebsiteCheck.java:28 | the probe does not depend on the case of the configured text |
| WebsiteCheck.Kept | app/src/main/java/com/example/statusmonitor/checks/WebsiteCheck.java:89-92 | the lines kept stop at the first prefix reaching 50 000 characters, and every kept line began below that count |
| WebsiteCheck.BodyText | app/src/main/java/com/example/statusmonitor/checks/WebsiteCheck.java:84-97 | null exactly when the reader throws and every line was kept, the last one possibly bringing the count to 50 000, since the loop asks for one more line before it tests the count; otherwise the kept lines joined |
| WebsiteCheck.ShortBodyReadWhole | app/src/main/java/com/example/statusmonitor/checks/WebsiteCheck.java:89-93 | a page shorter than 50 000 characters is read whole |
| WebsiteCheck.ReadBody | app/src/main/java/com/example/statusmonitor/checks/WebsiteCheck.java:84-97 | the line loop with its character count computes `BodyText` |
| WebsiteCheck.Shorten | app/src/main/java/com/example/statusmonitor/checks/WebsiteCheck.java:110 | at most 30 characters: a longer title becomes its first 27 and "..." |
| WebsiteCheck.ShortenKeepsSpacing | app/src/main/java/com/example/statusmonitor/checks/WebsiteCheck.java:110 | shortening keeps the first character and puts no two spaces side by side |
| WebsiteCheck.Tidy | app/src/main/java/com/example/statusmonitor/checks/WebsiteCheck.java:107-110 | at most 30 characters, empty exactly when the raw title is blank, no leading white space, no double space; `TidyCollapsesTrim` says it is the trimmed, collapsed title, shortened |
| WebsiteCheck.TidyCollapsesTrim | app/src/main/java/com/example/statusmonitor/checks/WebsiteCheck.java:107-110 | the trimmed title with each `\s` run made one space, as it is when it has at most 30 characters, else its first 27 characters and "..." |
| WebsiteCheck.TidyWord | app/src/main/java/com/example/statusmonitor/checks/WebsiteCheck.java:107-110 | a title of at most 30 characters with no white space is kept as it is |
| WebsiteCheck.TidyTwoWords | app/src/main/java/com/example/statusmonitor/checks/WebsiteCheck.java:107-110 | two words, padded with white space and split by a run of `\s`, become the words joined by one space |
| WebsiteCheck.ExtractTitle | app/src/main/java/com/example/statusmonitor/checks/WebsiteCheck.java:99-111 | a title found is at most 30 characters, and the page holds both tags in some case |
| WebsiteCheck.TitleBetween | app/src/main/java/com/example/statusmonitor/checks/WebsiteCheck.java:99-111 | text without '<' between an opening and a closing title tag, each in any case, is the title, tidied |
| WebsiteCheck.TitleOfWord | app/src/main/java/com/example/statusmonitor/checks/WebsiteCheck.java:99-111 | a word of at most 30 characters without white space or '<' between lower-case title tags is the title |
| WebsiteCheck.TitleOfTwoWords | app/src/main/java/com/example/statusmonitor/checks/WebsiteCheck.java:99-111 | two words between upper-case title tags, with white space around and between them, come out joined by one space |
| WebsiteCheck.ExampleTitle | app/src/main/java/com/example/statusmonitor/checks/WebsiteCheck.java:99-111 | "<title>Example</title>" has the title "Example" |
| WebsiteCheck.SpacedTitle | app/src/main/java/com/example/statusmonitor/checks/WebsiteCheck.java:99-111 | "<TITLE> a \n b </TITLE>" has the title "a b" |
| WebsiteCheck.TitleReadsBack | app/src/main/java/com/example/statusmonitor/checks/WebsiteCheck.java:101-107 | the title is the tidied original-case text between the first "<title>" and the next "</title>" |
| WebsiteCheck.NoTitleTag | app/src/main/java/com/example/statusmonitor/checks/WebsiteCheck.java:102-103 | no "<title>" in any case gives no title |
| WebsiteCheck.EmptyTitle | app/src/main/java/com/example/statusmonitor/checks/WebsiteCheck.java:99-106 | "</title>" right after the first "<title>", in any case, gives no title |
| WebsiteCheck.NoClosingTagAfter | app/src/main/java/com/example/statusmonitor/checks/WebsiteCheck.java:99-106 | no "</title>" after the first "<title>", in any case, gives no title, even when one comes before it |
| WebsiteCheck.ReplyResult | app/src/main/java/com/example/statusmonitor/checks/WebsiteCheck.java:44-58 | Online exactly for a 2xx with a readable page holding the expected text, with the page's title, or "OK" when it has none; Offline "Content not found" for any other 2xx; Offline "Redirect " and the code for a 3xx; Offline "HTTP " and the code for any other code; never an uptime |
| WebsiteCheck.ExamplePage | app/src/main/java/com/example/statusmonitor/checks/WebsiteCheck.java:44-58 | a 200 whose page "<title>Example</title>" holds "example" reports Online "Example" |
| WebsiteCheck.PageWithoutContent | app/src/main/java/com/example/statusmonitor/checks/WebsiteCheck.java:44-58 | a 200 whose page does not hold "welcome" reports Offline "Content not found" |
| WebsiteCheck.NotFoundPage | app/src/main/java/com/example/statusmonitor/checks/WebsiteCheck.java:44-58 | a 404 reports Offline "HTTP 404" |
| WebsiteCheck.FaultResult | app/src/main/java/com/example/statusmonitor/checks/WebsiteCheck.java:60-71 | only a timeout on the first attempt retries; NoConnection exactly for an unknown host or no route; "No DNS", "Timeout", "No route", "Connection refused", "SSL error" or the exception's class name, each for its own case |
| WebsiteCheck.AttemptResult | app/src/main/java/com/example/statusmonitor/checks/WebsiteCheck.java:35-74 | an attempt is inconclusive exactly when it timed out and was not the second |
| WebsiteCheck.Outcome | app/src/main/java/com/example/statusmonitor/checks/WebsiteCheck.java:32-77 | always a message and never an uptime |
| WebsiteCheck.Check | app/src/main/java/com/example/statusmonitor/checks/WebsiteCheck.java:32-77 | the retry loop returns `Outcome`, with a second attempt exactly when the first timed out |
| WebsiteCheck.SecondAttemptOnlyAfterTimeout | app/src/main/java/com/example/statusmonitor/checks/WebsiteCheck.java:33-63 | without a first timeout the second attempt does not matter |
| WebsiteCheck.TimeoutTwice | app/src/main/java/com/example/statusmonitor/checks/WebsiteCheck.java:62-76 | two timeouts give Offline "Timeout" |
| WebsiteCheck.OnlineIff | app/src/main/java/com/example/statusmonitor/checks/WebsiteCheck.java:46-53 | Online exactly when the deciding attempt got a 2xx with a readable page holding the expected text |
| WebsiteCheck.RedirectMessage | app/src/main/java/com/example/statusmonitor/checks/WebsiteCheck.java:54-55 | a 3xx is Offline with "Redirect " and text that reads back as the code |
| PingCheck.LineLatency | app/src/main/java/com/example/statusmonitor/checks/PingCheck.java:52-58 | a latency comes only from a line holding "time=" and ends in "ms" |
| PingCheck.LatencyReadsBack | app/src/main/java/com/example/statusmonitor/checks/PingCheck.java:52-58 | the latency is the non-empty text between the first "time=" and the next " ms", then "ms" |
| PingCheck.UnreachableFirstFormSuffices | app/src/main/java/com/example/statusmonitor/checks/PingCheck.java:59 | the second phrase contains the first, so the test is just "Network is unreachable" |
| PingCheck.Step | app/src/main/java/com/example/statusmonitor/checks/PingCheck.java:51-62 | a line with a latency overwrites it, and an unreachable line sets "No network" |
| PingCheck.Scan | app/src/main/java/com/example/statusmonitor/checks/PingCheck.java:51-62 | the error is only ever "No network", and the last line's latency wins |
| PingCheck.ScanLatency | app/src/main/java/com/example/statusmonitor/checks/PingCheck.java:51-58 | the latency is that of the last line reporting one, or none |
| PingCheck.ScanError | app/src/main/java/com/example/statusmonitor/checks/PingCheck.java:59-61 | "No network" exactly when some line says the network is unreachable |
| PingCheck.Verdict | app/src/main/java/com/example/statusmonitor/checks/PingCheck.java:64-72 | Online with the latency as its message exactly for exit code 0 with a latency; otherwise NoConnection with the error found; inconclusive exactly when neither holds |
| PingCheck.RunResult | app/src/main/java/com/example/statusmonitor/checks/PingCheck.java:40-76 | a fault gives NoConnection with its message; otherwise the verdict on the scanned output |
| PingCheck.OnlineIff | app/src/main/java/com/example/statusmonitor/checks/PingCheck.java:64-68 | a run is Online exactly when it exited with 0 and some line reported a latency |
| PingCheck.RunPing | app/src/main/java/com/example/statusmonitor/checks/PingCheck.java:40-76 | the line loop computes `RunResult` |
| PingCheck.Runs | app/src/main/java/com/example/statusmonitor/checks/PingCheck.java:23-36 | no more runs than attempts left |
| PingCheck.Outcome | app/src/main/java/com/example/statusmonitor/checks/PingCheck.java:22-38 | never an uptime |
| PingCheck.Check | app/src/main/java/com/example/statusmonitor/checks/PingCheck.java:22-38 | the retry loop returns `Outcome` after `Runs` runs, at least one |
| PingCheck.FirstConclusiveDecides | app/src/main/java/com/example/statusmonitor/checks/PingCheck.java:32-35 | a conclusive first run decides, and no further run happens |
| PingCheck.AllInconclusive | app/src/main/java/com/example/statusmonitor/checks/PingCheck.java:37 | three inconclusive runs give Offline "No response" |
| PingCheck.InterruptStops | app/src/main/java/com/example/statusmonitor/checks/PingCheck.java:24-30 | an interrupted pause gives NoConnection with the interrupt's message, and nothing more runs |
| Entity.Initial | app/src/main/java/com/example/statusmonitor/MonitorEntity.java:25-36 | a new entity is Offline, "Checking...", no uptime, no check yet, no previous status |
| Entity.WithStatus | app/src/main/java/com/example/statusmonitor/MonitorEntity.java:49-52 | the status becomes `s` and the old one the previous status; nothing else changes |
| Entity.PreviousAfterCalls | app/src/main/java/com/example/statusmonitor/MonitorEntity.java:49-52 | after n >= 1 calls the previous status is argument n-1, or the status held before the first call |
| Entity.FirstCallLeavesOffline | app/src/main/java/com/example/statusmonitor/MonitorEntity.java:30-52 | on a new entity the first `setStatus` leaves Offline as the previous status |
| Entity.NewEntityDoesNotNotify | app/src/main/java/com/example/statusmonitor/MonitorEntity.java:59-62 | a new entity never asks for a notification |
| Entity.NotifyAfterSetStatus | app/src/main/java/com/example/statusmonitor/MonitorEntity.java:59-62 | right after `setStatus(s)` a notification is due exactly when notifications are on, `s` is a change and not Online |
| Entity.MonitorEntity.constructor | app/src/main/java/com/example/statusmonitor/MonitorEntity.java:25-36 | the builder's settings and the defaults above |
| Entity.MonitorEntity.SetStatus | app/src/main/java/com/example/statusmonitor/MonitorEntity.java:49-52 | the fields become `WithStatus` of the old ones |
| Entity.MonitorEntity.SetMessage | app/src/main/java/com/example/statusmonitor/MonitorEntity.java:54 | only the message changes |
| Entity.MonitorEntity.SetUptime | app/src/main/java/com/example/statusmonitor/MonitorEntity.java:55 | only the uptime changes |
| Entity.MonitorEntity.SetNotificationsEnabled | app/src/main/java/com/example/statusmonitor/MonitorEntity.java:56 | only the notification switch changes |
| Entity.MonitorEntity.SetLastCheckTime | app/src/main/java/com/example/statusmonitor/MonitorEntity.java:57 | only the check time changes |
| Entity.MonitorEntity.ShouldNotify | app/src/main/java/com/example/statusmonitor/MonitorEntity.java:59-62 | notifications on, a previous status, a change, and now Offline or NoConnection |
| Entity.Builder.constructor | app/src/main/java/com/example/statusmonitor/MonitorEntity.java:71-74 | notifications default to on; no address, no strategy |
| Entity.Builder.Address | app/src/main/java/com/example/statusmonitor/MonitorEntity.java:76 | sets the address and returns the same builder |
| Entity.Builder.NotificationsEnabled | app/src/main/java/com/example/statusmonitor/MonitorEntity.java:77 | sets the switch and returns the same builder |
| Entity.Builder.CheckStrategy | app/src/main/java/com/example/statusmonitor/MonitorEntity.java:78 | sets the strategy and returns the same builder |
| Entity.Builder.Build | app/src/main/java/com/example/statusmonitor/MonitorEntity.java:80-85 | IllegalStateException without a strategy; otherwise a new entity with the builder's settings and the defaults |
| StatusChecker.Choose | app/src/main/java/com/example/statusmonitor/StatusChecker.java:33-40 | no network: NoConnection "No network"; a probe that returned: its result; a probe that threw: NoConnection "Check failed" |
| StatusChecker.OnlineOnlyFromProbe | app/src/main/java/com/example/statusmonitor/StatusChecker.java:33-40 | Online or Offline only when the network was up and the probe itself returned that status |
| StatusChecker.CheckStatus | app/src/main/java/com/example/statusmonitor/StatusChecker.java:28-55 | the probe runs exactly when there is an active network with Internet capability; the callback gets the same entity and the chosen result |
| Service.Completed | app/src/main/java/com/example/statusmonitor/MonitorService.java:112-116 | status, message and uptime from the result, the previous status from `setStatus`, the check time, the switch unchanged |
| Service.AlertIgnoresPrevious | app/src/main/java/com/example/statusmonitor/MonitorService.java:122-124 | the alert fires also for an entity already Offline, and never for NoConnection |
| Service.MonitorService.constructor | app/src/main/java/com/example/statusmonitor/MonitorService.java:46-53 | the configured entities, not running, nothing issued |
| Service.MonitorService.SetStatusUpdateListener | app/src/main/java/com/example/statusmonitor/MonitorService.java:81-83 | only the listener changes |
| Service.MonitorService.PerformChecks | app/src/main/java/com/example/statusmonitor/MonitorService.java:110-129 | one check per entity in list order, then exactly one posted re-run |
| Service.MonitorService.CheckNow | app/src/main/java/com/example/statusmonitor/MonitorService.java:89-91 | the same checks and one more posted re-run, running or not |
| Service.MonitorService.StartMonitoring | app/src/main/java/com/example/statusmonitor/MonitorService.java:93-97 | nothing changes when already running; otherwise running and one round of checks |
| Service.MonitorService.StopMonitoring | app/src/main/java/com/example/statusmonitor/MonitorService.java:99-102 | not running, and no posted re-run left |
| Service.MonitorService.CheckRunnable | app/src/main/java/com/example/statusmonitor/MonitorService.java:104-108 | a re-run checks again only while running |
| Service.MonitorService.OnStatusChecked | app/src/main/java/com/example/statusmonitor/MonitorService.java:112-125 | the entity becomes `Completed`; the listener is called once if there is one; an alert is raised when notifications are on and the result is Offline |
| Service.MonitorService.CompleteCheck | app/src/main/java/com/example/statusmonitor/MonitorService.java:110-125 | the entity takes, at `now`, the dispatched result: the probe's result, NoConnection "Check failed" when the probe threw, or NoConnection "No network" without an active network; the entity joins `updates` when a listener is set, and `alerts` when notifications are on and the chosen result is Offline, whatever the previous status; the other fields stay as they were |
| Adapter.FormatElapsed | app/src/main/java/com/example/statusmonitor/StatusAdapter.java:199-205 | the text ends in " ago" |
| Adapter.ElapsedReadsBack | app/src/main/java/com/example/statusmonitor/StatusAdapter.java:199-205 | for a non-negative elapsed time, the unit is s below a minute, h from an hour on, and the count read back is the number of whole units elapsed |
| Adapter.NegativeElapsed | app/src/main/java/com/example/statusmonitor/StatusAdapter.java:199-205 | for a negative elapsed time, after the clock moved back, the unit is s and the count read back is the time in whole seconds rounded toward zero, as Java's `/` rounds |
| Adapter.LastCheckText | app/src/main/java/com/example/statusmonitor/StatusAdapter.java:177-184 | "Checking..." exactly while the entity has no check time; otherwise the elapsed time since that check |
| Adapter.DisplayMessage | app/src/main/java/com/example/statusmonitor/StatusAdapter.java:145-150 | with a non-empty uptime: the message (or "null"), " \nuptime: " and the uptime; otherwise the message as it is |
| Adapter.BadgeText | app/src/main/java/com/example/statusmonitor/StatusAdapter.java:153-167 | "ONLINE" exactly for Online, "OFFLINE" exactly for Offline, "NO CONNECTION" exactly for NoConnection |
| Adapter.BadgeTextDistinct | app/src/main/java/com/example/statusmonitor/StatusAdapter.java:153-167 | different statuses get different badges |

## Left out

- Sockets, HTTP connections, the `ping` process, `Thread.sleep` and connectivity queries are inputs to the model, as described above. Timeouts are faults of the exchange, not elapsed time.
- UTF-8 encoding and decoding (`getBytes("UTF-8")`, `new String(bytes, "UTF-8")`) are not modelled. A host name is given as its bytes, and a JSON text has one character per byte.
- `Strings.ToLower`, `Strings.IsJavaWhitespace` and `Strings.IsRegexSpace` cover ASCII only. Unicode case mapping and Unicode white space are not modelled.
- Lengths and positions count characters (Unicode scalar values), not Java's UTF-16 code units. This applies to `length()`, `indexOf` positions, `substring(0, 27)`, the 30-character title limit in `WebsiteCheck.Shorten` and the 50 000-character cap in `WebsiteCheck.Kept`. For text outside the Basic Multilingual Plane, such as an emoji in a title, the model counts and cuts at other places than Java does, and it never splits a surrogate pair as Java can.
- `conn.disconnect()`, closing readers and sockets, and `Thread.currentThread().interrupt()` have no effect the probes can observe, so they are not modelled.
- Faults raised while writing to the socket are not modelled. The handshake and the request are always written once connecting succeeds.
- MinecraftCheck.Check: requires a host of at most 0x7FFF_FFF0 bytes. The source puts no such limit, but a longer host cannot fit in a Java byte array.
- The executor, `mainHandler.post`, the re-run timers and the adapter's timer are not modelled. A check runs to completion in `Service.MonitorService.CompleteCheck`, and posted re-runs are counted by `pending`.
- The foreground notification, the notification channel and the binder are not modelled, nor the UI: views, colours, preferences and the adapter's `bind`. `NotificationHelper.java`, `MainActivity.java` and `MonitorConfig.java` are not part of this model; the service takes its entities as a parameter.
- `getDescription` of `WebsiteCheck` and `PingCheck` are the constants `WebsiteCheck.Description` and `PingCheck.Description`.
- WebsiteCheck.ReadBody: counts characters with an unbounded integer. It does not model the `int` overflow of `chars` after a single line of more than 2^31 - 50 000 characters.
- Adapter.LastCheckText: computes `now - lastCheckTime` on unbounded integers. It does not model `long` overflow.
- `e.getClass().getSimpleName()` and `e.getMessage()` come from the fault itself.
- WebsiteCheck.TitleBetween: covers titles without '<', so that no closing tag can start inside the title; a title holding another tag is covered only by `ExtractTitle`'s own contract.
- MinecraftCheck.VanillaMessage: covers status texts laid out as `VanillaStatus` writes them, with a release number made of digits and dots and counts made of digits; other layouts are covered by `ResponseResult` and the field-reading lemmas.
