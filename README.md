# private-chat page script, modelled in Dafny

The page script of the private chat (`web/assets/script.js`) has three
parts with real logic in them:

- **Commands.** `Message` classifies its content with the regular expression
  `^\/(\w+)\s*(.*)$`, and `handleCommand` dispatches the captured command
  name over a fixed table.
- **The chat.** `Chat` keeps the display name (`#user`), two JsStore tables
  (`option` and `message`) and the conversation view. It updates all of them
  when the user submits a message, runs `/username`, or reloads the page.
- **Public-key export.** `Security.exportCryptoKey` turns the SPKI bytes of a
  key into a PEM text, using `btoa`.

The model keeps the script's shape. `Message` and `Chat` are Dafny classes
whose methods update their fields, and the JsStore connection is a class
holding the two tables as a `map` and a `seq`. The methods are proved against
pure specification functions in `ChatSpec`, and the properties the page
relies on are proved about those functions as lemmas. The parser, the time
formatter, the uuid transform and the base64/PEM text are pure functions with
lemmas.

Modules, one per file:

| module | file | content |
|---|---|---|
| `Wrappers` | wrappers.dfy | `Option` |
| `Command` | command.dfy | the regex as `Parse`, its reference semantics `Matches`, the dispatch table `ReplyFor` |
| `Uuid` | uuid.dfy | `replace(/-/g, "")`, `padStart(32, '0')`, canonical UUIDs (section 4 of RFC 9562) |
| `Clock` | clock.dfy | instants, `String(n)`, `("0" + n).slice(-2)`, `HH:MM` |
| `Base64` | base64.dfy | section 4 of RFC 4648: encoder, strict decoder, `String.fromCharCode`, `btoa` |
| `Security` | security.dfy | the PEM text of `exportCryptoKey` |
| `Storage` | storage.dfy | the `option` and `message` tables, the insert/upsert/select calls the script makes |
| `ChatSpec` | chat_spec.dfy | the chat state as a value and what each `Chat` operation makes of it |
| `Messenger` | messenger.dfy | the classes `Message` and `Chat` |

The clock and the random generator are inputs. A `ChatSpec.Seed` holds what
`crypto.randomUUID()` and `new Date()` return while one new message is built
(a UUID string, and an `Instant` with its time value, `getHours()` and
`getMinutes()`). `handleMessage` receives two seeds, one for the user's
message and one for the reply.

For `auth`, `chat` and `empty`, `handleCommand` falls out of its `switch`
and returns `undefined` (lines 216-221). `handleMessage` then evaluates
`new Message(undefined, true)`, whose constructor calls `content.match` on
`undefined` and throws a `TypeError` (lines 63 and 202). The comments on
those cases name what they are meant to do (create a signing key, set the
receiver, clear the message table), but none of it is implemented. The
model has the outcome `TypeErrorThrown` for them, with the user's message
already shown and saved, and no reply shown or saved.

## Model

| member | source | states |
|---|---|---|
| Command.Parse | web/assets/script.js:202 | the match of the pattern: `Plain` or the two capture groups; what it means is stated by ParseMatches, ParseSound and ParseGreedy |
| Command.WordEnd | web/assets/script.js:202 | `\w+` consumes a maximal run of word characters: every character before the end is a word character, the one at the end is not |
| Command.SpaceEnd | web/assets/script.js:202 | `\s*` consumes a maximal run of JavaScript whitespace, line terminators included |
| Command.ParseSound | web/assets/script.js:202 | an instruction splits the content as `/` + command + whitespace + arguments, and that split matches the pattern |
| Command.ParseGreedy | web/assets/script.js:202 | every split the pattern admits makes the content an instruction, and the one reported has the longest command and then the longest whitespace run, as greedy backtracking finds first |
| Command.ParseMatches | web/assets/script.js:202 | the content is classified as an instruction exactly when the pattern matches it by some split |
| Command.ParseComposed | web/assets/script.js:202 | a slash, a word run, a maximal whitespace run and a one-line rest parse back into that command and those arguments |
| Command.ExampleUsername | web/assets/script.js:202 | `/username Alice` gives command `username` and arguments `Alice` |
| Command.ExampleHyphen | web/assets/script.js:202 | `/foo-bar` gives command `foo` and arguments `-bar` |
| Command.ExampleSlashAlone | web/assets/script.js:202 | `/` alone is not an instruction |
| Command.ExampleSecondLine | web/assets/script.js:202 | a line break in the arguments makes the content plain, since `.` does not match it and `$` is end of input |
| Command.ExampleBlankLines | web/assets/script.js:202 | line breaks inside the whitespace run are consumed by `\s*` |
| Command.ReplyFor | web/assets/script.js:209-225 | what `handleCommand` returns for a command and its arguments; stated case by case by ReplyForCases and RepliesArePlain |
| Command.LookupUsername | web/assets/script.js:213-214 | only the exact name `username` selects the `configUser` case |
| Command.ReplyForCases | web/assets/script.js:209-225 | `auth`, `chat` and `empty` give no reply; every name outside the four gives "Instrucción no reconocida."; `username` gives `configUser`'s reply, "Nombre no insertado." for empty arguments |
| Command.RepliesArePlain | web/assets/script.js:23-33 | every reply text is non-empty and is not itself an instruction |
| Uuid.StripHyphensSpec | web/assets/script.js:196 | `replace(/-/g, "")` leaves no hyphen and never lengthens; text without hyphens is unchanged |
| Uuid.RepeatSpec | web/assets/script.js:196 | the fill of `padStart` is `n` copies of the fill character |
| Uuid.PadStartSpec | web/assets/script.js:196 | `padStart` pads on the left to the target length with the fill and keeps the text as its suffix; a text already that long is unchanged |
| Uuid.StripHyphensAppend | web/assets/script.js:196 | removing hyphens distributes over concatenation |
| Uuid.StripCanonical | web/assets/script.js:196 | removing the hyphens of a canonical UUID leaves its five digit groups in order |
| Uuid.MessageId | web/assets/script.js:196 | the uuid of a message built with `isNew`; its format, round trip and injectivity are MessageIdFormat, MessageIdRoundTrip and MessageIdInjective |
| Uuid.MessageIdFormat | web/assets/script.js:196 | the identifier of a new message is 32 lower-case hexadecimal digits, and `padStart` adds nothing to it |
| Uuid.MessageIdRoundTrip | web/assets/script.js:196 | the UUID is recovered from the identifier by putting the hyphens back |
| Uuid.MessageIdInjective | web/assets/script.js:196 | distinct UUIDs give distinct identifiers |
| Clock.DecimalSpec | web/assets/script.js:271-272 | `String(n)` gives digits that denote `n`, with no leading zero unless `n` is 0 |
| Clock.PairValue | web/assets/script.js:274 | two digit characters denote ten times the first plus the second |
| Clock.LastTwoDigits | web/assets/script.js:271-274 | `("0" + n).slice(-2)` is two digits denoting `n` modulo 100 |
| Clock.FormatTime | web/assets/script.js:270-275 | the `HH:MM` text of `getFormattedDate`; its shape and read-back are FormatTimeSpec and FormatTimeInjective |
| Clock.FormatTimeSpec | web/assets/script.js:270-275 | for hours 0-23 and minutes 0-59 the text is `DD:DD`, and its two fields read back as the hour and the minute |
| Clock.FormatTimeInjective | web/assets/script.js:270-275 | different hour and minute readings give different texts |
| Base64.Encode | web/assets/script.js:351 | the base64 text of `n` bytes has 4·⌈n/3⌉ characters |
| Base64.EncodeAlphabet | web/assets/script.js:351 | the text uses only the 64 letters of the standard alphabet and `=`, and `=` stands exactly in the last (3 − n mod 3) mod 3 places |
| Base64.LetterInverse | web/assets/script.js:351 | every 6-bit value has a letter of the alphabet that reads back as that value |
| Base64.SextetInverse | web/assets/script.js:351 | every letter of the alphabet is the letter of the value it reads as |
| Base64.DecodeEncode | web/assets/script.js:351 | decoding the base64 text gives back the bytes |
| Base64.EncodeDecode | web/assets/script.js:351 | any text the strict decoder accepts is the encoding of what it yields |
| Base64.QuadEncodes | web/assets/script.js:351 | a four-character group the decoder accepts is the encoding of its one to three bytes, and only the last group can be short |
| Base64.DecodeIff | web/assets/script.js:351 | decoding a text gives `b` exactly when `b` encodes to that text |
| Base64.FromCharCodes | web/assets/script.js:350 | `String.fromCharCode(...bytes)` gives one character per byte, with the byte as its code |
| Base64.BtoaOfBytes | web/assets/script.js:350-351 | `btoa` of those characters succeeds and is the base64 encoding of the bytes |
| Security.ExportCryptoKey | web/assets/script.js:348-355 | the PEM text is the begin marker and a line break, the base64 of the SPKI bytes, then a line break and the end marker |
| Security.ExportLines | web/assets/script.js:352 | the PEM text has the marker lengths plus 4·⌈n/3⌉ characters, and its only line breaks are the one after the begin marker and the one before the end marker, so the base64 is not wrapped |
| Security.UnwrapExport | web/assets/script.js:348-355 | the PEM text determines the key bytes: it unwraps to them, and no other text unwraps to them |
| Storage.Inserted | web/assets/script.js:243-247 | an insert without upsert keeps the old rows in place; it adds the row at the end exactly when its uuid is new; afterwards the uuid is present and the key constraint still holds |
| Storage.InsertPermutes | web/assets/script.js:167-174 | putting a row into the ordered result adds exactly that row |
| Storage.InsertDescending | web/assets/script.js:169-172 | putting a row into a newest-first result keeps it newest first |
| Storage.NewestPermutes | web/assets/script.js:167-174 | the ordered table holds every stored row as often as it is stored |
| Storage.NewestDescending | web/assets/script.js:169-172 | the ordered table is newest first by `instant` |
| Storage.Recent | web/assets/script.js:167-174 | the descending, limited `select` on `message`; its length, contents, order and top-N property are RecentLength, RecentFromTable, RecentDescending and RecentIsNewest |
| Storage.RecentLength | web/assets/script.js:173 | the query returns `limit` rows, or all rows when fewer are stored |
| Storage.RecentFromTable | web/assets/script.js:167-174 | every row returned is a stored row, each at most as often as it is stored |
| Storage.RecentDescending | web/assets/script.js:169-172 | the rows come newest first |
| Storage.RecentIsNewest | web/assets/script.js:167-174 | no stored row newer than the oldest row returned is left out, and with fewer rows than the limit every row is returned |
| Storage.LoadLatestSaved | web/assets/script.js:167-174 | a row saved later than every stored row is what a query for the newest row returns |
| Storage.Connection.UpsertOption | web/assets/script.js:41-46 | an upsert into `option` sets the entry for the row's key, and nothing else changes |
| Storage.Connection.InsertMessage | web/assets/script.js:243-247 | an insert into `message` gives the table `Inserted` and reports whether the row was added |
| Storage.Connection.SelectOptions | web/assets/script.js:155-157 | selecting the `option` table lists every entry exactly once, in some order |
| Storage.Connection.SelectRecentMessages | web/assets/script.js:167-174 | the `#populate` query returns `Recent(messages, limit)` |
| ChatSpec.Configured | web/assets/script.js:23-33 | the session after `configUser`; stated by ConfiguredEmpty, ConfiguredIdempotent, ConfiguredFrame and ConfiguredIsRestored |
| ChatSpec.ConfiguredEmpty | web/assets/script.js:24-26 | `configUser` with an empty name changes nothing |
| ChatSpec.ConfiguredIdempotent | web/assets/script.js:23-47 | setting the same name twice leaves the state of setting it once |
| ChatSpec.ConfiguredFrame | web/assets/script.js:23-47 | `configUser` touches neither the message table, nor the view, nor any option key but `user` |
| ChatSpec.RestoredUser | web/assets/script.js:158-162 | `#user` after walking the option rows; stated by RestoredUserDistinct and RestoredUserFromTable |
| ChatSpec.RestoredUserDistinct | web/assets/script.js:158-162 | over rows with distinct keys, the walk ends with the `user` row's option, or the old name when there is none |
| ChatSpec.RestoredUserFromTable | web/assets/script.js:154-164 | in whatever order the store lists the `option` table, `#user` ends as its `user` entry, or unchanged without one |
| ChatSpec.ConfiguredIsRestored | web/assets/script.js:154-164 | a name set by `configUser` is the one the next start-up restores |
| ChatSpec.Stacked | web/assets/script.js:175-179 | the bubbles `#populate` prepends; stated by StackedLength, StackedPrefix, StackedAt and PopulatedOldestFirst |
| ChatSpec.Restored | web/assets/script.js:141-148 | the session after start-up: the stored name, then the newest rows on top; `Chat.InitDatabase` is proved to compute it |
| ChatSpec.StackedLength | web/assets/script.js:175-179 | `#populate` draws one bubble per row |
| ChatSpec.StackedPrefix | web/assets/script.js:175-179 | each further row puts its bubble above the bubbles of the rows before it |
| ChatSpec.StackedAt | web/assets/script.js:175-179 | the bubble at position `k` from the top comes from the `k`-th row counted from the end |
| ChatSpec.PopulatedOldestFirst | web/assets/script.js:166-181 | `#populate` shows at most six rows, and the top-to-bottom bubbles come from the rows oldest first |
| ChatSpec.Submit | web/assets/script.js:49-68 | the session and outcome after `handleMessage`; stated by the Submit lemmas below |
| ChatSpec.SubmitRejectsEmpty | web/assets/script.js:50-54 | empty text: nothing saved, shown or set |
| ChatSpec.SubmitOutcome | web/assets/script.js:49-68 | which outcome a text has: posted exactly when it is plain; a reply exactly when it is an instruction with a reply, and then that reply; a `TypeError` exactly for `auth`, `chat` and `empty` |
| ChatSpec.SubmitMessages | web/assets/script.js:56-67 | after `handleMessage` the message table is the user's row inserted, followed by the reply's row inserted when there is a reply |
| ChatSpec.InsertedTwice | web/assets/script.js:60-66 | two inserts keep the old rows in place and add at most those two rows, the first of which is then present |
| ChatSpec.HasUuidGrows | web/assets/script.js:243-247 | a uuid present in a table is present in any table that extends it |
| ChatSpec.SubmitAppendsOnly | web/assets/script.js:49-68 | the message table only grows by the user's row and, for a reply, the reply's row, which is not the user's own; the user's row is always there afterwards |
| ChatSpec.SubmitSavesInOrder | web/assets/script.js:56-67 | with unused distinct identifiers, exactly the user's row is added, then the reply's row when there is one |
| ChatSpec.SubmitShows | web/assets/script.js:56-65 | the view gains the user's bubble, then the reply's bubble when there is one |
| ChatSpec.SubmitSetsName | web/assets/script.js:23-33 | only `/username` with a non-empty name changes the display name and the `option` table |
| ChatSpec.SubmitKeepsTableValid | web/assets/script.js:49-68 | the uuid key constraint, and every row having content and a 32-digit uuid, survive `handleMessage` |
| ChatSpec.SubmitUsernameAlice | web/assets/script.js:209-215 | `/username Alice` answers "Nombre cambiado." and stores the name |
| ChatSpec.SubmitUsernameEmpty | web/assets/script.js:209-215 | `/username ` answers "Nombre no insertado." and changes no name |
| ChatSpec.SubmitUnknownCommand | web/assets/script.js:222-223 | `/bogus` answers "Instrucción no reconocida." |
| Messenger.Message.constructor | web/assets/script.js:192-203 | a message built with `isNew` has the clock's instant, `sent` false and the transformed uuid; without it those fields are unset; it is always its own, and the match is done on its content |
| Messenger.Message.IsInstruction | web/assets/script.js:205-207 | true exactly when the pattern matches the content |
| Messenger.Message.HasContent | web/assets/script.js:258-260 | true exactly for non-empty content, and an empty message is never an instruction |
| Messenger.Message.HandleCommand | web/assets/script.js:209-225 | the reply is `ReplyFor` of the captured groups, and only `username` changes the chat, as `configUser` does |
| Messenger.Message.Save | web/assets/script.js:234-248 | the row `{uuid, sent, own, content, instant}` is inserted without upsert, and the `option` table is untouched |
| Messenger.Message.Assign | web/assets/script.js:227-232 | takes `own`, `uuid`, `instant` and `sent` from the row and keeps the content and the match; with the row's content it then saves that same row |
| Messenger.Message.SetOwn | web/assets/script.js:250-252 | sets `own`, returns the value assigned, and changes no other field |
| Messenger.Message.FormattedDate | web/assets/script.js:270-275 | the text is `DD:DD`, and its fields read back as the hour and the minute of the message's instant |
| Messenger.Chat.ConfigUser | web/assets/script.js:23-33 | returns "Nombre no insertado." for an empty name and otherwise "Nombre cambiado.", and the new state is `Configured` |
| Messenger.Chat.SaveUser | web/assets/script.js:35-47 | upserts the `user` row with the current name, and the message table is untouched |
| Messenger.Chat.AppendMessage | web/assets/script.js:70-111 | the bubble carries the current name, the `getFormattedDate()` text, the content and `own`, and goes below the others when `down`, above them otherwise |
| Messenger.Chat.HandleMessage | web/assets/script.js:49-68 | the new state and the outcome are `Submit` of the old state, and the key constraint is kept |
| Messenger.Chat.PopulateOptions | web/assets/script.js:154-164 | after walking the `option` table, `#user` is its `user` entry when there is one and unchanged otherwise |
| Messenger.Chat.Populate | web/assets/script.js:166-181 | the view gains, on top, the bubbles of the six newest rows stacked by prepending each in turn |
| Messenger.Chat.InitDatabase | web/assets/script.js:141-148 | start-up restores the name and then puts the newest rows on top of the view |

## Left out

- DOM rendering. `#appendMessage` is reduced to appending or prepending a `Bubble` to a sequence: the name, the time text, the content and `own`. Element construction, CSS classes, the `⌛` indicator, `scrollTop`, `showNotice`, `window.location`, `form.reset` and `alert` are not modelled.
- JsStore itself. `initDb` and the table schemas are not modelled (the `uuid` primary key is kept as the `UniqueUuids` invariant). Promises are not modelled either: every call completes synchronously and in program order. So the race at lines 146-147 between the two `select` calls is not captured. The model runs `#populateOptions` first, so the bubbles drawn by `#populate` carry the restored name.
- Storage.Connection.InsertMessage: a duplicate uuid leaves the table unchanged. The rejected promise, which the script never handles, is not modelled.
- Storage.Recent: JsStore does not document the order of rows with equal `instant`. The model keeps them in the order they were stored.
- Storage.Connection.SelectOptions: the listing order of the `option` table is left open (the loop picks any remaining key). Every property is proved for all orders.
- WebCrypto. `generateKeyPair`, `signMessage`, `verifySignature` and `exportKey("spki")` are foreign primitives and are not modelled (`exportPublicKey` only forwards to `exportCryptoKey`). The model starts from the SPKI bytes.
- The randomness and the clock. `crypto.randomUUID()`, `new Date()`, `getHours()` and `getMinutes()` are inputs (`ChatSpec.Seed`), with hours in 0-23 and minutes in 0-59. Time zones are not modelled.
- `testSign` (lines 362-374) logs to the console and refers to an undefined global. It is not modelled, and neither is the `console.error` in the `catch` blocks.
- Strings are sequences of Dafny characters, not UTF-16 code units. This matters only for the `\s` and line-terminator sets, which lie in the Basic Multilingual Plane.
- Messenger.Message.Save requires the uuid, `sent` and the instant to be set. The script would write `undefined` columns for a message built without `isNew` and never assigned, and it never saves such a message.
- Messenger.Chat.HandleMessage requires the uuid key constraint of the `message` table (`Chat.Valid`). JsStore enforces that constraint on every stored table.
- Messenger.Chat.AppendMessage requires the message's instant to be set. `getFormattedDate` would throw on an unset date, and the script never draws such a message.
