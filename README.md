# recognition_bot in Dafny

A model of the Rust chat bot `recognition_bot`. The bot transcribes voice messages and video notes sent to it. It does four things, one per module:

- **`Bot`**: routes each incoming update by the shape of its message. A message with text and entities is a command. Otherwise voice is handled as voice. Otherwise a video note is handled as a video note. Anything else is ignored. A media message is then transcribed: the bot sends a typing action, looks up the file, downloads it, converts it and recognizes it. The transcript, or a fixed apology if any step failed, is sent as a reply to the original message.
- **`MediaConverter`**: writes the payload to a temporary file. The suffix is `.oga` for Ogg and `mp4` (no dot) for MP4. It then runs `avconv` with a fixed argument vector that produces mono 16 kHz PCM WAV on standard output, and turns avconv's exit status into audio or an error.
- **`Recognizer`**: POSTs the audio to the recognition service at `<uri>?lang=ru-RU`. It checks that the body is valid UTF-8 before it looks at the status: a 2xx status gives the text, any other status an error carrying the status and the text.
- **`Storage`**: a per-chat language preference store. It is a map from `i64` chat ids to strings, kept in a class with `Put` and `Get`. It is saved as one `"<id> <lang>\n"` line per entry (`DbToString`) and loaded back by `DbFromString`, which skips empty lines and splits each line at its first space. `New` models the open/read branch of start-up: a missing file means an empty store. `storage.rs` is not declared as a module in `main.rs`, so the current binary does not compile it. It is modelled anyway.

Two supporting modules:

- **`Utf8`**: UTF-8 decoding as `str::from_utf8` and `read_to_string` perform it (Table 3-7 of the Unicode Standard, section 3.9), and encoding as `String::as_bytes` performs it. Both round trips are proved.
- **`Decimal`**: `i64` `Display` and `i64::from_str`, with the round trip `ParseI64(FormatI64(x)) == Some(x)`.

External effects are inputs. The chat client, the operating system (temporary files, avconv) and the HTTP client are records of total functions from a request to its answer. Each handler returns its result together with the trace of calls it made, in order. Properties such as "exactly one reply", "avconv never runs when the write failed" and "the temporary file is removed exactly once, last" are stated on that trace.

The order in which `HashMap` iterates is unspecified. `DbToString` picks keys nondeterministically and records the order in a ghost out-parameter. Every property of the file format is proved for every such order.

The two `unwrap`s of `db_from_string` panic in the source: one on a line without a space, one on an id that is not a valid `i64`. The model reports them as the error values `MissingSeparator` and `InvalidChatId`. A file that is not UTF-8 makes `read_to_string` fail with an `InvalidData` I/O error, which `Storage::new` returns (`IoFailed(InvalidData)`).

## Model

| member | source | states |
|---|---|---|
| Decimal.NatToDecimal | recognition_bot/src/storage.rs:108 | the decimal text of a natural number is non-empty, all digits, and has no leading zero unless the number is 0 |
| Decimal.NatToDecimalValue | recognition_bot/src/storage.rs:108 | the decimal text of a natural number (non-empty, all digits) denotes that number |
| Decimal.FormatI64Characters | recognition_bot/src/storage.rs:108 | the text of an id is non-empty and holds only digits and a leading '-' for negative ids, so no space or newline |
| Decimal.ParseFormatI64 | recognition_bot/src/storage.rs:108-117 | `i64::from_str` of the `Display` text of any `i64`, extremes and negatives included, gives the same value |
| Utf8.DecodeEncode | recognition_bot/src/storage.rs:48 | decoding the UTF-8 encoding of a text gives the text back |
| Utf8.EncodeDecode | recognition_bot/src/media_converter.rs:41 | bytes that decode are exactly the encoding of the text they decode to |
| Utf8.DecodeIffEncode | recognition_bot/src/recognizer.rs:38 | bytes decode to text `s` if and only if they are the encoding of `s` |
| Storage.IndexOf | recognition_bot/src/storage.rs:116 | the result is the first position holding the character, or the length when there is none |
| Storage.Split | recognition_bot/src/storage.rs:115 | splitting at '\n' gives at least one part, and no part contains '\n' |
| Storage.JoinSplit | recognition_bot/src/storage.rs:115 | the parts joined with '\n' give back the text |
| Storage.DbToString | recognition_bot/src/storage.rs:105-111 | the text is one entry line per key, in an order that lists each key exactly once |
| Storage.SerializeLineCount | recognition_bot/src/storage.rs:105-111 | the text splits into exactly one line per entry, each `"<id> <lang>"`, plus a final empty part |
| Storage.SplitSerialize | recognition_bot/src/storage.rs:105-115 | the parser's split of the written text is the entry lines followed by one empty part |
| Storage.ParseLineMeaning | recognition_bot/src/storage.rs:116-117 | no space means a missing-separator error; a line whose text before the first space is a valid `i64` is accepted, with that id and everything after the space as the language; a line that parses is a space-free id text, one space and the language; a bad id text is an invalid-id error |
| Storage.PlusSignAccepted | recognition_bot/src/storage.rs:116-117 | the line "+5 ru", which `db_to_string` never writes, loads as id 5 with language "ru" |
| Storage.LeadingZerosAccepted | recognition_bot/src/storage.rs:116-117 | the line "007 en US" loads as id 7 with language "en US" |
| Storage.NonDigitIdRejected | recognition_bot/src/storage.rs:116-117 | the line "5x ru" fails with the invalid id "5x" |
| Storage.DbFromString | recognition_bot/src/storage.rs:113-120 | the loop computes the specification `ParseDb` of the text |
| Storage.ParseEntryLine | recognition_bot/src/storage.rs:108-117 | a written line parses back to its id and language, even when the language contains spaces |
| Storage.RoundTrip | recognition_bot/src/storage.rs:105-120 | parsing what `db_to_string` wrote gives the same map, for every iteration order, when no language contains '\n' |
| Storage.NewlineInLanguageBreaksRoundTrip | recognition_bot/src/storage.rs:108-117 | the language "ru\nRU" is written so that loading fails on the line "RU" |
| Storage.ParseDbConcat | recognition_bot/src/storage.rs:115-118 | two texts joined by '\n' load as the first followed by the second's lines inserted on top |
| Storage.EmptyLinesIgnored | recognition_bot/src/storage.rs:115 | a leading or trailing empty line does not change what loads |
| Storage.ParseDbSingleLine | recognition_bot/src/storage.rs:115-117 | a one-line text loads as that line's single entry, or fails with that line's error |
| Storage.LaterLineWins | recognition_bot/src/storage.rs:117 | an appended line for an id overrides what the earlier lines said about it |
| Storage.DuplicateIdKeepsLast | recognition_bot/src/storage.rs:117 | of two lines for one id, the later one is kept |
| Storage.InsertLinesOutcome | recognition_bot/src/storage.rs:115-118 | inserting lines succeeds if and only if every line is empty or parses; on failure the error is that of the first bad line |
| Storage.ParseDbSucceedsIff | recognition_bot/src/storage.rs:113-120 | a file loads if and only if every non-empty line parses; otherwise the first bad line decides the error |
| Storage.LoadMissingFile | recognition_bot/src/storage.rs:51-56 | a file that does not exist gives an empty store |
| Storage.LoadOpenError | recognition_bot/src/storage.rs:52-54 | any other open error is returned as an error |
| Storage.LoadSnapshot | recognition_bot/src/storage.rs:45-79 | a file holding the bytes the sync thread writes loads as the map it was taken of |
| Storage.Storage.constructor | recognition_bot/src/storage.rs:87-90 | the store holds the loaded map |
| Storage.Storage.Put | recognition_bot/src/storage.rs:93-95 | the id now maps to the language, and every other id is unchanged |
| Storage.Storage.Get | recognition_bot/src/storage.rs:97-103 | the result is Some exactly when the id is stored, and then it is the stored value; the map is not changed |
| Storage.Storage.Snapshot | recognition_bot/src/storage.rs:78-79 | one sync cycle writes the UTF-8 of `db_to_string` of the whole current map |
| Storage.New | recognition_bot/src/storage.rs:43-57 | start-up succeeds exactly when loading does, with the loaded map in a fresh store, and otherwise fails with the load error |
| Storage.ApplyPutsLastWins | recognition_bot/src/storage.rs:93-95 | after any series of puts an id holds the value of the last put for it, and ids nobody put keep their value |
| Storage.PutAll | recognition_bot/src/storage.rs:93-95 | calling `put` for each pair of a series, in order, leaves the store holding `ApplyPuts` of the series |
| Storage.ApplyPutsSnoc | recognition_bot/src/storage.rs:93-95 | one more put is one more insertion on top of the series so far |
| MediaConverter.AvconvArgsOnlyPathVaries | recognition_bot/src/media_converter.rs:21-35 | the argument vector has twelve elements, starts `-i <path>`, and the rest does not depend on the path |
| MediaConverter.AvconvOutputOptions | recognition_bot/src/media_converter.rs:25-34 | the output options ask for no video, codec pcm_s16le, 1 channel, 16000 Hz, format wav, and standard output |
| MediaConverter.AvconvOutcomeMeaning | recognition_bot/src/media_converter.rs:38-43 | success gives stdout unchanged; a failure gives an avconv error with text `t` exactly when stderr encodes `t`, and the UTF-8 error exactly when stderr is not UTF-8; the error's text is then "Avconv error: " followed by the stderr text |
| MediaConverter.ConvertCalls | recognition_bot/src/media_converter.rs:15-59 | the calls are: create the file with the kind's suffix; write the payload unchanged; run avconv on the path only if the write succeeded; remove the file exactly once, last |
| MediaConverter.WriteFailureSkipsAvconv | recognition_bot/src/media_converter.rs:15-18 | a create or write failure is the result, and a failure without avconv having run is an I/O error |
| MediaConverter.ConvertSucceedsIff | recognition_bot/src/media_converter.rs:15-43 | the result is audio `a` if and only if the file was created and written and avconv ran, exited successfully and printed `a` |
| Recognizer.BuildRequest | recognition_bot/src/recognizer.rs:32-34 | a POST whose URI is the configured one followed by `?lang=ru-RU`, with the audio as body |
| Recognizer.RequestTarget | recognition_bot/src/recognizer.rs:32 | the URI does not depend on the audio, and two recognizers target the same URI only if their URIs are equal |
| Recognizer.RecognizeSucceedsIff | recognition_bot/src/recognizer.rs:35-40 | the text is `t` if and only if the response arrived with a 2xx status and a body that encodes `t` |
| Recognizer.ApiErrorIff | recognition_bot/src/recognizer.rs:36-43 | the result is an API error with status `s` and text `t` if and only if the status is `s`, not 2xx, and the body encodes `t` |
| Recognizer.Utf8ErrorIff | recognition_bot/src/recognizer.rs:38 | the result is the UTF-8 error if and only if a body arrived that is not UTF-8, whatever the status |
| Recognizer.TransportErrors | recognition_bot/src/recognizer.rs:35-37 | a sending or body-reading error is returned as the HTTP error, and an HTTP error comes from nothing else |
| Recognizer.OverloadedService | recognition_bot/src/recognizer.rs:39-43 | status 503 with body "overloaded" gives an API error carrying 503 and "overloaded" |
| Bot.CommandBranchWins | recognition_bot/src/bot.rs:63-86 | a message with text and entities takes the command branch whatever media it carries |
| Bot.FirstBotCommandMeaning | recognition_bot/src/bot.rs:74-80 | the command is present if and only if the first entity is a bot command within the text, and it is that stretch of the text |
| Bot.VoiceBeforeVideo | recognition_bot/src/bot.rs:88-121 | without the command shape, voice is handled as voice even with a video note; a video note is handled only without voice |
| Bot.IgnoreIff | recognition_bot/src/bot.rs:62-123 | an update is ignored if and only if it has no message, or its message has neither the command shape nor media |
| Bot.MediaRouteSource | recognition_bot/src/bot.rs:88-121 | a media route carries the message's chat and message ids, and is voice exactly when the message has voice |
| Bot.MediaKindOfSource | recognition_bot/src/bot.rs:165-168 | voice becomes Ogg and a video note MP4, with the downloaded bytes unchanged and the matching suffix |
| Bot.TranscribeSendsNothing | recognition_bot/src/bot.rs:146-172 | the transcription steps send no message |
| Bot.ExactlyOneReply | recognition_bot/src/bot.rs:174-185 | exactly one message is sent per media message: the reply text, to the original chat, threaded to the original message, as the last call |
| Bot.ReplyTextMeaning | recognition_bot/src/bot.rs:174-180 | the reply is the transcript on success and exactly the fixed apology on any failure |
| Bot.HandleMediaResult | recognition_bot/src/bot.rs:181-186 | handling succeeds if and only if the reply was sent, whatever the transcription did; a failed send carries the client's error |
| Bot.TranscribeSucceedsIff | recognition_bot/src/bot.rs:146-172 | the transcript is `t` if and only if typing, lookup, download of the path (empty when none), conversion and recognition all succeeded, the last with `t` |
| Bot.DownloadedBytesWritten | recognition_bot/src/bot.rs:161-169 | the temporary file gets the kind's suffix, and the downloaded bytes are written to it unchanged |
| Bot.IgnoredDoesNothing | recognition_bot/src/bot.rs:122-124 | an ignored update makes no call and succeeds |
| Bot.CommandSendsHelpIff | recognition_bot/src/bot.rs:74-84 | the command branch sends the help text, not as a reply, exactly when the command starts with "/help", and otherwise does nothing |
| Bot.MediaMessageReply | recognition_bot/src/bot.rs:97-121 | a routed media message gets one reply threaded to it, and an error is tagged "voice" or "video_note" |
| Bot.VoiceScenario | recognition_bot/src/bot.rs:88-101 | a voice message in chat 42 recognized as "hello world" is answered "hello world", threaded to message 7 |
| Bot.AvconvFailureScenario | recognition_bot/src/bot.rs:146-185 | when avconv exits with status 1 the reply is the apology, and handling still succeeds |

## Left out

- The sync thread of `Storage::new` (`recognition_bot/src/storage.rs:59-85`) is not modelled: its `RwLock`, its 10-second loop and its write-to-temporary-then-`persist` are concurrency and file I/O. `Storage.Storage.Snapshot` models one cycle: the bytes written are those of `db_to_string` of the current map. Each `Put` and `Get` is one critical section. Concurrent writers are modelled as one series of puts, in the order they took the lock: `PutAll` calls `Put` for each pair and ends with `ApplyPuts` of the series, about which `ApplyPutsLastWins` is proved.
- Storage.DbToString: the iteration order of `HashMap` is unspecified, so the model lets it be any order of the keys (the ghost `order`). It proves every property for all orders rather than one fixed order.
- Storage.New: the `Display` text of the storage `Error` type (`recognition_bot/src/storage.rs:29-35`) is not modelled; the error is a value.
- `start_bot` (`recognition_bot/src/bot.rs:37-60`) is not modelled: the update stream, `tokio::task::spawn` and the logging of errors are concurrency and the chat client's transport. `HandleMessages` models the handling of one update.
- The chat client's requests are `ChatCall` values with abstract answers. Their wire format is not modelled.
- Bot.FirstBotCommand: the chat client's entity extraction is not part of this model. It is modelled as the stretch of the text at the entity's offset and length, counted in characters, with None when the entity runs past the text. The chat platform counts offsets in UTF-16 code units, so texts with characters outside the Basic Multilingual Plane are not modelled faithfully.
- Recognizer.ApiErrorIff: the error message text (`"Api responded with status {} and body {}"`, where the status is printed with its reason phrase) is not modelled. The error keeps the status code and the body text as fields.
- Recognizer.BuildRequest: the `expect` on building the request panics when the configured URI is invalid. This is not modelled; every URI is treated as valid.
- MediaConverter.ConvertCalls: the `expect("path should be UTF-8")` on the temporary file's path is not modelled; paths are strings.
- Bot.Transcribe: a panic inside `spawn_blocking` (a `JoinError`) is not modelled.
- Storage.ParseLine: the panics of the two `unwrap`s are modelled as `LoadError` values. Real start-up would abort the process instead.
- Decimal.ParseI64: the kinds of `ParseIntError` (empty, invalid digit, overflow) are not told apart; each is None.
- Error logging with `error!` and `info!` is not modelled.
- The `Utf8Error`, I/O and HTTP error payloads are reduced to the kinds the bot distinguishes.
- `recognition_bot/src/main.rs` (configuration and start-up) is not part of this model.
- The C# speech-recognition service (`SpeechRecognitionService/`) is not part of this model. It is a separate program behind the HTTP interface that `Recognizer.RecognizeAudio` takes as an input.
