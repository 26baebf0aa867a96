/** The message handling of recognition_bot/src/bot.rs: an incoming update is
    routed by the shape of its message (a command, a voice message, a video
    note, or nothing to do); a media message is transcribed by downloading the
    file, converting it and sending it to the recognizer, and the transcript, or
    a fixed apology when any step failed, is sent back as a reply. The chat
    platform's client is a `ChatClient` of answers; each operation returns its
    result together with the calls it made, in order. */
module Bot {
  import opened Common
  import MediaConverter
  import Recognizer
  import Utf8

  // ---------------------------------------------------------------------------
  // The incoming update, as far as the handler looks at it
  // ---------------------------------------------------------------------------

  datatype EntityKind = BotCommand | OtherEntity(name: string)

  /** A message entity: its kind and the stretch of the text it covers. */
  datatype MessageEntity = MessageEntity(kind: EntityKind, offset: nat, length: nat)

  datatype FileRef = FileRef(fileId: string)

  datatype Message = Message(
    messageId: int64,
    chatId: int64,
    text: Option<string>,
    entities: Option<seq<MessageEntity>>,
    voice: Option<FileRef>,
    videoNote: Option<FileRef>)

  datatype Update = Update(updateId: int64, message: Option<Message>)

  datatype VideoOrVoice = Video | Voice

  /** The branch `handle_messages` takes. */
  datatype Route =
    | CommandRoute(chatId: int64, command: Option<string>)
    | MediaRoute(chatId: int64, messageId: int64, source: VideoOrVoice, fileId: string)
    | Ignore

  predicate StartsWith(s: string, prefix: string) {
    |prefix| <= |s| && s[..|prefix|] == prefix
  }

  /** The text an entity covers, when it lies within the text. */
  function EntityText(e: MessageEntity, text: string): Option<string> {
    if e.offset + e.length <= |text| then Some(text[e.offset..e.offset + e.length]) else None
  }

  /** The first entity's text, when that entity is a bot command. */
  function FirstBotCommand(text: string, entities: seq<MessageEntity>): Option<string> {
    if entities == [] || !entities[0].kind.BotCommand? then None
    else EntityText(entities[0], text)
  }

  /** The first-match-wins pattern match of `handle_messages`. */
  function Classify(u: Update): Route {
    match u.message
    case None => Ignore
    case Some(m) =>
      if m.text.Some? && m.entities.Some? then
        CommandRoute(m.chatId, FirstBotCommand(m.text.value, m.entities.value))
      else if m.voice.Some? then MediaRoute(m.chatId, m.messageId, Voice, m.voice.value.fileId)
      else if m.videoNote.Some? then MediaRoute(m.chatId, m.messageId, Video, m.videoNote.value.fileId)
      else Ignore
  }

  /** The container a downloaded file is converted from. */
  function ToMediaKind(source: VideoOrVoice, bytes: seq<byte>): MediaConverter.MediaKind {
    match source
    case Video => MediaConverter.Mp4(bytes)
    case Voice => MediaConverter.Ogg(bytes)
  }

  // ---------------------------------------------------------------------------
  // The handler's effects
  // ---------------------------------------------------------------------------

  /** A message to send; `replyTo` is the message it answers, if any. */
  datatype OutgoingMessage = OutgoingMessage(chatId: int64, text: string, replyTo: Option<int64>)

  /** Requests to the chat platform. */
  datatype ChatCall =
    | SendTyping(chatId: int64)
    | GetFile(fileId: string)
    | DownloadFile(path: string)
    | SendMessage(msg: OutgoingMessage)

  /** Everything the handler does to the outside, in one trace. */
  datatype Call =
    | Chat(chat: ChatCall)
    | Converter(step: MediaConverter.Call)
    | Recognition(request: Recognizer.Request)

  /** How the chat platform answers: the typing action, the file's path (None
      when the platform gives none), the file's bytes, and the sent message. */
  datatype ChatClient = ChatClient(
    sendTyping: int64 -> Result<(), string>,
    getFile: string -> Result<Option<string>, string>,
    downloadFile: string -> Result<seq<byte>, string>,
    sendMessage: OutgoingMessage -> Result<(), string>)

  datatype Env = Env(
    chat: ChatClient,
    host: MediaConverter.Host,
    recognizer: Recognizer.Recognizer,
    http: Recognizer.Http)

  datatype Outcome<T> = Outcome(result: Result<T, Failure>, calls: seq<Call>)

  const HelpText: string :=
    "Hello! I can convert voice and video note messages to text. You can forward messages to me or add me to chat. Default and the only language is russian"

  const FailureReply: string := "Something went wrong. Please try again later."

  function LiftConverter(calls: seq<MediaConverter.Call>): (r: seq<Call>)
    ensures |r| == |calls| && forall i :: 0 <= i < |calls| ==> r[i] == Converter(calls[i])
  {
    seq(|calls|, i requires 0 <= i < |calls| => Converter(calls[i]))
  }

  /** The `recognized` block of `handle_media_message`: typing action, file
      lookup, download, conversion and recognition, stopping at the first error. */
  function Transcribe(chatId: int64, source: VideoOrVoice, fileId: string, env: Env): Outcome<string> {
    var c1 := [Chat(SendTyping(chatId))];
    match env.chat.sendTyping(chatId)
    case Failure(e) => Outcome(Failure(ChatApiError(e)), c1)
    case Success(_) =>
      var c2 := c1 + [Chat(GetFile(fileId))];
      match env.chat.getFile(fileId)
      case Failure(e) => Outcome(Failure(ChatApiError(e)), c2)
      case Success(filePath) =>
        var path := filePath.GetOr("");
        var c3 := c2 + [Chat(DownloadFile(path))];
        match env.chat.downloadFile(path)
        case Failure(e) => Outcome(Failure(ChatApiError(e)), c3)
        case Success(bytes) =>
          var converted := MediaConverter.Convert(ToMediaKind(source, bytes), env.host);
          var c4 := c3 + LiftConverter(converted.calls);
          match converted.result
          case Failure(e) => Outcome(Failure(e), c4)
          case Success(audio) =>
            var request := Recognizer.BuildRequest(env.recognizer, audio);
            Outcome(Recognizer.RecognizeAudio(env.recognizer, audio, env.http), c4 + [Recognition(request)])
  }

  /** The reply text: the transcript, or the fixed apology on any error. */
  function ReplyText(recognized: Result<string, Failure>): string {
    match recognized
    case Success(t) => t
    case Failure(_) => FailureReply
  }

  function SendResult(r: Result<(), string>): Result<(), Failure> {
    match r
    case Success(_) => Success(())
    case Failure(e) => Failure(ChatApiError(e))
  }

  /** `handle_media_message`: transcribe, then reply to the original message. */
  function HandleMedia(chatId: int64, msgId: int64, source: VideoOrVoice, fileId: string, env: Env): Outcome<()> {
    var recognized := Transcribe(chatId, source, fileId, env);
    var reply := OutgoingMessage(chatId, ReplyText(recognized.result), Some(msgId));
    Outcome(SendResult(env.chat.sendMessage(reply)), recognized.calls + [Chat(SendMessage(reply))])
  }

  /** `handle_help`: the help text, not as a reply. */
  function HandleHelp(chatId: int64, env: Env): Outcome<()> {
    var msg := OutgoingMessage(chatId, HelpText, None);
    Outcome(SendResult(env.chat.sendMessage(msg)), [Chat(SendMessage(msg))])
  }

  /** anyhow's `.context(what)` on an error; success and the calls are kept. */
  function WithContext<T>(what: string, o: Outcome<T>): Outcome<T> {
    match o.result
    case Success(_) => o
    case Failure(e) => Outcome(Failure(Context(what, e)), o.calls)
  }

  function MediaContext(source: VideoOrVoice): string {
    match source
    case Voice => "voice"
    case Video => "video_note"
  }

  predicate IsHelpCommand(command: Option<string>) {
    command.Some? && StartsWith(command.value, "/help")
  }

  /** `handle_messages`. */
  function HandleMessages(u: Update, env: Env): Outcome<()> {
    match Classify(u)
    case Ignore => Outcome(Success(()), [])
    case CommandRoute(chatId, command) =>
      if IsHelpCommand(command) then WithContext("help", HandleHelp(chatId, env))
      else Outcome(Success(()), [])
    case MediaRoute(chatId, msgId, source, fileId) =>
      WithContext(MediaContext(source), HandleMedia(chatId, msgId, source, fileId, env))
  }

  /** The messages a trace sends, in order. */
  function Replies(calls: seq<Call>): seq<OutgoingMessage> {
    if calls == [] then []
    else
      (if calls[0].Chat? && calls[0].chat.SendMessage? then [calls[0].chat.msg] else [])
      + Replies(calls[1..])
  }

  // ---------------------------------------------------------------------------
  // Routing
  // ---------------------------------------------------------------------------

  /** A message with both text and entities takes the command branch, whatever
      media it carries; the command is the first entity's text when that entity
      is a bot command. */
  lemma CommandBranchWins(u: Update)
    requires u.message.Some? && u.message.value.text.Some? && u.message.value.entities.Some?
    ensures var m := u.message.value;
            Classify(u) == CommandRoute(m.chatId, FirstBotCommand(m.text.value, m.entities.value))
  {
  }

  /** The command is present exactly when the first entity is a bot command
      lying within the text, and it is that stretch of the text. */
  lemma FirstBotCommandMeaning(text: string, entities: seq<MessageEntity>, command: string)
    ensures FirstBotCommand(text, entities) == Some(command) <==>
              && |entities| > 0
              && entities[0].kind == BotCommand
              && entities[0].offset + entities[0].length <= |text|
              && command == text[entities[0].offset..entities[0].offset + entities[0].length]
  {
  }

  /** Without the command shape, a voice message is handled as voice even when
      it also carries a video note; a video note is handled only without voice. */
  lemma VoiceBeforeVideo(u: Update)
    requires u.message.Some?
    requires var m := u.message.value; !(m.text.Some? && m.entities.Some?)
    ensures var m := u.message.value;
            m.voice.Some? ==> Classify(u) == MediaRoute(m.chatId, m.messageId, Voice, m.voice.value.fileId)
    ensures var m := u.message.value;
            m.voice.None? && m.videoNote.Some? ==>
              Classify(u) == MediaRoute(m.chatId, m.messageId, Video, m.videoNote.value.fileId)
  {
  }

  /** An update is ignored exactly when it has no message, or its message has
      neither the command shape nor any media. */
  lemma IgnoreIff(u: Update)
    ensures Classify(u) == Ignore <==>
              || u.message.None?
              || var m := u.message.value;
                 && !(m.text.Some? && m.entities.Some?)
                 && m.voice.None?
                 && m.videoNote.None?
  {
  }

  /** A media route always points back at the message it came from. */
  lemma MediaRouteSource(u: Update)
    requires Classify(u).MediaRoute?
    ensures u.message.Some?
    ensures Classify(u).chatId == u.message.value.chatId
    ensures Classify(u).messageId == u.message.value.messageId
    ensures Classify(u).source == Voice <==> u.message.value.voice.Some?
  {
  }

  /** Voice is an Ogg payload and a video note an MP4 payload, the downloaded
      bytes unchanged in either. */
  lemma MediaKindOfSource(source: VideoOrVoice, bytes: seq<byte>)
    ensures ToMediaKind(source, bytes).bytes == bytes
    ensures ToMediaKind(source, bytes).Ogg? <==> source == Voice
    ensures MediaConverter.Suffix(ToMediaKind(source, bytes)) == (if source == Voice then ".oga" else "mp4")
  {
  }

  // ---------------------------------------------------------------------------
  // Replies
  // ---------------------------------------------------------------------------

  lemma {:induction false} RepliesAppend(a: seq<Call>, b: seq<Call>)
    ensures Replies(a + b) == Replies(a) + Replies(b)
  {
    if a == [] {
      assert a + b == b;
    } else {
      assert (a + b)[1..] == a[1..] + b;
      RepliesAppend(a[1..], b);
    }
  }

  lemma {:induction false} RepliesOfConverter(calls: seq<MediaConverter.Call>)
    ensures Replies(LiftConverter(calls)) == []
  {
    if calls != [] {
      assert LiftConverter(calls)[1..] == LiftConverter(calls[1..]);
      RepliesOfConverter(calls[1..]);
    }
  }

  /** Transcribing sends no message. */
  lemma TranscribeSendsNothing(chatId: int64, source: VideoOrVoice, fileId: string, env: Env)
    ensures Replies(Transcribe(chatId, source, fileId, env).calls) == []
  {
    var c1 := [Chat(SendTyping(chatId))];
    var c2 := c1 + [Chat(GetFile(fileId))];
    RepliesAppend(c1, [Chat(GetFile(fileId))]);
    if env.chat.sendTyping(chatId).Success? && env.chat.getFile(fileId).Success? {
      var path := env.chat.getFile(fileId).value.GetOr("");
      var c3 := c2 + [Chat(DownloadFile(path))];
      RepliesAppend(c2, [Chat(DownloadFile(path))]);
      if env.chat.downloadFile(path).Success? {
        var bytes := env.chat.downloadFile(path).value;
        var converted := MediaConverter.Convert(ToMediaKind(source, bytes), env.host);
        var c4 := c3 + LiftConverter(converted.calls);
        RepliesOfConverter(converted.calls);
        RepliesAppend(c3, LiftConverter(converted.calls));
        if converted.result.Success? {
          var request := Recognizer.BuildRequest(env.recognizer, converted.result.value);
          RepliesAppend(c4, [Recognition(request)]);
        }
      }
    }
  }

  /** Exactly one message is sent per media message: the reply text, addressed
      to the original chat and threaded to the original message, as the last
      call, whatever happened before it. */
  lemma ExactlyOneReply(chatId: int64, msgId: int64, source: VideoOrVoice, fileId: string, env: Env)
    ensures var o := HandleMedia(chatId, msgId, source, fileId, env);
            var reply := OutgoingMessage(chatId, ReplyText(Transcribe(chatId, source, fileId, env).result), Some(msgId));
            && Replies(o.calls) == [reply]
            && o.calls[|o.calls| - 1] == Chat(SendMessage(reply))
  {
    var recognized := Transcribe(chatId, source, fileId, env);
    var reply := OutgoingMessage(chatId, ReplyText(recognized.result), Some(msgId));
    TranscribeSendsNothing(chatId, source, fileId, env);
    RepliesAppend(recognized.calls, [Chat(SendMessage(reply))]);
  }

  /** The reply is the transcript when there is one and the apology otherwise;
      the apology conveys no error detail. */
  lemma ReplyTextMeaning(recognized: Result<string, Failure>)
    ensures recognized.Success? ==> ReplyText(recognized) == recognized.value
    ensures recognized.Failure? ==> ReplyText(recognized) == FailureReply
  {
  }

  /** A media message is handled successfully exactly when its reply was sent,
      whether or not the transcription failed; a failed send carries the
      client's error. */
  lemma HandleMediaResult(chatId: int64, msgId: int64, source: VideoOrVoice, fileId: string, env: Env)
    ensures var reply := OutgoingMessage(chatId, ReplyText(Transcribe(chatId, source, fileId, env).result), Some(msgId));
            && (HandleMedia(chatId, msgId, source, fileId, env).result.Success? <==> env.chat.sendMessage(reply).Success?)
            && (env.chat.sendMessage(reply).Failure? ==>
                  HandleMedia(chatId, msgId, source, fileId, env).result == Failure(ChatApiError(env.chat.sendMessage(reply).error)))
  {
  }

  /** The transcript is `t` exactly when every step succeeded: the typing
      action, the file lookup, the download of the file's path (the empty path
      when the platform gives none), the conversion of the downloaded bytes, and
      the recognition of the converted audio, which yielded `t`. */
  lemma TranscribeSucceedsIff(chatId: int64, source: VideoOrVoice, fileId: string, env: Env, t: string)
    ensures Transcribe(chatId, source, fileId, env).result == Success(t) <==>
              && env.chat.sendTyping(chatId).Success?
              && env.chat.getFile(fileId).Success?
              && var path := env.chat.getFile(fileId).value.GetOr("");
                 && env.chat.downloadFile(path).Success?
                 && var converted := MediaConverter.Convert(ToMediaKind(source, env.chat.downloadFile(path).value), env.host);
                    && converted.result.Success?
                    && Recognizer.RecognizeAudio(env.recognizer, converted.result.value, env.http) == Success(t)
  {
  }

  /** The downloaded bytes reach the temporary file unchanged: once the file has
      been created, the call after its creation writes exactly those bytes. */
  lemma DownloadedBytesWritten(chatId: int64, source: VideoOrVoice, fileId: string, env: Env)
    requires env.chat.sendTyping(chatId).Success?
    requires env.chat.getFile(fileId).Success?
    requires env.chat.downloadFile(env.chat.getFile(fileId).value.GetOr("")).Success?
    ensures var bytes := env.chat.downloadFile(env.chat.getFile(fileId).value.GetOr("")).value;
            var suffix := MediaConverter.Suffix(ToMediaKind(source, bytes));
            var calls := Transcribe(chatId, source, fileId, env).calls;
            && |calls| >= 4
            && calls[3] == Converter(MediaConverter.CreateTempFile(suffix))
            && (env.host.createTempFile(suffix).Success? ==>
                  |calls| >= 5 && calls[4] == Converter(MediaConverter.WriteAll(env.host.createTempFile(suffix).value, bytes)))
  {
    var bytes := env.chat.downloadFile(env.chat.getFile(fileId).value.GetOr("")).value;
    MediaConverter.ConvertCalls(ToMediaKind(source, bytes), env.host);
  }

  // ---------------------------------------------------------------------------
  // The whole handler
  // ---------------------------------------------------------------------------

  /** An ignored update does nothing and succeeds. */
  lemma IgnoredDoesNothing(u: Update, env: Env)
    requires Classify(u) == Ignore
    ensures HandleMessages(u, env) == Outcome(Success(()), [])
  {
  }

  /** The command branch sends the help text, unthreaded, exactly when the
      command starts with "/help", and does nothing otherwise. */
  lemma CommandSendsHelpIff(u: Update, env: Env)
    requires Classify(u).CommandRoute?
    ensures var calls := HandleMessages(u, env).calls;
            var help := OutgoingMessage(Classify(u).chatId, HelpText, None);
            && (IsHelpCommand(Classify(u).command) ==> calls == [Chat(SendMessage(help))])
            && (!IsHelpCommand(Classify(u).command) ==> HandleMessages(u, env) == Outcome(Success(()), []))
  {
  }

  /** A media message gets exactly one reply, threaded to it; an error is
      reported under the name of the media kind. */
  lemma MediaMessageReply(u: Update, env: Env)
    requires Classify(u).MediaRoute?
    ensures var route := Classify(u);
            var o := HandleMessages(u, env);
            && |Replies(o.calls)| == 1
            && Replies(o.calls)[0].chatId == u.message.value.chatId
            && Replies(o.calls)[0].replyTo == Some(u.message.value.messageId)
            && (o.result.Failure? ==> o.result.error.Context? && o.result.error.what == MediaContext(route.source))
  {
    var route := Classify(u);
    ExactlyOneReply(route.chatId, route.messageId, route.source, route.fileId, env);
  }

  /** A chat in which file "file-1" is a voice message with the bytes `voice`,
      every chat request succeeds, and avconv produces `output`. */
  function ScenarioEnv(voice: seq<byte>, output: MediaConverter.ProcessOutput, http: Recognizer.Http): Env {
    Env(
      ChatClient(
        (c: int64) => Success(()),
        (f: string) => Success(Some("voice/file-1.oga")),
        (p: string) => Success(voice),
        (m: OutgoingMessage) => Success(())),
      MediaConverter.Host(
        (s: string) => Success("/tmp/media.oga"),
        (p: string, d: seq<byte>) => None,
        (prog: string, args: seq<string>) => Success(output)),
      Recognizer.Recognizer("http://localhost:5000/recognize"),
      http)
  }

  const VoiceUpdate: Update := Update(1, Some(Message(7, 42, None, None, Some(FileRef("file-1")), None)))

  /** A voice message in chat 42 whose recognition yields "hello world" is
      answered with "hello world", threaded to it. */
  lemma VoiceScenario(voice: seq<byte>, wav: seq<byte>)
    ensures var env := ScenarioEnv(voice, MediaConverter.ProcessOutput(MediaConverter.ExitStatus(Some(0)), wav, []),
                                   (r: Recognizer.Request) => Success(Recognizer.Response(200, Success(Utf8.Encode("hello world")))));
            var o := HandleMessages(VoiceUpdate, env);
            && o.result == Success(())
            && Replies(o.calls) == [OutgoingMessage(42, "hello world", Some(7))]
  {
    Utf8.DecodeEncode("hello world");
    ExactlyOneReply(42, 7, Voice, "file-1",
      ScenarioEnv(voice, MediaConverter.ProcessOutput(MediaConverter.ExitStatus(Some(0)), wav, []),
                  (r: Recognizer.Request) => Success(Recognizer.Response(200, Success(Utf8.Encode("hello world"))))));
  }

  /** The same voice message when avconv exits with status 1 is answered with
      the apology, and the handler still succeeds because the reply was sent. */
  lemma AvconvFailureScenario(voice: seq<byte>)
    ensures var env := ScenarioEnv(voice, MediaConverter.ProcessOutput(MediaConverter.ExitStatus(Some(1)), [], []),
                                   (r: Recognizer.Request) => Failure("no service"));
            var o := HandleMessages(VoiceUpdate, env);
            && o.result == Success(())
            && Replies(o.calls) == [OutgoingMessage(42, FailureReply, Some(7))]
  {
    ExactlyOneReply(42, 7, Voice, "file-1",
      ScenarioEnv(voice, MediaConverter.ProcessOutput(MediaConverter.ExitStatus(Some(1)), [], []),
                  (r: Recognizer.Request) => Failure("no service")));
  }
}
