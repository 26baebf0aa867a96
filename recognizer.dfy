/** The client of the speech-recognition service, recognition_bot/src/recognizer.rs:
    the WAV audio is POSTed to the service's URI with the Russian language
    selected, and the response is turned into the recognized text or an error.
    The HTTP client is an `Http` function from a request to the response it
    would get. */
module Recognizer {
  import opened Common
  import Utf8

  /** `Recognizer`: the base URI of the service (the shared `hyper::Client`
      appears as the `Http` argument of `RecognizeAudio`). */
  datatype Recognizer = Recognizer(uri: string)

  datatype Request = Request(verb: string, uri: string, body: seq<byte>)

  /** A response: its status code, and the collected body, or the transport
      error met while collecting it. */
  datatype Response = Response(status: int, body: Result<seq<byte>, string>)

  /** The HTTP client: the response to a request, or the transport error. */
  type Http = Request -> Result<Response, string>

  const Post: string := "POST"
  const LanguageQuery: string := "?lang=ru-RU"

  /** The request `recognize_audio` sends. */
  function BuildRequest(r: Recognizer, audio: seq<byte>): (req: Request)
    ensures req.verb == Post
    ensures |req.uri| == |r.uri| + |LanguageQuery|
    ensures req.uri[..|r.uri|] == r.uri && req.uri[|r.uri|..] == LanguageQuery
    ensures req.body == audio
  {
    Request(Post, r.uri + LanguageQuery, audio)
  }

  /** `StatusCode::is_success`: the 2xx range. */
  predicate IsSuccess(status: int) {
    200 <= status <= 299
  }

  /** What a collected response body becomes: the UTF-8 check comes first,
      whatever the status; then a success status gives the text and any other
      status an error carrying the status and the text. */
  function Decide(status: int, body: seq<byte>): Result<string, Failure> {
    match Utf8.Decode(body)
    case None => Failure(Utf8Error)
    case Some(text) =>
      if IsSuccess(status) then Success(text) else Failure(ApiStatusError(status, text))
  }

  /** `recognize_audio`: send the request, collect the body, decide. */
  function RecognizeAudio(r: Recognizer, audio: seq<byte>, http: Http): Result<string, Failure> {
    match http(BuildRequest(r, audio))
    case Failure(e) => Failure(HttpError(e))
    case Success(response) =>
      match response.body
      case Failure(e) => Failure(HttpError(e))
      case Success(body) => Decide(response.status, body)
  }

  /** The target does not depend on the audio, and another recognizer's URI is
      never confused with this one's. */
  lemma RequestTarget(r: Recognizer, s: Recognizer, a: seq<byte>, b: seq<byte>)
    ensures BuildRequest(r, a).uri == BuildRequest(r, b).uri
    ensures BuildRequest(r, a).uri == BuildRequest(s, b).uri <==> r.uri == s.uri
  {
    if BuildRequest(r, a).uri == BuildRequest(s, b).uri {
      var u := BuildRequest(r, a).uri;
      assert |r.uri| == |s.uri|;
      assert r.uri == u[..|r.uri|];
    }
  }

  /** The recognized text is `t` exactly when the service answered with a 2xx
      status and a body that is the UTF-8 encoding of `t`. */
  lemma RecognizeSucceedsIff(r: Recognizer, audio: seq<byte>, http: Http, t: string)
    ensures RecognizeAudio(r, audio, http) == Success(t) <==>
              && http(BuildRequest(r, audio)).Success?
              && var response := http(BuildRequest(r, audio)).value;
                 && IsSuccess(response.status)
                 && response.body == Success(Utf8.Encode(t))
  {
    match http(BuildRequest(r, audio)) {
      case Failure(_) =>
      case Success(response) =>
        match response.body {
          case Failure(_) =>
          case Success(body) => Utf8.DecodeIffEncode(body, t);
        }
    }
  }

  /** A non-2xx status with a UTF-8 body is reported with both the status and
      the body's text, and only then is the result an API error. */
  lemma ApiErrorIff(r: Recognizer, audio: seq<byte>, http: Http, status: int, t: string)
    ensures RecognizeAudio(r, audio, http) == Failure(ApiStatusError(status, t)) <==>
              && http(BuildRequest(r, audio)).Success?
              && var response := http(BuildRequest(r, audio)).value;
                 && response.status == status
                 && !IsSuccess(status)
                 && response.body == Success(Utf8.Encode(t))
  {
    match http(BuildRequest(r, audio)) {
      case Failure(_) =>
      case Success(response) =>
        match response.body {
          case Failure(_) =>
          case Success(body) => Utf8.DecodeIffEncode(body, t);
        }
    }
  }

  /** A body that is not UTF-8 is a UTF-8 error even under a success status, and
      a UTF-8 error can come from nothing else. */
  lemma Utf8ErrorIff(r: Recognizer, audio: seq<byte>, http: Http)
    ensures RecognizeAudio(r, audio, http) == Failure(Utf8Error) <==>
              && http(BuildRequest(r, audio)).Success?
              && http(BuildRequest(r, audio)).value.body.Success?
              && Utf8.Decode(http(BuildRequest(r, audio)).value.body.value).None?
  {
  }

  /** A transport error, while sending or while reading the body, is reported
      as such and never yields text. */
  lemma TransportErrors(r: Recognizer, audio: seq<byte>, http: Http)
    ensures http(BuildRequest(r, audio)).Failure? ==>
              RecognizeAudio(r, audio, http) == Failure(HttpError(http(BuildRequest(r, audio)).error))
    ensures http(BuildRequest(r, audio)).Success? && http(BuildRequest(r, audio)).value.body.Failure? ==>
              RecognizeAudio(r, audio, http) == Failure(HttpError(http(BuildRequest(r, audio)).value.body.error))
    ensures RecognizeAudio(r, audio, http).Failure? && RecognizeAudio(r, audio, http).error.HttpError? ==>
              http(BuildRequest(r, audio)).Failure? || http(BuildRequest(r, audio)).value.body.Failure?
  {
  }

  /** An overloaded service: status 503 with body "overloaded" is an API error
      carrying both. */
  lemma OverloadedService(r: Recognizer, audio: seq<byte>)
    ensures RecognizeAudio(r, audio, (req: Request) => Success(Response(503, Success(Utf8.Encode("overloaded"))))) ==
              Failure(ApiStatusError(503, "overloaded"))
  {
    Utf8.DecodeEncode("overloaded");
  }
}
