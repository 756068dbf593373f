/**
 * The three POST handlers of the gateway, reduced to what they decide:
 *
 *  - `/generate-text` forwards `{text: prompt}` with no validation;
 *  - `/generate-text-from-image` and `/generate-from-audio` run an ordered
 *    chain of guard clauses, each either answering 400 or falling through,
 *    and then forward one user turn `[text part, inline-data part]`.
 *
 * The provider is the function `provider` from the forwarded request to its
 * outcome (an answer or an error message); `serialize` is `JSON.stringify`
 * as the response extractor uses it. A handler's HTTP response is its value.
 */
module Handlers {
  import opened Wrappers
  import opened JsValue
  import opened Extract
  import opened Strings

  const GeminiModel: string := "gemini-1.5-flash"

  const MsgNoPrompt: string := "Belum mengisi prompt!"
  const MsgNoImage: string := "File 'image' harus di-upload ya!"
  const MsgNotImage: string := "File harus berupa gambar!"
  const MsgNoAudio: string := "File 'audio' harus di-upload ya!"
  const MsgAudioFormat: string := "Format audio tidak didukung! Gunakan: MP3, WAV, M4A, FLAC, OGG, atau WEBM"
  const MsgAudioTooLarge: string := "File audio terlalu besar! Maksimal 20MB"
  const MsgAudioProcessing: string := "Error processing audio file. Pastikan format dan kualitas audio sesuai."
  const DefaultAudioPrompt: string := "Transkripsi dan jelaskan isi dari audio ini"

  /** The MIME types the audio endpoint accepts (its message names more formats than this). */
  const SupportedAudioTypes: seq<string> := ["audio/mpeg", "audio/mp4"]

  /** 20 MiB, the largest audio upload accepted. */
  const MaxAudioSize: nat := 20 * 1024 * 1024

  /** An uploaded file as the multipart parser describes it. */
  datatype UploadedFile = UploadedFile(mimetype: string, size: nat, originalname: string, buffer: seq<bv8>)

  /** `buffer.toString('base64')`, kept as an uninterpreted term over the bytes it encodes. */
  datatype Encoded = Base64Of(bytes: seq<bv8>)

  /** A content part: `{text}` (the text may be `undefined`) or `{inlineData: {mimeType, data}}`. */
  datatype Part = TextPart(text: Option<Json>) | InlineDataPart(mimeType: string, data: Encoded)

  datatype Content = Content(role: string, parts: seq<Part>)

  /** The argument of `generateContent`: `{model, contents}`. */
  datatype ProviderRequest = ProviderRequest(model: string, contents: seq<Content>)

  /** What the provider call settles to: a response object, or a rejection with `err.message`. */
  datatype ProviderOutcome = Answer(response: Json) | Failure(message: string)

  /** An HTTP status with its JSON body; object key order is not modelled. */
  datatype HttpResponse = HttpResponse(status: nat, body: Json)

  /** A handler's validation result: answer without calling the provider, or forward a request. */
  datatype Decision =
    | Reject(status: nat, message: string, extras: map<string, Json>)
    | Forward(request: ProviderRequest)

  /** One guard clause: whether the request passes it, and the 400 body it answers otherwise. */
  datatype Guard = Guard(passes: bool, message: string, extras: map<string, Json>)

  /** JavaScript truthiness of an optional string: present and non-empty. */
  predicate Truthy(p: Option<string>)
    ensures Truthy(p) <==> p.Some? && |p.value| > 0
  {
    p.Some? && p.value != ""
  }

  /** Guard `i` is the first one in `gs` that fails. */
  ghost predicate FailsFirstAt(gs: seq<Guard>, i: int)
  {
    && 0 <= i < |gs|
    && !gs[i].passes
    && forall j :: 0 <= j < i ==> gs[j].passes
  }

  /** Runs a chain of early-return guards: the first guard that fails, if any. */
  function FirstFailure(gs: seq<Guard>): (r: Option<Guard>)
    ensures r.None? <==> forall i :: 0 <= i < |gs| ==> gs[i].passes
    ensures forall i :: FailsFirstAt(gs, i) ==> r == Some(gs[i])
    decreases |gs|
  {
    if gs == [] then None
    else if !gs[0].passes then
      assert FailsFirstAt(gs, 0);
      Some(gs[0])
    else
      var r := FirstFailure(gs[1..]);
      assert forall i :: FailsFirstAt(gs, i) ==> FailsFirstAt(gs[1..], i - 1) by {
        forall i | FailsFirstAt(gs, i) ensures FailsFirstAt(gs[1..], i - 1) {
          forall j | 0 <= j < i - 1 ensures gs[1..][j].passes {
            assert gs[1..][j] == gs[j + 1];
          }
        }
      }
      assert (forall i :: 0 <= i < |gs[1..]| ==> gs[1..][i].passes)
             <==> (forall i :: 0 <= i < |gs| ==> gs[i].passes) by {
        if forall i :: 0 <= i < |gs[1..]| ==> gs[1..][i].passes {
          forall i | 0 <= i < |gs| ensures gs[i].passes {
            if i > 0 { assert gs[i] == gs[1..][i - 1]; }
          }
        }
      }
      r
  }

  /** One user turn with the prompt as text part and the file as inline-data part, in that order. */
  function UserTurn(prompt: string, file: UploadedFile): (r: ProviderRequest)
    ensures r.model == GeminiModel && |r.contents| == 1 && r.contents[0].role == "user"
    ensures r.contents[0].parts == [TextPart(Some(JString(prompt))),
                                    InlineDataPart(file.mimetype, Base64Of(file.buffer))]
  {
    ProviderRequest(GeminiModel, [Content("user", [
      TextPart(Some(JString(prompt))),
      InlineDataPart(file.mimetype, Base64Of(file.buffer))])])
  }

  /** `res.status(status).json({message, ...extras})` */
  function RejectResponse(status: nat, message: string, extras: map<string, Json>): (r: HttpResponse)
    ensures r.status == status && r.body.JObject?
    ensures r.body.fields.Keys == extras.Keys + {"message"}
    ensures r.body.fields["message"] == JString(message)
    ensures forall k :: k in extras && k != "message" ==> r.body.fields[k] == extras[k]
  {
    HttpResponse(status, JObject(extras["message" := JString(message)]))
  }

  // ----- POST /generate-text -----

  /**
   * The request for `const { prompt } = req.body`: one user turn whose only
   * part is `{text: prompt}`, with `prompt` as found (`undefined` included).
   * The body is what the JSON body parser accepts in strict mode.
   */
  function TextRequest(body: Json): (r: ProviderRequest)
    requires body.JObject? || body.JArray?
    ensures r.model == GeminiModel && |r.contents| == 1
    ensures r.contents[0].role == "user" && |r.contents[0].parts| == 1
    ensures r.contents[0].parts[0].TextPart?
    ensures body.JObject? && "prompt" in body.fields ==> r.contents[0].parts[0].text == Some(body.fields["prompt"])
    ensures body.JArray? || "prompt" !in body.fields ==> r.contents[0].parts[0].text.None?
  {
    ProviderRequest(GeminiModel, [Content("user", [TextPart(Get(body, Key("prompt")))])])
  }

  /** `/generate-text`: 200 `{output}` on an answer, 500 `{error}` on a provider failure. */
  function HandleText(body: Json, provider: ProviderRequest -> ProviderOutcome, serialize: Json -> string): (r: HttpResponse)
    requires body.JObject? || body.JArray?
    ensures r.status == 200 || r.status == 500
    ensures r.status == 200 <==> provider(TextRequest(body)).Answer?
  {
    match provider(TextRequest(body))
    case Answer(resp) => HttpResponse(200, JObject(map["output" := ExtractText(resp, serialize)]))
    case Failure(msg) => HttpResponse(500, JObject(map["error" := JString(msg)]))
  }

  /** The text endpoint never validates: any body, even one without a prompt, reaches the provider. */
  lemma TextAlwaysForwards(body: Json, provider: ProviderRequest -> ProviderOutcome, serialize: Json -> string)
    requires body.JObject? || body.JArray?
    ensures provider(TextRequest(body)).Answer? ==>
              HandleText(body, provider, serialize).body ==
                JObject(map["output" := ExtractText(provider(TextRequest(body)).response, serialize)])
    ensures provider(TextRequest(body)).Failure? ==>
              HandleText(body, provider, serialize).body ==
                JObject(map["error" := JString(provider(TextRequest(body)).message)])
  {
  }

  // ----- POST /generate-text-from-image -----

  /** The image handler's guard clauses, in source order. */
  function ImageGuards(prompt: Option<string>, file: Option<UploadedFile>): seq<Guard>
  {
    [ Guard(Truthy(prompt), MsgNoPrompt, map[]),
      Guard(file.Some?, MsgNoImage, map[]),
      Guard(file.Some? && StartsWith(file.value.mimetype, "image/"), MsgNotImage, map[]) ]
  }

  /** Validation of `/generate-text-from-image` and the request it forwards. */
  function ImageDecision(prompt: Option<string>, file: Option<UploadedFile>): (d: Decision)
    ensures d.Forward? <==> Truthy(prompt) && file.Some? && StartsWith(file.value.mimetype, "image/")
    ensures d.Forward? ==> d.request == UserTurn(prompt.value, file.value)
    ensures d.Reject? ==> d.status == 400 && d.extras == map[]
  {
    if !Truthy(prompt) then Reject(400, MsgNoPrompt, map[])
    else if file.None? then Reject(400, MsgNoImage, map[])
    else if !StartsWith(file.value.mimetype, "image/") then Reject(400, MsgNotImage, map[])
    else Forward(UserTurn(prompt.value, file.value))
  }

  /** The image handler is its guard chain: the earliest failing check decides the answer. */
  lemma ImageDecisionIsGuardChain(prompt: Option<string>, file: Option<UploadedFile>)
    ensures var first := FirstFailure(ImageGuards(prompt, file));
            && (first.None? <==> ImageDecision(prompt, file).Forward?)
            && (first.Some? ==> ImageDecision(prompt, file) == Reject(400, first.value.message, first.value.extras))
  {
    var gs := ImageGuards(prompt, file);
    if !Truthy(prompt) {
      assert FailsFirstAt(gs, 0);
    } else if file.None? {
      assert FailsFirstAt(gs, 1);
    } else if !StartsWith(file.value.mimetype, "image/") {
      assert FailsFirstAt(gs, 2);
    }
  }

  /** The three rejections, in priority order. */
  lemma ImageRejectionOrder(prompt: Option<string>, file: Option<UploadedFile>)
    ensures !Truthy(prompt) ==> ImageDecision(prompt, file) == Reject(400, MsgNoPrompt, map[])
    ensures Truthy(prompt) && file.None? ==> ImageDecision(prompt, file) == Reject(400, MsgNoImage, map[])
    ensures Truthy(prompt) && file.Some? && !StartsWith(file.value.mimetype, "image/") ==>
              ImageDecision(prompt, file) == Reject(400, MsgNotImage, map[])
  {
  }

  /** `/generate-text-from-image`: validation, then the provider's answer or failure. */
  function HandleImage(prompt: Option<string>, file: Option<UploadedFile>,
                       provider: ProviderRequest -> ProviderOutcome, serialize: Json -> string): (r: HttpResponse)
    ensures r.status in {200, 400, 500}
    ensures r.status == 400 <==> ImageDecision(prompt, file).Reject?
    ensures r.status == 200 <==> ImageDecision(prompt, file).Forward? && provider(ImageDecision(prompt, file).request).Answer?
    ensures ImageDecision(prompt, file).Reject? ==>
              r == RejectResponse(400, ImageDecision(prompt, file).message, ImageDecision(prompt, file).extras)
    ensures ImageDecision(prompt, file).Forward? && provider(ImageDecision(prompt, file).request).Failure? ==>
              r == HttpResponse(500, JObject(map["message" := JString(provider(ImageDecision(prompt, file).request).message)]))
    ensures ImageDecision(prompt, file).Forward? && provider(ImageDecision(prompt, file).request).Answer? ==>
              r.body == JObject(map[
                "result" := ExtractText(provider(ImageDecision(prompt, file).request).response, serialize),
                "prompt" := JString(prompt.value),
                "filename" := JString(file.value.originalname)])
  {
    match ImageDecision(prompt, file)
    case Reject(status, message, extras) => RejectResponse(status, message, extras)
    case Forward(request) =>
      match provider(request)
      case Answer(resp) =>
        HttpResponse(200, JObject(map[
          "result" := ExtractText(resp, serialize),
          "prompt" := JString(prompt.value),
          "filename" := JString(file.value.originalname)]))
      case Failure(msg) => HttpResponse(500, JObject(map["message" := JString(msg)]))
  }

  /** A rejected image request is answered without the provider: every provider gives the same response. */
  lemma ImageRejectIgnoresProvider(prompt: Option<string>, file: Option<UploadedFile>,
                                   p1: ProviderRequest -> ProviderOutcome, p2: ProviderRequest -> ProviderOutcome,
                                   serialize: Json -> string)
    requires ImageDecision(prompt, file).Reject?
    ensures HandleImage(prompt, file, p1, serialize) == HandleImage(prompt, file, p2, serialize)
    ensures HandleImage(prompt, file, p1, serialize).body.fields["message"] == JString(ImageDecision(prompt, file).message)
  {
  }

  /**
   * An accepted image request asks the provider exactly the two-part user turn;
   * an answer gives 200 `{result, prompt, filename}`, a failure 500 `{message}`.
   */
  lemma ImageForwardAnswer(prompt: Option<string>, file: Option<UploadedFile>,
                           provider: ProviderRequest -> ProviderOutcome, serialize: Json -> string)
    requires ImageDecision(prompt, file).Forward?
    ensures var request := UserTurn(prompt.value, file.value);
            && request.contents[0].parts == [TextPart(Some(JString(prompt.value))),
                                             InlineDataPart(file.value.mimetype, Base64Of(file.value.buffer))]
            && (provider(request).Answer? ==>
                  HandleImage(prompt, file, provider, serialize) ==
                    HttpResponse(200, JObject(map[
                      "result" := ExtractText(provider(request).response, serialize),
                      "prompt" := JString(prompt.value),
                      "filename" := JString(file.value.originalname)])))
            && (provider(request).Failure? ==>
                  HandleImage(prompt, file, provider, serialize) ==
                    HttpResponse(500, JObject(map["message" := JString(provider(request).message)])))
  {
  }

  /** No `image` field: 400 asking for the file; a `text/plain` file: 400 asking for an image. */
  lemma ImageExamples(prompt: string, name: string, size: nat, bytes: seq<bv8>,
                      provider: ProviderRequest -> ProviderOutcome, serialize: Json -> string)
    requires prompt != ""
    ensures HandleImage(Some(prompt), None, provider, serialize) ==
              HttpResponse(400, JObject(map["message" := JString(MsgNoImage)]))
    ensures HandleImage(Some(prompt), Some(UploadedFile("text/plain", size, name, bytes)), provider, serialize) ==
              HttpResponse(400, JObject(map["message" := JString(MsgNotImage)]))
  {
    assert !StartsWith("text/plain", "image/") by {
      assert "text/plain"[..|"image/"|][0] == 't';
    }
  }

  // ----- POST /generate-from-audio -----

  /** `req.body?.prompt || DefaultAudioPrompt` */
  function AudioPrompt(prompt: Option<string>): (r: string)
    ensures r != ""
    ensures Truthy(prompt) ==> r == prompt.value
    ensures !Truthy(prompt) ==> r == DefaultAudioPrompt
  {
    if Truthy(prompt) then prompt.value else DefaultAudioPrompt
  }

  /** The audio handler's guard clauses, in source order. */
  function AudioGuards(file: Option<UploadedFile>): seq<Guard>
  {
    [ Guard(file.Some?, MsgNoAudio, map[]),
      Guard(file.Some? && file.value.mimetype in SupportedAudioTypes, MsgAudioFormat,
            if file.Some? then map["receivedType" := JString(file.value.mimetype)] else map[]),
      Guard(file.Some? && file.value.size <= MaxAudioSize, MsgAudioTooLarge,
            if file.Some? then map["fileSize" := JString(FormatMB(file.value.size))] else map[]) ]
  }

  /** Validation of `/generate-from-audio` and the request it forwards. */
  function AudioDecision(prompt: Option<string>, file: Option<UploadedFile>): (d: Decision)
    ensures d.Forward? <==>
              && file.Some?
              && (file.value.mimetype == "audio/mpeg" || file.value.mimetype == "audio/mp4")
              && file.value.size <= 20971520
    ensures d.Forward? ==> d.request == UserTurn(AudioPrompt(prompt), file.value)
    ensures d.Reject? ==> d.status == 400
  {
    if file.None? then Reject(400, MsgNoAudio, map[])
    else if file.value.mimetype !in SupportedAudioTypes then
      Reject(400, MsgAudioFormat, map["receivedType" := JString(file.value.mimetype)])
    else if file.value.size > MaxAudioSize then
      Reject(400, MsgAudioTooLarge, map["fileSize" := JString(FormatMB(file.value.size))])
    else Forward(UserTurn(AudioPrompt(prompt), file.value))
  }

  /** The audio handler is its guard chain; the prompt never causes a rejection. */
  lemma AudioDecisionIsGuardChain(prompt: Option<string>, file: Option<UploadedFile>)
    ensures var first := FirstFailure(AudioGuards(file));
            && (first.None? <==> AudioDecision(prompt, file).Forward?)
            && (first.Some? ==> AudioDecision(prompt, file) == Reject(400, first.value.message, first.value.extras))
  {
    var gs := AudioGuards(file);
    if file.None? {
      assert FailsFirstAt(gs, 0);
    } else if file.value.mimetype !in SupportedAudioTypes {
      assert FailsFirstAt(gs, 1);
    } else if file.value.size > MaxAudioSize {
      assert FailsFirstAt(gs, 2);
    }
  }

  /** The audio rejections in priority order, with their extra fields. */
  lemma AudioRejectionOrder(prompt: Option<string>, file: Option<UploadedFile>)
    ensures file.None? ==> AudioDecision(prompt, file) == Reject(400, MsgNoAudio, map[])
    ensures file.Some? && file.value.mimetype !in SupportedAudioTypes ==>
              AudioDecision(prompt, file) ==
                Reject(400, MsgAudioFormat, map["receivedType" := JString(file.value.mimetype)])
    ensures file.Some? && file.value.mimetype in SupportedAudioTypes && file.value.size > 20971520 ==>
              AudioDecision(prompt, file) ==
                Reject(400, MsgAudioTooLarge, map["fileSize" := JString(FormatMB(file.value.size))])
  {
  }

  /** `audio/wav` is refused although the message lists WAV; exactly 20 MiB passes, one byte more does not. */
  lemma AudioBoundaries(prompt: Option<string>, name: string, bytes: seq<bv8>)
    ensures AudioDecision(prompt, Some(UploadedFile("audio/wav", 1, name, bytes))) ==
              Reject(400, MsgAudioFormat, map["receivedType" := JString("audio/wav")])
    ensures AudioDecision(prompt, Some(UploadedFile("audio/mpeg", 20971520, name, bytes))).Forward?
    ensures AudioDecision(prompt, Some(UploadedFile("audio/mp4", 20971521, name, bytes))).Reject?
  {
    assert "audio/wav" != "audio/mpeg" by { assert "audio/wav"[6] != "audio/mpeg"[6]; }
    assert "audio/wav" != "audio/mp4" by { assert "audio/wav"[6] != "audio/mp4"[6]; }
  }

  /** 21 MiB renders as `"21.00MB"`. */
  lemma FormatWhole21MiB()
    ensures FormatMB(21 * 1024 * 1024) == "21.00MB"
  {
    FormatWholeMiB(21);
    assert NatToString(21) == "21" by {
      assert NatToString(2) == "2";
    }
  }

  /** A 21 MiB file is refused with `fileSize: "21.00MB"`. */
  lemma AudioTooLargeExample(prompt: Option<string>, mimetype: string, name: string, bytes: seq<bv8>)
    requires mimetype in SupportedAudioTypes
    ensures AudioDecision(prompt, Some(UploadedFile(mimetype, 21 * 1024 * 1024, name, bytes))) ==
              Reject(400, MsgAudioTooLarge, map["fileSize" := JString("21.00MB")])
  {
    FormatWhole21MiB();
    assert 21 * 1024 * 1024 > MaxAudioSize;
  }

  /**
   * The catch block of the audio handler: 400 with the raw message as `error`
   * when the message contains `Audio` (case-sensitive), 500 `{message}` otherwise.
   */
  function AudioFailureResponse(message: string): (r: HttpResponse)
    ensures r.status == 400 <==> exists i :: OccursAt(message, "Audio", i)
    ensures r.status == 400 ==>
              r.body == JObject(map["message" := JString(MsgAudioProcessing), "error" := JString(message)])
    ensures r.status != 400 ==> r == HttpResponse(500, JObject(map["message" := JString(message)]))
  {
    if Contains(message, "Audio") then
      HttpResponse(400, JObject(map["message" := JString(MsgAudioProcessing), "error" := JString(message)]))
    else
      HttpResponse(500, JObject(map["message" := JString(message)]))
  }

  /** A message without a capital `A` is never classified as an audio error. */
  lemma AudioFailureNeedsCapitalA(message: string)
    requires forall k :: 0 <= k < |message| ==> message[k] != 'A'
    ensures AudioFailureResponse(message).status == 500
  {
    forall i ensures !OccursAt(message, "Audio", i) {
      if 0 <= i && i + 5 <= |message| {
        assert message[i..i + 5][0] == message[i];
      }
    }
  }

  /** `"Audio decoding failed"` is answered with 400. */
  lemma AudioFailureExample()
    ensures AudioFailureResponse("Audio decoding failed").status == 400
  {
    assert OccursAt("Audio decoding failed", "Audio", 0);
  }

  /** `/generate-from-audio`: validation, then the provider's answer or the classified failure. */
  function HandleAudio(prompt: Option<string>, file: Option<UploadedFile>,
                       provider: ProviderRequest -> ProviderOutcome, serialize: Json -> string): (r: HttpResponse)
    ensures r.status in {200, 400, 500}
    ensures AudioDecision(prompt, file).Reject? ==> r.status == 400
    ensures r.status == 200 <==> AudioDecision(prompt, file).Forward? && provider(AudioDecision(prompt, file).request).Answer?
    ensures AudioDecision(prompt, file).Reject? ==>
              r == RejectResponse(400, AudioDecision(prompt, file).message, AudioDecision(prompt, file).extras)
    ensures AudioDecision(prompt, file).Forward? && provider(AudioDecision(prompt, file).request).Failure? ==>
              r == AudioFailureResponse(provider(AudioDecision(prompt, file).request).message)
    ensures AudioDecision(prompt, file).Forward? && provider(AudioDecision(prompt, file).request).Answer? ==>
              r.body == JObject(map[
                "result" := ExtractText(provider(AudioDecision(prompt, file).request).response, serialize),
                "prompt" := JString(AudioPrompt(prompt)),
                "filename" := JString(file.value.originalname),
                "fileType" := JString(file.value.mimetype),
                "fileSize" := JString(FormatMB(file.value.size))])
  {
    match AudioDecision(prompt, file)
    case Reject(status, message, extras) => RejectResponse(status, message, extras)
    case Forward(request) =>
      match provider(request)
      case Answer(resp) =>
        HttpResponse(200, JObject(map[
          "result" := ExtractText(resp, serialize),
          "prompt" := JString(AudioPrompt(prompt)),
          "filename" := JString(file.value.originalname),
          "fileType" := JString(file.value.mimetype),
          "fileSize" := JString(FormatMB(file.value.size))]))
      case Failure(msg) => AudioFailureResponse(msg)
  }

  /** A rejected audio request is answered without the provider: every provider gives the same response. */
  lemma AudioRejectIgnoresProvider(prompt: Option<string>, file: Option<UploadedFile>,
                                   p1: ProviderRequest -> ProviderOutcome, p2: ProviderRequest -> ProviderOutcome,
                                   serialize: Json -> string)
    requires AudioDecision(prompt, file).Reject?
    ensures HandleAudio(prompt, file, p1, serialize) == HandleAudio(prompt, file, p2, serialize)
    ensures HandleAudio(prompt, file, p1, serialize).body.fields["message"] == JString(AudioDecision(prompt, file).message)
  {
  }

  /**
   * The 400 bodies of the audio validation: `{message}` for a missing file,
   * `{message, receivedType}` for an unsupported type, `{message, fileSize}`
   * for an oversized file, whatever the provider would have answered.
   */
  lemma AudioRejectionBodies(prompt: Option<string>, file: Option<UploadedFile>,
                             provider: ProviderRequest -> ProviderOutcome, serialize: Json -> string)
    ensures file.None? ==>
              HandleAudio(prompt, file, provider, serialize) ==
                HttpResponse(400, JObject(map["message" := JString(MsgNoAudio)]))
    ensures file.Some? && file.value.mimetype !in SupportedAudioTypes ==>
              HandleAudio(prompt, file, provider, serialize) ==
                HttpResponse(400, JObject(map["message" := JString(MsgAudioFormat),
                                              "receivedType" := JString(file.value.mimetype)]))
    ensures file.Some? && file.value.mimetype in SupportedAudioTypes && file.value.size > MaxAudioSize ==>
              HandleAudio(prompt, file, provider, serialize) ==
                HttpResponse(400, JObject(map["message" := JString(MsgAudioTooLarge),
                                              "fileSize" := JString(FormatMB(file.value.size))]))
  {
    if file.Some? && file.value.mimetype !in SupportedAudioTypes {
      assert map["receivedType" := JString(file.value.mimetype)]["message" := JString(MsgAudioFormat)]
          == map["message" := JString(MsgAudioFormat), "receivedType" := JString(file.value.mimetype)];
    }
    if file.Some? && file.value.mimetype in SupportedAudioTypes && file.value.size > MaxAudioSize {
      assert map["fileSize" := JString(FormatMB(file.value.size))]["message" := JString(MsgAudioTooLarge)]
          == map["message" := JString(MsgAudioTooLarge), "fileSize" := JString(FormatMB(file.value.size))];
    }
  }

  /** A provider failure on an accepted audio file is classified by `AudioFailureResponse`. */
  lemma AudioProviderFailure(prompt: Option<string>, file: Option<UploadedFile>,
                             provider: ProviderRequest -> ProviderOutcome, serialize: Json -> string)
    requires AudioDecision(prompt, file).Forward?
    requires provider(UserTurn(AudioPrompt(prompt), file.value)).Failure?
    ensures HandleAudio(prompt, file, provider, serialize) ==
              AudioFailureResponse(provider(UserTurn(AudioPrompt(prompt), file.value)).message)
  {
  }
}
