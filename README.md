# Gemini gateway: response extraction and request validation

This project models the deterministic core of a small Express gateway in front
of the Gemini API (`index.js`). The model has three parts.

- **Response extractor** (`extractText`). It runs three optional-chaining
  lookups into a loosely shaped provider response:
  `response.candidates[0].content.parts[0].text`,
  `candidates[0].content.parts[0].text` and `candidates[0].content.text`.
  It combines them with `??`. When all three miss, it returns
  `JSON.stringify(resp, null, 2)`.
- **Handlers** for `/generate-text`, `/generate-text-from-image` and
  `/generate-from-audio`. Each upload handler is an ordered chain of guard
  clauses. A guard either answers `400` with a JSON body or falls through.
  The last step forwards one user turn `[{text: prompt}, {inlineData}]` to
  the provider. The text handler forwards `{text: prompt}` without any check.
- **Audio error classifier.** A provider error whose message contains
  `Audio` (case-sensitive) is answered with `400`. Any other message is
  answered with `500`.

Modules:

- `JsValue` (jsvalue.dfy): JSON-shaped values, `?.` chains and `??`.
- `Extract` (extract.dfy): the extractor. `FirstFound` is an independent
  reading of it as an ordered list of lookup strategies.
- `Strings` (strings.dfy): `startsWith`, `includes`, and the exact
  `(size / 1024 / 1024).toFixed(2)` rendering, with a parser as its inverse.
- `Handlers` (handlers.dfy): the three handlers as functions from the request
  (and the provider's outcome) to an `HttpResponse`.

Abstractions:

- JavaScript `undefined` is `None` and `null` is `JNull`.
- The provider is a function parameter from the forwarded `ProviderRequest`
  to `Answer(response)` or `Failure(message)`.
- "The provider is never contacted on a validation failure" is stated as:
  the response to a rejected request is the same for every provider.
- `JSON.stringify(resp, null, 2)` is a function parameter `serialize`, so
  every property holds for any serializer.
- `buffer.toString('base64')` is the uninterpreted term `Base64Of(bytes)`.

The audio endpoint's error message lists MP3, WAV, M4A, FLAC, OGG and WEBM,
but the code accepts only `audio/mpeg` and `audio/mp4`. The model follows the
code: `audio/wav` is rejected (`AudioBoundaries`).

## Model

| member | source | states |
|---|---|---|
| `JsValue.Chain` | index.js:20-22 | `o?.s1?.s2…`: a chain that yields a value started from a non-nullish value, and one step reads one property; meaning carried by `ChainAppend` and `ChainFoundThroughPrefixes` |
| `JsValue.Coalesce` | index.js:20-24 | `a ?? b` is nullish only when both are, and keeps a non-nullish `a`; tied to the strategy list by `FirstFoundOfThree` |
| `JsValue.ChainAppend` | index.js:20-22 | an optional chain over `p + q` equals the chain over `q` started from the chain over `p` |
| `JsValue.ChainFoundThroughPrefixes` | index.js:20-22 | a chain that yields a value passed a non-nullish value after every prefix of its path (`?.` short-circuits) |
| `Extract.FirstFound` | index.js:19-22 | the first lookup whose value is neither `undefined` nor `null` gives the result; `None` exactly when every lookup is nullish |
| `Extract.FirstFoundOfThree` | index.js:19-22 | the `??` chain `a ?? b ?? c` agrees with the strategy list `[a, b, c]` |
| `Extract.ExtractText` | index.js:17-29 | the result is the first non-nullish lookup of the three paths, in order, otherwise `serialize(resp)`; total for every input |
| `Extract.ExtractPrefersNestedParts` | index.js:19-20 | a non-null value at `response.candidates[0].content.parts[0].text` is the result, whatever the other paths hold |
| `Extract.ExtractThenParts` | index.js:19-21 | with the first path nullish, a value at `candidates[0].content.parts[0].text` is the result |
| `Extract.ExtractThenContentText` | index.js:19-22 | with both parts paths nullish, a value at `candidates[0].content.text` is the result |
| `Extract.ExtractFallback` | index.js:24 | when all three paths are `undefined` or `null`, the result is the serialized whole response |
| `Extract.ExtractEmptyStringAndNull` | index.js:20-24 | a present `""` is returned and not skipped; a `null` at the first path falls through to the remaining paths in order |
| `Extract.ExtractPlainResponse` | index.js:21 | `{candidates:[{content:{parts:[{text:t}]}}]}` yields exactly `t`, the empty string included |
| `Extract.ExtractWrappedResponse` | index.js:20-24 | `{response: inner}` yields `inner`'s parts text when present, otherwise the serialized wrapper |
| `Strings.StartsWith` | index.js:64 | `startsWith` holds exactly when the prefix fits and agrees with `s` at every index |
| `Strings.Contains` | index.js:170 | `includes` is true exactly when the needle occurs at some index of the message |
| `Strings.NatToString` | index.js:135 | the rendering is a non-empty digit string without a leading zero (except for 0) |
| `Strings.DigitsValueOfNatToString` | index.js:135 | reading a rendered number back gives the number |
| `Strings.TwoDigits` | index.js:135 | the two fraction digits of `toFixed(2)` are two digits whose value is the input |
| `Strings.RoundedHundredthsMiB` | index.js:135 | the number of hundredths is within half a hundredth of `size / 2^20`, the upper end included; nearest-with-ties-up is `RoundedIsNearest` |
| `Strings.FormatMB` | index.js:135 | the rendering has the shape `<digits>.<two digits>MB` with no leading zero in the integer part; its value is stated by `FormatMBRoundTrip`, `RoundedIsNearest` and `FormatWholeMiB` |
| `Strings.RoundedIsNearest` | index.js:135 | `toFixed(2)` picks the hundredth nearest to `size / 2^20`, the larger one on a tie |
| `Strings.FormatMBRoundTrip` | index.js:135 | the `"X.XXMB"` string parses back to the rounded number of hundredths |
| `Strings.FormatWholeMiB` | index.js:135 | a whole number `k` of MiB renders as `k` followed by `.00MB` |
| `Handlers.Truthy` | index.js:52 | a prompt is truthy exactly when present and non-empty; used by `ImageRejectionOrder` and `AudioPrompt` |
| `Handlers.UserTurn` | index.js:69-83 | one `user` turn for the fixed model whose parts are `[text = prompt, inlineData{mimetype, Base64Of(buffer)}]`, in that order |
| `Handlers.RejectResponse` | index.js:53 | `res.status(400).json({message, ...extras})`: the status, `message`, every extra field and no other key |
| `Handlers.FirstFailure` | index.js:52-67 | a chain of early-return guards answers with its first failing guard, and falls through exactly when every guard passes |
| `Handlers.TextRequest` | index.js:34-39 | one user turn with one text part holding `body.prompt`, which is `undefined` when the body has none |
| `Handlers.HandleText` | index.js:32-46 | the status is 200 exactly when the provider answers, otherwise 500 |
| `Handlers.TextAlwaysForwards` | index.js:34-45 | the body is `{output: extractText(answer)}` on an answer and `{error: message}` on a failure |
| `Handlers.ImageDecision` | index.js:51-83 | forwards exactly when the prompt is non-empty, a file is present and its mimetype starts with `image/`; the forwarded request is the two-part user turn |
| `Handlers.ImageDecisionIsGuardChain` | index.js:52-67 | the image decision is the first failing guard of [prompt, file, image type] |
| `Handlers.ImageRejectionOrder` | index.js:52-67 | missing prompt, then missing file, then non-image type, each with its exact 400 message |
| `Handlers.HandleImage` | index.js:49-94 | 400 with the guard's body exactly when validation rejects; otherwise 200 `{result, prompt, filename}` when the provider answers and 500 `{message}` when it fails |
| `Handlers.ImageRejectIgnoresProvider` | index.js:52-67 | a rejected request gets the same response from every provider, with the guard's message |
| `Handlers.ImageForwardAnswer` | index.js:68-92 | the forwarded parts are `[text = prompt, inlineData{mimetype, base64}]`; an answer gives the whole 200 body, a failure 500 `{message}` |
| `Handlers.ImageExamples` | index.js:58-67 | no file gives 400 asking for the image; a `text/plain` file gives 400 asking for an image |
| `Handlers.AudioPrompt` | index.js:108 | the prompt if non-empty, otherwise the fixed default; never empty |
| `Handlers.AudioDecision` | index.js:108-157 | forwards exactly when a file is present, its mimetype is `audio/mpeg` or `audio/mp4` and its size is at most 20971520 |
| `Handlers.AudioDecisionIsGuardChain` | index.js:113-138 | the audio decision is the first failing guard of [file, type allow-list, size] |
| `Handlers.AudioRejectionOrder` | index.js:113-138 | missing file, then unsupported type with `receivedType`, then oversize with `fileSize` |
| `Handlers.AudioBoundaries` | index.js:119-138 | `audio/wav` is rejected; exactly 20971520 bytes pass; 20971521 bytes are rejected |
| `Handlers.FormatWhole21MiB` | index.js:135 | 21 MiB renders as `"21.00MB"` |
| `Handlers.AudioTooLargeExample` | index.js:131-138 | a 21 MiB file is rejected with `fileSize: "21.00MB"` |
| `Handlers.AudioFailureResponse` | index.js:170-177 | 400 with `error` = the raw message exactly when the message contains `Audio`, otherwise 500 `{message}` |
| `Handlers.AudioFailureNeedsCapitalA` | index.js:170 | a message with no capital `A` is always answered with 500 (case-sensitive) |
| `Handlers.AudioFailureExample` | index.js:170-174 | `"Audio decoding failed"` is answered with 400 |
| `Handlers.HandleAudio` | index.js:106-179 | validation rejections are 400 with the guard's body; an answer gives 200 `{result, prompt = AudioPrompt, filename, fileType, fileSize = FormatMB}`; a failure is classified by `AudioFailureResponse` |
| `Handlers.AudioRejectionBodies` | index.js:113-138 | the 400 bodies `{message}`, `{message, receivedType}` and `{message, fileSize}` for the three audio guards |
| `Handlers.AudioRejectIgnoresProvider` | index.js:113-138 | a rejected audio request gets the same response from every provider, with the guard's message |
| `Handlers.AudioProviderFailure` | index.js:166-177 | a provider failure on an accepted audio file is answered by the error classifier |

## Left out

- Express and multer setup, `app.listen`, route registration, `dotenv` loading and logging (index.js:1-14, 26, 43, 91, 142, 167). This is framework plumbing.
- The two static `GET /` handlers (index.js:95-103, 180-189) and which one takes precedence. They have constant output.
- The `generateContent` calls (index.js:36, 69, 143). They are asynchronous foreign calls, modelled only as the `provider` parameter.
- `JSON.stringify` output (index.js:24, 27). It is the parameter `serialize`, so whitespace and key order are not modelled.
- `file.buffer.toString('base64')` (index.js:68, 140). It is the opaque term `Base64Of(bytes)`.
- The `catch` branch of `extractText` (index.js:25-28). Values here are plain, acyclic data with no getters, proxies or BigInts, so neither a property read nor the serializer can throw, and `ExtractText` is total. In JavaScript the catch calls the same `JSON.stringify(resp, null, 2)`, which can throw again, for example on a throwing own enumerable getter or proxy trap, a cyclic response or a BigInt value. In those cases the source re-throws; this is not modelled.
- `Extract.ExtractText`: `?.[0]` indexes arrays only, and a name is looked up in objects only. JavaScript's string indexing, inherited properties and `obj["0"]` are not modelled.
- Handlers: object key order in JSON bodies is not modelled (bodies are maps).
- Handlers: a repeated multipart `prompt` field (which would arrive as an array) is not modelled. The prompt is an optional string.
- `Handlers.TextRequest`: it requires a JSON object or array body, which is what the JSON body parser accepts in strict mode. An undefined `req.body`, where destructuring would throw and the handler would answer 500, is not modelled.
- `Handlers.HandleText`: it carries the same object-or-array requirement on the body, for the same reason as `Handlers.TextRequest`.
- `Handlers.TextAlwaysForwards`: it carries the same object-or-array requirement on the body, for the same reason as `Handlers.TextRequest`.
- `Handlers.AudioFailureResponse`: it does not model an error without a string `message`, where `includes` itself would throw.
- `Handlers.HandleText`: a provider failure always carries a string message (`Failure(message: string)`). An error without one, where `{error: err.message}` would serialize to `{}`, is not modelled.
- `Handlers.HandleImage`: a provider failure always carries a string message. An error without one, where `{message: err.message}` would serialize to `{}`, is not modelled.
- `Strings.RoundedIsNearest`: the size is an exact whole number. Dividing a double by 1024 twice is exact, but a JavaScript number cannot hold every whole number above 2^53, so `file.size` itself may already be rounded there. Sizes above 2^53 bytes are modelled as exact, unlike the source.
- Strings are Dafny `string`s, sequences of Unicode scalar values, not JavaScript UTF-16 code units, so a `prompt` holding a lone surrogate cannot be represented. No decision depends on this: the needles `"Audio"` and `"image/"` are ASCII, the audio type test is exact equality, and emptiness is the same either way.
- learn.js: a one-shot script that calls the provider and prints the answer, with no logic of its own.
