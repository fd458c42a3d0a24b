# Camera streaming client: pose parser, send gate and frame framing

This project models the core of a Unity streaming client and proves properties of that model. The client sends camera frames over a WebSocket at a fixed rate. It also applies pose messages that arrive on the same socket to a `Transform`.

- `ImageSender` (Assets/CameraAPI/ImageSender.cs) is modelled as a class with the component's fields: `websocket`, `frameTex`, `sendTimer`. The model adds two ghost fields: a log of socket calls, and the list of sockets that `Connect` replaced.
  - `Update` gates on an open socket and rate-limits with `sendTimer`.
  - `SendCurrentFrame` reuses the scratch texture unless the camera's size changed.
  - `OnMessageReceived` contains decoding failures.
  - `ApplyTransformMessage` is the line-oriented `T x y z` / `R x y z` parser. It is a loop proved against a fold over the message's records.
  - `Connect` and `Disconnect` manage the socket.
- `WebcamSender.SendFrame` (Assets/CameraAPI/Canvas/CameraViewerManager.cs) is modelled as a pure function. It gates on an open socket and frames the JPEG as the text `"RGB:" + base64(jpg)`. Base 64 is the alphabet with `=` padding from section 4 of RFC 4648, with a strict decoder. Both round trips are proved.

Modules:
- `Common`: `Option` and `uint8`.
- `Geometry`: `Vec3`, `Rotation` and `Pose`, the values a `Transform` holds.
- `Base64`: the encoder and decoder.
- `DotNetText`: `String.Split`, `StringSplitOptions.RemoveEmptyEntries` and `String.Trim`.
- `PoseProtocol`: the parser's specification.
- `Transport`: socket state and socket calls.
- `UnityEngine`: the camera texture, `Texture2D` and `Transform`.
- `ImageSenderComponent`: the `ImageSender` class.
- `WebcamSenderComponent`: `SendFrame`.

These are parameters rather than definitions:
- `float.TryParse` (a function `string -> Option<real>`);
- UTF-8 decoding (`seq<uint8> -> Option<string>`);
- `Time.deltaTime`;
- the camera texture;
- the bytes `EncodeToJPG` returns.

A rotation is kept symbolic (`EulerRadians(x, y, z)`): it records which three parsed angles it was built from.

Where the code's behaviour may be surprising, the model follows the code:
- The position written to the sink is always `(0, 0.5, 0)`. Parsed `T` values are computed and then dropped.
- A message without an `R` record writes the identity rotation. It does not keep the previous orientation.
- A token that fails to parse gives 0, not an earlier value.
- Tokens are split on the space character only. A tab inside a line is part of a token.
- `Connect` does not check for an existing socket. The old one stays subscribed and is recorded in `replaced`.
- `SendCurrentFrame` has no single-flight guard, and none is added.

## Model

| member | source | states |
|---|---|---|
| `Base64.Encode` | Assets/CameraAPI/Canvas/CameraViewerManager.cs:61 | For n bytes the text has length 4·⌈n/3⌉. Every character is from the alphabet of RFC 4648, section 4, or `=`. `=` appears only in the last two positions. |
| `Base64.DecodeEncode` | Assets/CameraAPI/Canvas/CameraViewerManager.cs:61 | Decoding the encoding of any byte sequence returns exactly that sequence. |
| `Base64.EncodeDecode` | Assets/CameraAPI/Canvas/CameraViewerManager.cs:61 | Any text the decoder accepts is the encoding of what it decodes to, so the decoder accepts only canonical text. |
| `Base64.EncodeKnownAnswersUnpadded` | Assets/CameraAPI/Canvas/CameraViewerManager.cs:61 | The encoder gives the unpadded test vectors of section 10 of RFC 4648: the empty text, `Zm9v` for `foo` and `Zm9vYmFy` for `foobar`. |
| `Base64.EncodeKnownAnswersPadded` | Assets/CameraAPI/Canvas/CameraViewerManager.cs:61 | The encoder gives the padded test vectors of section 10 of RFC 4648: `Zg==`, `Zm8=`, `Zm9vYg==` and `Zm9vYmE=`. |
| `Base64.AlphabetKnownAnswers` | Assets/CameraAPI/Canvas/CameraViewerManager.cs:61 | The ends of the alphabet's ranges are those of table 1 of RFC 4648. |
| `Base64.EncodeInjective` | Assets/CameraAPI/Canvas/CameraViewerManager.cs:61 | Equal encodings come from equal byte sequences. |
| `Base64.Base64CharIsPrintableAscii` | Assets/CameraAPI/Canvas/CameraViewerManager.cs:61 | Every alphabet or pad character is printable ASCII. |
| `WebcamSenderComponent.FramePayload` | Assets/CameraAPI/Canvas/CameraViewerManager.cs:61-62 | The payload starts with the 4-character tag `RGB:`, has length 4 + 4·⌈n/3⌉, and every character after the tag is a base 64 character. |
| `WebcamSenderComponent.PayloadRoundTrip` | Assets/CameraAPI/Canvas/CameraViewerManager.cs:61-62 | Stripping `RGB:` and decoding the rest recovers exactly the JPEG bytes. |
| `WebcamSenderComponent.PayloadCanonical` | Assets/CameraAPI/Canvas/CameraViewerManager.cs:61-62 | Every payload a receiver accepts is the framing of the bytes it decodes to. |
| `WebcamSenderComponent.PayloadInjective` | Assets/CameraAPI/Canvas/CameraViewerManager.cs:61-62 | Distinct frames give distinct payloads. |
| `WebcamSenderComponent.PayloadIsPrintableAscii` | Assets/CameraAPI/Canvas/CameraViewerManager.cs:61-62 | Every character of a payload is printable ASCII. |
| `WebcamSenderComponent.SendFrame` | Assets/CameraAPI/Canvas/CameraViewerManager.cs:46-63 | A message is sent exactly when the socket exists and is Open and the camera texture exists. What is sent is a text message that parses back to the JPEG bytes. The result depends only on the call's inputs. |
| `DotNetText.Split` | Assets/CameraAPI/ImageSender.cs:74 | There is one more piece than there are separators, and no piece contains a separator. |
| `DotNetText.SplitRebuilds` | Assets/CameraAPI/ImageSender.cs:74 | Interleaving the pieces with the separators, in order, rebuilds the text. |
| `DotNetText.SplitJoin` | Assets/CameraAPI/ImageSender.cs:80 | With a single separator character, joining the pieces with it rebuilds the text. |
| `DotNetText.RemoveEmpty` | Assets/CameraAPI/ImageSender.cs:74 | Keeps exactly the non-empty pieces and drops every empty one, so the concatenation is unchanged. |
| `DotNetText.RemoveEmptyAppend` | Assets/CameraAPI/ImageSender.cs:74 | Filtering a concatenation filters each part, so the kept pieces stay in their original order. |
| `DotNetText.SplitNonEmpty` | Assets/CameraAPI/ImageSender.cs:74 | The pieces are the maximal separator-free runs of the text, in order. The text is the pieces woven between runs of separators, and every run between two pieces is non-empty. |
| `DotNetText.SplitNonEmptyDetermined` | Assets/CameraAPI/ImageSender.cs:74 | Any decomposition of a text into non-empty separator-free pieces, with non-empty separator runs between them, is exactly what the split returns, whatever the lengths of the runs. |
| `DotNetText.TrimStart` | Assets/CameraAPI/ImageSender.cs:80 | Returns the suffix left after removing only white space, and it does not start with white space. |
| `DotNetText.TrimEnd` | Assets/CameraAPI/ImageSender.cs:80 | Returns the prefix left after removing only white space, and it does not end with white space. |
| `DotNetText.Trim` | Assets/CameraAPI/ImageSender.cs:80 | Returns a slice of the text whose removed ends are all white space, and it neither starts nor ends with white space. |
| `DotNetText.SplitJoined` | Assets/CameraAPI/ImageSender.cs:74 | Splitting the join of separator-free pieces gives the pieces back. |
| `PoseProtocol.Lines` | Assets/CameraAPI/ImageSender.cs:74 | The lines are the maximal runs of the message free of `\n` and `\r`, in order, so the message is cut at every run of line breaks. |
| `PoseProtocol.LinesDetermined` | Assets/CameraAPI/ImageSender.cs:74 | Non-empty lines with any runs of `\n` and `\r` between and around them, blank lines included, are read back as they are. |
| `PoseProtocol.Tokens` | Assets/CameraAPI/ImageSender.cs:80 | The tokens are the maximal space-free runs of the trimmed line, in order, so the line is cut at every run of spaces. |
| `PoseProtocol.TokensDetermined` | Assets/CameraAPI/ImageSender.cs:80 | Tokens with runs of one or more spaces between them in the trimmed line are read back as they are. |
| `PoseProtocol.Classify` | Assets/CameraAPI/ImageSender.cs:81-93 | A line is a translation iff its first token is exactly `T` and it has at least 4 tokens. It is a rotation iff the first token is `R` with at least 4 tokens. The record's three fields are tokens 2 to 4. |
| `PoseProtocol.RecordsAt` | Assets/CameraAPI/ImageSender.cs:78-80 | The record at each position is the classification of that line's tokens, so the records follow the lines one for one, in order. |
| `PoseProtocol.ExtraTokensIgnored` | Assets/CameraAPI/ImageSender.cs:83-93 | Tokens after the fourth make no difference. |
| `PoseProtocol.RotationFromLastRotationRecord` | Assets/CameraAPI/ImageSender.cs:76-96 | The rotation is that of the last `R` record. With no `R` record it is the identity. |
| `PoseProtocol.TranslationFromLastTranslationRecord` | Assets/CameraAPI/ImageSender.cs:75-88 | The computed position comes from the last `T` record, each axis from its own token, with 0 where a token fails to parse. With no `T` record it is zero. |
| `PoseProtocol.OtherLinesIgnored` | Assets/CameraAPI/ImageSender.cs:78-98 | Dropping every line that is not a `T` or `R` record leaves the result unchanged. |
| `PoseProtocol.NoRotationRecordGivesIdentity` | Assets/CameraAPI/ImageSender.cs:76-100 | A message with no `R` record yields the identity rotation. |
| `PoseProtocol.TokensOfJoinedLine` | Assets/CameraAPI/ImageSender.cs:80 | Tokens joined by single spaces are read back as the same tokens. |
| `PoseProtocol.LinesOfJoinedMessage` | Assets/CameraAPI/ImageSender.cs:74 | Lines joined by `\n` are read back as the same lines. |
| `PoseProtocol.LinesOfCrLfMessage` | Assets/CameraAPI/ImageSender.cs:74 | Lines joined by `\r\n` are read back as the same lines; the empty piece between `\r` and `\n` is dropped. |
| `PoseProtocol.WellFormedMessage` | Assets/CameraAPI/ImageSender.cs:72-98 | The message `T x y z` newline `R a b c` parses to the translation and the rotation of its two records. |
| `PoseProtocol.TabIsNotATokenSeparator` | Assets/CameraAPI/ImageSender.cs:80-83 | A tab after `T` does not split the token. Such a line is not a translation record. |
| `ImageSenderComponent.FramesDueWithinElapsed` | Assets/CameraAPI/ImageSender.cs:25-30 | Each due frame uses up a whole period 1/fps of the elapsed time. |
| `ImageSenderComponent.RateLimit` | Assets/CameraAPI/ImageSender.cs:25-30 | Over any run of open-socket frames, at most fps frames per second of elapsed time are sent. |
| `ImageSenderComponent.DecodeRange` | Assets/CameraAPI/ImageSender.cs:37 | A decoded text exists only when offset and length lie within the data. |
| `ImageSenderComponent.ImageSender.constructor` | Assets/CameraAPI/ImageSender.cs:11-18 | Starts with no socket, no scratch texture and a zero timer. |
| `ImageSenderComponent.ImageSender.Update` | Assets/CameraAPI/ImageSender.cs:20-31 | With no socket or a socket that is not Open, nothing changes, the timer included. Otherwise the timer advances. The timer resets to 0 exactly when it reaches 1/fps. One frame is sent then if the camera texture is usable, and the scratch texture is kept when it already has the camera's size and is fresh otherwise. At most one call is made per frame. |
| `ImageSenderComponent.ImageSender.SendCurrentFrame` | Assets/CameraAPI/ImageSender.cs:46-70 | Skips a missing or zero-sized camera texture. Otherwise the scratch texture ends with the camera's size: it is the same object when it already had that size, and a fresh one otherwise. The bytes are sent only if the socket is Open. |
| `ImageSenderComponent.ImageSender.OnMessageReceived` | Assets/CameraAPI/ImageSender.cs:33-44 | A payload that cannot be decoded writes nothing. Otherwise there is exactly one sink write of the parsed message. |
| `ImageSenderComponent.ImageSender.ApplyTransformMessage` | Assets/CameraAPI/ImageSender.cs:72-101 | Exactly one sink write. The position is always (0, 0.5, 0), and the rotation is the one computed from the message. |
| `ImageSenderComponent.ReadLine` | Assets/CameraAPI/ImageSender.cs:80-97 | One pass of the loop: a `T` record with at least three values replaces the position, an `R` record the rotation, and any other line leaves both unchanged, as the record fold's step says. |
| `ImageSenderComponent.ImageSender.Connect` | Assets/CameraAPI/ImageSender.cs:109-127 | Makes a new Connecting socket with the handler subscribed. An existing socket is replaced without being closed. |
| `ImageSenderComponent.ImageSender.DeliverMessage` | Assets/CameraAPI/ImageSender.cs:124 | A message reaches the handler only while it is subscribed on the current socket. Then an undecodable payload writes nothing, and a decodable one makes exactly one sink write of (0, 0.5, 0) with the parsed rotation. |
| `ImageSenderComponent.ImageSender.Disconnect` | Assets/CameraAPI/ImageSender.cs:129-143 | With no socket it does nothing. Otherwise it unsubscribes the handler before any close, closes only an Open socket, and always ends with no socket. |
| `UnityEngine.Transform.SetPositionAndRotation` | Assets/CameraAPI/ImageSender.cs:100 | Position and rotation are replaced together, as one logged write. |

## Left out

- JPEG encoding and pixel copying (`SetPixels`, `GetPixels`, `Apply`, `EncodeToJPG`) are engine calls. The JPEG bytes are a parameter.
- Float parsing (`float.TryParse`, which depends on culture) and rotation numerics (`Mathf.Rad2Deg`, `Quaternion.Euler`, `Matrix4x4.Rotate`, `.rotation`) are floating point and library code. Parsing is a parameter, and a rotation records only its three angles. Consequently `EulerRadians(0, 0, 0)` is not identified with `Identity`.
- `sendTimer` and `fps` are `real`, not `float`. Rounding, NaN, infinities and a negative zero `fps` are not modelled. `fps == 0` is modelled as "never due", which is what `1f / 0f` gives.
- `Time.deltaTime` is a parameter. `RateLimit` assumes non-negative frame times, as the engine provides.
- UTF-8 decoding is a parameter that may fail. The default .NET decoder replaces invalid bytes instead of failing. The range check of `Encoding.UTF8.GetString(data, offset, length)` is modelled.
- WebSocket transport: connecting, sending, closing and their errors are not modelled. The model records the calls made, and `SocketStateChanged` stands for the transport moving the socket between states.
- Concurrency is not modelled: the `async void` overlap of frame sends, the point at which an `await` resumes, the `Task.Yield` polling loop in `Connect`, the coroutine and `InvokeRepeating` schedule. Each method runs as one atomic step. In particular `Disconnect` drops the socket right after issuing `Close`, not after it completes.
- Messages still delivered by a socket that `Connect` replaced are not modelled. Such sockets are listed in `replaced` with their handler still subscribed.
- `SendFrame`'s texture is made and destroyed within the call and is not modelled as an object. A zero-sized camera texture is not treated specially there, as in the code.
- A null `_transform` is not modelled: the sink is always present. In `OnMessageReceived` it would throw inside the caught block, so nothing would be written.
- A null camera manager is not modelled. In `SendCurrentFrame` it throws inside the caught block, which the model treats like a missing camera texture.
- In `SendFrame` a null camera manager throws at Assets/CameraAPI/Canvas/CameraViewerManager.cs:51 and a null camera texture at line 54 (`camTexture.width`). Both are outside any `try`, so the exception escapes the `async void` method. The effect is the same as the model's: nothing is sent.
- `Connect` is modelled as if the camera were already playing. In the code (Assets/CameraAPI/ImageSender.cs:113-117) it first waits for the camera texture to exist and play. With a null manager it throws there, outside any `try`, and with a camera that never plays it waits forever. In both cases no socket is ever created.
- `Debug.Log*`, the camera-intrinsics log line, `OnApplicationQuit` and the OnOpen/OnError logging handlers are logging and lifecycle hooks. `WebcamSender`'s `m_image` field (Assets/CameraAPI/Canvas/CameraViewerManager.cs:11) is a `RawImage` preview and is UI only. The other inspector fields are modelled: `wsUrl` and `fps` as constants, `_transform` as the `transform` field, and `m_webCamTextureManager` through the camera texture parameter `cam`.
- Strings are sequences of Unicode scalar values, not UTF-16 code units. White space is `Char.IsWhiteSpace`'s set.
