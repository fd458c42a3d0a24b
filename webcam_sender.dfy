/**
 * `WebcamSender.SendFrame` (CameraViewerManager.cs): the second sending
 * path, which frames each JPEG as a text message `"RGB:" + base64(jpg)`.
 * It keeps no state between calls: the texture it encodes from is made and
 * destroyed within the call, so the message depends only on the socket
 * state, the camera and the encoder's bytes.
 */
module WebcamSenderComponent {
  import opened Common
  import opened Transport
  import opened UnityEngine
  import Base64

  /** The ASCII tag that marks a frame payload. */
  const Tag := "RGB:"

  /** The text message for one JPEG frame. */
  function FramePayload(jpg: seq<uint8>): (text: string)
    ensures |text| == |Tag| + 4 * ((|jpg| + 2) / 3)
    ensures text[..|Tag|] == Tag
    ensures forall i :: |Tag| <= i < |text| ==> Base64.IsBase64Char(text[i])
  {
    Tag + Base64.Encode(jpg)
  }

  /** What a receiver does with a frame payload: check the tag and decode the rest. */
  function ParseFramePayload(text: string): Option<seq<uint8>>
  {
    if |text| >= |Tag| && text[..|Tag|] == Tag then Base64.Decode(text[|Tag|..]) else None
  }

  /** Removing the tag and decoding the rest recovers exactly the JPEG bytes. */
  lemma PayloadRoundTrip(jpg: seq<uint8>)
    ensures ParseFramePayload(FramePayload(jpg)) == Some(jpg)
  {
    var text := FramePayload(jpg);
    assert text[|Tag|..] == Base64.Encode(jpg);
    Base64.DecodeEncode(jpg);
  }

  /** Every text a receiver accepts is the payload of exactly the bytes it decodes to. */
  lemma PayloadCanonical(text: string)
    requires ParseFramePayload(text).Some?
    ensures FramePayload(ParseFramePayload(text).value) == text
  {
    var body := text[|Tag|..];
    assert ParseFramePayload(text) == Base64.Decode(body);
    var jpg := Base64.Decode(body).value;
    Base64.EncodeDecode(body);
    calc {
      FramePayload(jpg);
      Tag + Base64.Encode(jpg);
      text[..|Tag|] + body;
      text;
    }
  }

  /** Distinct frames give distinct payloads. */
  lemma PayloadInjective(a: seq<uint8>, b: seq<uint8>)
    requires a != b
    ensures FramePayload(a) != FramePayload(b)
  {
    PayloadRoundTrip(a);
    PayloadRoundTrip(b);
  }

  /** Every character of a payload is printable ASCII, so it travels safely as text. */
  lemma PayloadIsPrintableAscii(jpg: seq<uint8>)
    ensures forall i :: 0 <= i < |FramePayload(jpg)| ==> ' ' < FramePayload(jpg)[i] <= '~'
  {
    var text := FramePayload(jpg);
    forall i | 0 <= i < |text| ensures ' ' < text[i] <= '~' {
      if i >= |Tag| {
        Base64.Base64CharIsPrintableAscii(text[i]);
      }
    }
  }

  /**
   * One call of `SendFrame`: nothing unless the socket exists and is open;
   * a missing camera texture throws before anything is sent; otherwise one
   * text message carrying the framed JPEG.
   */
  function SendFrame(websocket: Option<WebSocket>, cam: Option<CameraTexture>, jpg: seq<uint8>): (sent: Option<SocketCall>)
    ensures sent.Some? <==> IsOpen(websocket) && cam.Some?
    ensures sent.Some? ==> sent.value.SendText? && ParseFramePayload(sent.value.text) == Some(jpg)
  {
    if websocket.None? || websocket.value.state != Open then None
    else if cam.None? then None
    else
      PayloadRoundTrip(jpg);
      Some(SendText(FramePayload(jpg)))
  }
}
