/**
 * `ImageSender`: streams camera frames over a WebSocket at a fixed rate and
 * applies the pose messages that come back to a `Transform`.
 *
 * Engine and library services are parameters: the frame time (`deltaTime`),
 * the camera texture, the JPEG bytes `EncodeToJPG` produced for the frame,
 * float parsing and UTF-8 decoding.
 */
module ImageSenderComponent {
  import opened Common
  import opened Transport
  import opened Geometry
  import opened PoseProtocol
  import opened UnityEngine

  /**
   * The send period `1f / fps`. For `fps == 0` the period is infinite and
   * the timer never reaches it, so there is none.
   */
  function SendPeriod(fps: real): Option<real>
  {
    if fps == 0.0 then None else Some(1.0 / fps)
  }

  /** The rate limiter of `Update`: the new `sendTimer`, and whether a frame is due. */
  function TimerTick(sendTimer: real, deltaTime: real, fps: real): (real, bool)
  {
    var t := sendTimer + deltaTime;
    match SendPeriod(fps)
    case Some(period) => if t >= period then (0.0, true) else (t, false)
    case None => (t, false)
  }

  /** The number of frames due over consecutive `Update` calls, each with its own `deltaTime`. */
  function FramesDue(sendTimer: real, deltaTimes: seq<real>, fps: real): nat
    decreases |deltaTimes|
  {
    if |deltaTimes| == 0 then 0
    else
      var (t, due) := TimerTick(sendTimer, deltaTimes[0], fps);
      (if due then 1 else 0) + FramesDue(t, deltaTimes[1..], fps)
  }

  function Sum(xs: seq<real>): real
  {
    if |xs| == 0 then 0.0 else xs[0] + Sum(xs[1..])
  }

  /**
   * Each due frame uses up a whole period of the time that has passed, the
   * time already on the timer included.
   */
  lemma {:induction false} FramesDueWithinElapsed(sendTimer: real, deltaTimes: seq<real>, fps: real)
    requires fps > 0.0 && sendTimer >= 0.0
    requires forall i :: 0 <= i < |deltaTimes| ==> deltaTimes[i] >= 0.0
    ensures FramesDue(sendTimer, deltaTimes, fps) as real * (1.0 / fps) <= sendTimer + Sum(deltaTimes)
    decreases |deltaTimes|
  {
    if |deltaTimes| > 0 {
      var period := 1.0 / fps;
      var (t, due) := TimerTick(sendTimer, deltaTimes[0], fps);
      var rest := deltaTimes[1..];
      FramesDueWithinElapsed(t, rest, fps);
      var n := FramesDue(t, rest, fps) as real;
      if due {
        assert sendTimer + deltaTimes[0] >= period;
        assert (n + 1.0) * period == n * period + period;
      }
    }
  }

  /**
   * The rate limit: over any run of `Update` calls with the socket open,
   * at most `fps` frames per second of elapsed time become due, counting
   * the time already on the timer.
   */
  lemma RateLimit(sendTimer: real, deltaTimes: seq<real>, fps: real)
    requires fps > 0.0 && sendTimer >= 0.0
    requires forall i :: 0 <= i < |deltaTimes| ==> deltaTimes[i] >= 0.0
    ensures FramesDue(sendTimer, deltaTimes, fps) as real <= (sendTimer + Sum(deltaTimes)) * fps
  {
    FramesDueWithinElapsed(sendTimer, deltaTimes, fps);
    PeriodsToRate(FramesDue(sendTimer, deltaTimes, fps) as real, sendTimer + Sum(deltaTimes), fps);
  }

  /** `n` periods of `1/fps` fit in `elapsed` exactly when `n <= elapsed * fps`. */
  lemma PeriodsToRate(n: real, elapsed: real, fps: real)
    requires fps > 0.0 && n * (1.0 / fps) <= elapsed
    ensures n <= elapsed * fps
  {
    var period := 1.0 / fps;
    ScaleMonotonic(elapsed, n * period, fps);
    assert period * fps == 1.0;
    assert n * period * fps == n * (period * fps);
  }

  lemma ScaleMonotonic(a: real, b: real, c: real)
    requires a >= b && c > 0.0
    ensures a * c >= b * c
  {
  }

  /** `SendCurrentFrame` goes on only for a camera texture that exists and has a non-zero size. */
  predicate IsUsable(cam: Option<CameraTexture>)
  {
    cam.Some? && cam.value.width != 0 && cam.value.height != 0
  }

  /** The text `Encoding.UTF8.GetString(data, offset, length)` yields, or None when it throws or fails. */
  function DecodeRange(decodeUtf8: seq<uint8> -> Option<string>, data: seq<uint8>, offset: int, length: int): (r: Option<string>)
    ensures r.Some? ==> 0 <= offset && 0 <= length && offset + length <= |data|
  {
    if offset < 0 || length < 0 || offset + length > |data| then None
    else decodeUtf8(data[offset..offset + length])
  }

  /** `frameTex != null && frameTex.width == cam.width && frameTex.height == cam.height`. */
  predicate SizedLike(tex: Texture2D?, cam: CameraTexture)
  {
    tex != null && tex.width == cam.width && tex.height == cam.height
  }

  class ImageSender {
    /** Inspector settings and the engine objects the component was given. */
    const wsUrl: string
    const fps: real
    const transform: Transform
    /** `float.TryParse` and the UTF-8 decoder, which this model does not define. */
    const parse: string -> Option<real>
    const decodeUtf8: seq<uint8> -> Option<string>

    var websocket: Option<WebSocket>
    var frameTex: Texture2D?
    var sendTimer: real
    /** The calls made on the current and earlier sockets, in order. */
    ghost var calls: seq<SocketCall>
    /** Sockets that `Connect` replaced without closing them. */
    ghost var replaced: seq<WebSocket>

    /**
     * The scratch texture, once allocated, has the non-zero size of a camera
     * frame. The socket held is one made for `wsUrl` with the message handler
     * subscribed, and so is every socket it replaced: nothing unsubscribes them.
     */
    ghost predicate Valid()
      reads this
    {
      && (frameTex != null ==> frameTex.width > 0 && frameTex.height > 0)
      && (websocket.Some? ==> websocket.value.url == wsUrl && websocket.value.messageHandlerRegistered)
      && (forall k :: 0 <= k < |replaced| ==> replaced[k].messageHandlerRegistered)
    }

    constructor (wsUrl: string, fps: real, transform: Transform,
                 parse: string -> Option<real>, decodeUtf8: seq<uint8> -> Option<string>)
      ensures Valid()
      ensures this.wsUrl == wsUrl && this.fps == fps && this.transform == transform
      ensures this.parse == parse && this.decodeUtf8 == decodeUtf8
      ensures websocket == None && frameTex == null && sendTimer == 0.0
      ensures calls == [] && replaced == []
    {
      this.wsUrl, this.fps, this.transform := wsUrl, fps, transform;
      this.parse, this.decodeUtf8 := parse, decodeUtf8;
      websocket, frameTex, sendTimer := None, null, 0.0;
      calls, replaced := [], [];
    }

    /**
     * One engine frame: with no open socket nothing happens, the timer
     * included; otherwise the timer advances and, once it reaches the
     * period, is reset and one frame is sent.
     */
    method Update(deltaTime: real, cam: Option<CameraTexture>, jpg: seq<uint8>)
      requires Valid()
      modifies this
      ensures Valid()
      ensures websocket == old(websocket) && replaced == old(replaced)
      ensures !IsOpen(old(websocket)) ==>
        sendTimer == old(sendTimer) && calls == old(calls) && frameTex == old(frameTex)
      ensures IsOpen(old(websocket)) ==>
        var (t, due) := TimerTick(old(sendTimer), deltaTime, fps);
        && sendTimer == t
        && calls == old(calls) + (if due && IsUsable(cam) then [SendBinary(jpg)] else [])
        && (due && IsUsable(cam) ==>
              frameTex != null && frameTex.width == cam.value.width && frameTex.height == cam.value.height)
        && (due && IsUsable(cam) && SizedLike(old(frameTex), cam.value) ==> frameTex == old(frameTex))
        && (due && IsUsable(cam) && !SizedLike(old(frameTex), cam.value) ==> fresh(frameTex))
        && (!(due && IsUsable(cam)) ==> frameTex == old(frameTex))
      ensures |calls| <= |old(calls)| + 1
    {
      if websocket.None? || websocket.value.state != Open {
        return;
      }
      sendTimer := sendTimer + deltaTime;
      if fps != 0.0 && sendTimer >= 1.0 / fps {
        sendTimer := 0.0;
        SendCurrentFrame(cam, jpg);
      }
    }

    /**
     * Copies the camera frame into the scratch texture, reallocating it only
     * when it is missing or its size differs from the camera's, and sends
     * the JPEG bytes if the socket is open.
     */
    method SendCurrentFrame(cam: Option<CameraTexture>, jpg: seq<uint8>)
      requires Valid()
      modifies this
      ensures Valid()
      ensures websocket == old(websocket) && sendTimer == old(sendTimer) && replaced == old(replaced)
      ensures !IsUsable(cam) ==> frameTex == old(frameTex) && calls == old(calls)
      ensures IsUsable(cam) ==>
        && frameTex != null && frameTex.width == cam.value.width && frameTex.height == cam.value.height
        && calls == old(calls) + (if IsOpen(websocket) then [SendBinary(jpg)] else [])
      ensures IsUsable(cam) && SizedLike(old(frameTex), cam.value) ==> frameTex == old(frameTex)
      ensures IsUsable(cam) && !SizedLike(old(frameTex), cam.value) ==> frameTex != null && fresh(frameTex)
    {
      if cam.None? || cam.value.width == 0 || cam.value.height == 0 {
        return;
      }
      var c := cam.value;
      if frameTex == null || frameTex.width != c.width || frameTex.height != c.height {
        frameTex := new Texture2D(c.width, c.height);
      }
      // SetPixels, Apply and EncodeToJPG(80) produce `jpg`.
      if websocket.None? || websocket.value.state != Open {
        return;
      }
      calls := calls + [SendBinary(jpg)];
    }

    /** The handler subscribed to `OnMessage`: a payload that cannot be decoded changes nothing. */
    method OnMessageReceived(data: seq<uint8>, offset: int, length: int)
      modifies transform
      ensures DecodeRange(decodeUtf8, data, offset, length).None? ==>
        transform.writes == old(transform.writes)
        && transform.position == old(transform.position) && transform.rotation == old(transform.rotation)
      ensures DecodeRange(decodeUtf8, data, offset, length).Some? ==>
        var msg := DecodeRange(decodeUtf8, data, offset, length).value;
        && transform.position == SinkPosition
        && transform.rotation == ParseMessage(parse, msg).rotation
        && transform.writes == old(transform.writes) + [Pose(SinkPosition, ParseMessage(parse, msg).rotation)]
    {
      if offset < 0 || length < 0 || offset + length > |data| {
        return;
      }
      var msg := decodeUtf8(data[offset..offset + length]);
      if msg.None? {
        return;
      }
      ApplyTransformMessage(msg.value);
    }

    /**
     * Parses the message line by line and writes the sink once: the
     * rotation from the last `R` record (the identity if there is none) and
     * always the position `SinkPosition`.
     */
    method ApplyTransformMessage(msg: string)
      modifies transform
      ensures transform.position == SinkPosition
      ensures transform.rotation == ParseMessage(parse, msg).rotation
      ensures transform.writes == old(transform.writes) + [Pose(SinkPosition, ParseMessage(parse, msg).rotation)]
    {
      var lines := Lines(msg);
      var position := Vec3(0.0, 0.0, 0.0);
      var rotation := Identity;
      for i := 0 to |lines|
        modifies {}
        invariant Pose(position, rotation) == ParseRecords(parse, Records(lines[..i]))
      {
        RecordsExtend(parse, lines, i);
        position, rotation := ReadLine(parse, lines[i], position, rotation);
      }
      assert lines[..|lines|] == lines;
      transform.SetPositionAndRotation(SinkPosition, rotation);
    }

    /**
     * Makes a new socket for `wsUrl`, subscribes the message handler and
     * starts connecting. A socket already held is not closed: it is kept,
     * handler and all, in `replaced`.
     */
    method Connect()
      requires Valid()
      modifies this
      ensures Valid()
      ensures websocket == Some(WebSocket(wsUrl, Connecting, true))
      ensures replaced == old(replaced) + (if old(websocket).Some? then [old(websocket).value] else [])
      ensures calls == old(calls) + [ConnectCall(wsUrl)]
      ensures frameTex == old(frameTex) && sendTimer == old(sendTimer)
    {
      if websocket.Some? {
        replaced := replaced + [websocket.value];
      }
      websocket := Some(WebSocket(wsUrl, Connecting, true));
      calls := calls + [ConnectCall(wsUrl)];
    }

    /** The transport moves the current socket to a new state (opened, closing, closed, failed). */
    method SocketStateChanged(state: SocketState)
      requires Valid()
      modifies this
      ensures Valid()
      ensures websocket == if old(websocket).Some? then Some(old(websocket).value.(state := state)) else None
      ensures calls == old(calls) && replaced == old(replaced)
      ensures frameTex == old(frameTex) && sendTimer == old(sendTimer)
    {
      if websocket.Some? {
        websocket := Some(websocket.value.(state := state));
      }
    }

    /** The current socket delivers a message: it reaches the component only while the handler is subscribed. */
    method DeliverMessage(data: seq<uint8>, offset: int, length: int)
      requires Valid()
      modifies transform
      ensures (websocket.None? || DecodeRange(decodeUtf8, data, offset, length).None?) ==>
        transform.writes == old(transform.writes)
        && transform.position == old(transform.position) && transform.rotation == old(transform.rotation)
      ensures websocket.Some? && DecodeRange(decodeUtf8, data, offset, length).Some? ==>
        var msg := DecodeRange(decodeUtf8, data, offset, length).value;
        && transform.position == SinkPosition
        && transform.rotation == ParseMessage(parse, msg).rotation
        && transform.writes == old(transform.writes) + [Pose(SinkPosition, ParseMessage(parse, msg).rotation)]
    {
      if websocket.Some? && websocket.value.messageHandlerRegistered {
        OnMessageReceived(data, offset, length);
      }
    }

    /**
     * Unsubscribes the message handler, closes the socket if it is open
     * (a failing close is only logged) and drops it. With no socket it does
     * nothing.
     */
    method Disconnect()
      requires Valid()
      modifies this
      ensures Valid()
      ensures old(websocket).None? ==> websocket == None && calls == old(calls)
      ensures old(websocket).Some? ==>
        && websocket == None
        && calls == old(calls) + [RemoveMessageHandler]
             + (if old(websocket).value.state == Open then [CloseCall] else [])
      ensures frameTex == old(frameTex) && sendTimer == old(sendTimer) && replaced == old(replaced)
    {
      if websocket.None? {
        return;
      }
      websocket := Some(websocket.value.(messageHandlerRegistered := false));
      calls := calls + [RemoveMessageHandler];
      if websocket.value.state == Open {
        calls := calls + [CloseCall];
      }
      websocket := None;
    }
  }

  /**
   * One pass of the loop in `ApplyTransformMessage`: a `T` record with at
   * least three values sets the position, an `R` record the rotation, and
   * any other line leaves both as they were.
   */
  method ReadLine(parse: string -> Option<real>, line: string, position: Vec3, rotation: Rotation)
    returns (newPosition: Vec3, newRotation: Rotation)
    ensures Pose(newPosition, newRotation) == Step(parse, Pose(position, rotation), Classify(Tokens(line)))
  {
    newPosition, newRotation := position, rotation;
    var parts := Tokens(line);
    if |parts| == 0 {
      return;
    }
    if parts[0] == "T" && |parts| >= 4 {
      newPosition := newPosition.(x := ParseOrZero(parse, parts[1]));
      newPosition := newPosition.(y := ParseOrZero(parse, parts[2]));
      newPosition := newPosition.(z := ParseOrZero(parse, parts[3]));
    } else if parts[0] == "R" && |parts| >= 4 {
      var rx := ParseOrZero(parse, parts[1]);
      var ry := ParseOrZero(parse, parts[2]);
      var rz := ParseOrZero(parse, parts[3]);
      newRotation := EulerRadians(rx, ry, rz);
    }
  }

  /** One more line adds its record to the end. */
  lemma RecordsExtend(parse: string -> Option<real>, lines: seq<string>, i: nat)
    requires i < |lines|
    ensures ParseRecords(parse, Records(lines[..i + 1]))
      == Step(parse, ParseRecords(parse, Records(lines[..i])), Classify(Tokens(lines[i])))
  {
    var r := Records(lines[..i + 1]);
    assert lines[..i + 1][..i] == lines[..i];
    assert r == Records(lines[..i]) + [Classify(Tokens(lines[i]))];
    assert r[..i] == Records(lines[..i]);
  }
}
