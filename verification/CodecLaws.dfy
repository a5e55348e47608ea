/** What the wire form promises: it is a bijection, it is bounded, and frames delimit themselves. */
module CodecLaws {
  import opened Basics
  import opened Wire
  import Utf8

  // ---- Requests ----

  /** Every request has a wire form except input over its cap. */
  lemma RequestEncodable(request: Request)
    ensures EncodedRequest(request).Success? <==> (request.Input? ==> |request.bytes| <= MAX_INPUT_BYTES)
    ensures EncodedRequest(request).Failure? ==> EncodedRequest(request).error == InvalidLength
  {
  }

  lemma RequestReads(request: Request)
    requires request.Input? ==> |request.bytes| <= MAX_INPUT_BYTES
    ensures ReadRequest(RequestKind(request), RequestPayload(request)) == Success((request, []))
  {
    var payload := RequestPayload(request);
    assert payload + [] == payload;
    match request
    case Create(name) => NameReads(name, []);
    case List =>
    case Attach(name) => NameReads(name, []);
    case Detach(name) => NameReads(name, []);
    case Ping(nonce) => U64Reads(nonce, []);
    case Input(bytes) => BytesReads(bytes, MAX_INPUT_BYTES, []);
    case Resize(cols, rows) =>
      U16Reads(cols, BeBytes(rows, 2));
      U16Reads(rows, []);
      assert BeBytes(rows, 2) + [] == BeBytes(rows, 2);
    case Command(command) =>
    case Snapshot =>
  }

  /** Every encodable request decodes back to itself. */
  lemma RequestRoundTrip(request: Request)
    requires EncodedRequest(request).Success?
    ensures DecodedRequest(EncodedRequest(request).value) == Success(request)
  {
    UnframeFramed(RequestKind(request), RequestPayload(request));
    RequestReads(request);
  }

  lemma ReadRequestCanonical(kind: byte, s: Bytes)
    requires ReadRequest(kind, s).Success? && ReadRequest(kind, s).value.1 == []
    ensures var request := ReadRequest(kind, s).value.0;
            && RequestKind(request) == kind && RequestPayload(request) == s
            && (request.Input? ==> |request.bytes| <= MAX_INPUT_BYTES)
  {
    if kind == CREATE || kind == ATTACH || kind == DETACH {
      ReadNameCanonical(s);
    } else if kind == PING {
      ReadU64Canonical(s);
    } else if kind == INPUT {
      ReadBytesCanonical(s, MAX_INPUT_BYTES);
    } else if kind == RESIZE {
      ReadU16Canonical(s);
      ReadU16Canonical(ReadU16(s).value.1);
    }
  }

  /** Every byte string that decodes is the one encoding of what it decodes to. */
  lemma RequestCanonical(bytes: Bytes)
    requires DecodedRequest(bytes).Success?
    ensures EncodedRequest(DecodedRequest(bytes).value) == Success(bytes)
  {
    FramedUnframe(bytes);
    var (kind, payload) := Unframe(bytes).value;
    ReadRequestCanonical(kind, payload);
  }

  // ---- Responses ----

  function TextBytes(panes: seq<PaneSnapshot>): nat {
    if panes == [] then 0 else |panes[0].text| + TextBytes(panes[1..])
  }

  lemma {:induction false} PaneFieldsLength(panes: seq<PaneSnapshot>)
    ensures |Fields(PaneField, panes)| == 19 * |panes| + TextBytes(panes)
    ensures forall i | 0 <= i < |panes| :: |panes[i].text| <= TextBytes(panes)
  {
    if panes != [] {
      PaneFieldsLength(panes[1..]);
      assert |PaneField(panes[0])| == 19 + |panes[0].text|;
      assert forall i | 0 < i < |panes| :: panes[i] == panes[1..][i - 1];
    }
  }

  lemma {:induction false} SessionFieldsLength(sessions: seq<SessionInfo>)
    ensures |Fields(SessionField, sessions)| <= 67 * |sessions|
  {
    if sessions != [] {
      SessionFieldsLength(sessions[1..]);
    }
  }

  /** Which responses fit: at most 64 sessions, at most 32 panes within the frame, messages of at most 256 bytes. */
  lemma ResponseEncodable(response: Response)
    ensures EncodedResponse(response).Success? <==>
            match response
            case Sessions(sessions) => |sessions| <= MAX_LISTED_SESSIONS
            case Screen(panes) =>
              |panes| <= MAX_SNAPSHOT_PANES && 11 + 19 * |panes| + TextBytes(panes) <= MAX_FRAME_BYTES
            case Error(_, message) => |message| <= MAX_ERROR_MESSAGE_BYTES
            case _ => true
  {
    match response
    case Sessions(sessions) => SessionFieldsLength(sessions);
    case Screen(panes) => PaneFieldsLength(panes);
    case _ =>
  }

  lemma ListingReads(sessions: seq<SessionInfo>)
    requires |sessions| <= MAX_LISTED_SESSIONS
    ensures ReadListing([|sessions|] + Fields(SessionField, sessions)) == Success((Sessions(sessions), []))
  {
    forall session, rest | session in sessions
      ensures ReadSession(SessionField(session) + rest) == Success((session, rest))
    {
      SessionReads(session, rest);
    }
    CountedRead(ReadSession, SessionField, MAX_LISTED_SESSIONS, sessions);
  }

  lemma ScreenReads(panes: seq<PaneSnapshot>)
    requires |panes| <= MAX_SNAPSHOT_PANES && forall i | 0 <= i < |panes| :: |panes[i].text| <= MAX_FRAME_BYTES
    ensures ReadScreen([|panes|] + Fields(PaneField, panes)) == Success((Screen(panes), []))
  {
    forall pane, rest | pane in panes
      ensures ReadPane(PaneField(pane) + rest) == Success((pane, rest))
    {
      PaneReads(pane, rest);
    }
    CountedRead(ReadPane, PaneField, MAX_SNAPSHOT_PANES, panes);
  }

  lemma ErrorReads(code: ErrorCode, message: Utf8.Text)
    requires |message| <= MAX_ERROR_MESSAGE_BYTES
    ensures ReadError([CodeByte(code)] + BytesField(message)) == Success((Error(code, message), []))
  {
    BytesReads(message, MAX_ERROR_MESSAGE_BYTES, []);
    assert ([CodeByte(code)] + BytesField(message))[1..] == BytesField(message) + [];
  }

  lemma PlainReads(response: Response)
    requires response.Created? || response.Attached? || response.Detached? || response.Pong?
    ensures ReadResponse(ResponseKind(response), ResponsePayload(response)) == Success((response, []))
  {
    var payload := ResponsePayload(response);
    assert payload + [] == payload;
    if response.Pong? {
      U64Reads(response.nonce, []);
    } else {
      NameReads(response.name, []);
    }
  }

  lemma ListingResponseReads(sessions: seq<SessionInfo>)
    requires |sessions| <= MAX_LISTED_SESSIONS
    ensures ReadResponse(SESSIONS, ResponsePayload(Sessions(sessions))) == Success((Sessions(sessions), []))
  {
    ListingReads(sessions);
  }

  lemma ScreenTextsFit(panes: seq<PaneSnapshot>)
    requires HEADER_BYTES + 1 + |Fields(PaneField, panes)| <= MAX_FRAME_BYTES
    ensures forall i | 0 <= i < |panes| :: |panes[i].text| <= MAX_FRAME_BYTES
  {
    PaneFieldsLength(panes);
  }

  lemma ScreenResponseReads(panes: seq<PaneSnapshot>)
    requires |panes| <= MAX_SNAPSHOT_PANES && TextsFit(panes)
    requires forall i | 0 <= i < |panes| :: |panes[i].text| <= MAX_FRAME_BYTES
    ensures ReadResponse(SCREEN, ResponsePayload(Screen(panes))) == Success((Screen(panes), []))
  {
    ScreenReads(panes);
    ReadsAsScreen([|panes|] + Fields(PaneField, panes));
  }

  lemma ReadsAsScreen(payload: Bytes)
    ensures ReadResponse(SCREEN, payload) == ReadScreen(payload)
  {
  }

  lemma ErrorResponseReads(code: ErrorCode, message: Utf8.Text)
    requires |message| <= MAX_ERROR_MESSAGE_BYTES
    ensures ReadResponse(ERROR, ResponsePayload(Error(code, message))) == Success((Error(code, message), []))
  {
    ErrorReads(code, message);
  }

  lemma ResponseReads(response: Response)
    requires Representable(response) && HEADER_BYTES + |ResponsePayload(response)| <= MAX_FRAME_BYTES
    ensures ReadResponse(ResponseKind(response), ResponsePayload(response)) == Success((response, []))
  {
    match response
    case Sessions(sessions) => ListingResponseReads(sessions);
    case Screen(panes) =>
      ScreenTextsFit(panes);
      ScreenResponseReads(panes);
    case Error(code, message) => ErrorResponseReads(code, message);
    case _ => PlainReads(response);
  }

  /** Every encodable response decodes back to itself. */
  lemma ResponseRoundTrip(response: Response)
    requires EncodedResponse(response).Success?
    ensures DecodedResponse(EncodedResponse(response).value) == Success(response)
  {
    UnframeFramed(ResponseKind(response), ResponsePayload(response));
    ResponseReads(response);
  }

  lemma ReadResponseCanonical(kind: byte, s: Bytes)
    requires ReadResponse(kind, s).Success? && ReadResponse(kind, s).value.1 == []
    ensures var response := ReadResponse(kind, s).value.0;
            ResponseKind(response) == kind && Representable(response) && ResponsePayload(response) == s
  {
    if kind == CREATED || kind == ATTACHED || kind == DETACHED {
      ReadNameCanonical(s);
    } else if kind == SESSIONS {
      ReadersAreCanonical();
      ReadCountedCanonical(ReadSession, SessionField, MAX_LISTED_SESSIONS, s);
    } else if kind == PONG {
      ReadU64Canonical(s);
    } else if kind == SCREEN {
      ReadersAreCanonical();
      ReadCountedCanonical(ReadPane, PaneField, MAX_SNAPSHOT_PANES, s);
      PanesReadAreSmall(s[0], s[1..]);
    } else if kind == ERROR {
      ReadBytesCanonical(s[1..], MAX_ERROR_MESSAGE_BYTES);
      assert s == [s[0]] + s[1..];
    }
  }

  lemma {:induction false} EachRead<T(!new)>(read: Bytes -> Parsed<T>, ok: T -> bool, count: nat, s: Bytes)
    requires forall r {:trigger read(r)} :: read(r).Success? ==> ok(read(r).value.0)
    requires ReadMany(read, count, s).Success?
    ensures forall item | item in ReadMany(read, count, s).value.0 :: ok(item)
  {
    if count > 0 {
      EachRead(read, ok, count - 1, read(s).value.1);
    }
  }

  lemma PanesReadAreSmall(count: nat, s: Bytes)
    requires ReadMany(ReadPane, count, s).Success?
    ensures forall pane | pane in ReadMany(ReadPane, count, s).value.0 :: |pane.text| <= MAX_FRAME_BYTES
  {
    var small := (pane: PaneSnapshot) => |pane.text| <= MAX_FRAME_BYTES;
    EachRead(ReadPane, small, count, s);
    assert forall pane | pane in ReadMany(ReadPane, count, s).value.0 :: small(pane);
  }

  /** Every byte string that decodes is the one encoding of what it decodes to. */
  lemma ResponseCanonical(bytes: Bytes)
    requires DecodedResponse(bytes).Success?
    ensures EncodedResponse(DecodedResponse(bytes).value) == Success(bytes)
  {
    FramedUnframe(bytes);
    var (kind, payload) := Unframe(bytes).value;
    ReadResponseCanonical(kind, payload);
  }

  /** The two directions never mistake each other's messages: what one reads is of a type unknown to the other. */
  lemma RequestIsNoResponse(bytes: Bytes)
    requires DecodedRequest(bytes).Success?
    ensures DecodedResponse(bytes) == Failure(UnknownMessageType(RequestKind(DecodedRequest(bytes).value)))
  {
    ReadRequestCanonical(Unframe(bytes).value.0, Unframe(bytes).value.1);
  }

  lemma ResponseIsNoRequest(bytes: Bytes)
    requires DecodedResponse(bytes).Success?
    ensures DecodedRequest(bytes) == Failure(UnknownMessageType(ResponseKind(DecodedResponse(bytes).value)))
  {
    ReadResponseCanonical(Unframe(bytes).value.0, Unframe(bytes).value.1);
  }

  // ---- Framing ----

  /** A frame cut short anywhere is reported as truncated... */
  lemma PrefixIsTruncated(bytes: Bytes, k: nat)
    requires Unframe(bytes).Success? && k < |bytes|
    ensures DecodedRequest(bytes[..k]) == Failure(Truncated)
    ensures DecodedResponse(bytes[..k]) == Failure(Truncated)
  {
    if k >= HEADER_BYTES {
      assert bytes[..k][..4] == bytes[..4];
      assert bytes[..k][6..10] == bytes[6..10];
    }
  }

  /** ...and a frame with anything after it as having trailing bytes. */
  lemma ExtensionIsTrailing(bytes: Bytes, extra: Bytes)
    requires Unframe(bytes).Success? && extra != []
    ensures DecodedRequest(bytes + extra) == Failure(TrailingBytes)
    ensures DecodedResponse(bytes + extra) == Failure(TrailingBytes)
  {
    assert (bytes + extra)[..4] == bytes[..4];
    assert (bytes + extra)[6..10] == bytes[6..10];
  }

  datatype StreamError = Eof | Oversized

  /** `read_frame`: one frame off the front of a byte stream. */
  function NextFrame(stream: Bytes): (r: Result<(Bytes, Bytes), StreamError>)
    ensures r.Success? ==> stream == r.value.0 + r.value.1 && |r.value.0| >= HEADER_BYTES
  {
    if |stream| < HEADER_BYTES then Failure(Eof)
    else
      var total := HEADER_BYTES + BeValue(stream[6..10]);
      if total > MAX_FRAME_BYTES then Failure(Oversized)
      else if |stream| < total then Failure(Eof)
      else Success((stream[..total], stream[total..]))
  }

  /** A frame that was read has the length it declares, so decoding it never fails on its length. */
  lemma ReadFrameIsWhole(stream: Bytes)
    requires NextFrame(stream).Success?
    ensures var frame := NextFrame(stream).value.0;
            && Unframe(frame) != Failure(Truncated)
            && Unframe(frame) != Failure(TrailingBytes)
            && Unframe(frame) != Failure(FrameTooLarge)
  {
    var frame := NextFrame(stream).value.0;
    assert frame[6..10] == stream[6..10];
  }

  lemma FrameThenRest(frame: Bytes, rest: Bytes)
    requires Unframe(frame).Success?
    ensures NextFrame(frame + rest) == Success((frame, rest))
  {
    assert (frame + rest)[6..10] == frame[6..10];
    assert (frame + rest)[..|frame|] == frame && (frame + rest)[|frame|..] == rest;
  }

  /** Reads frames until the stream ends. */
  function AllFrames(stream: Bytes): Result<seq<Bytes>, StreamError>
    decreases |stream|
  {
    if stream == [] then Success([])
    else
      var (frame, rest) :- NextFrame(stream);
      var frames :- AllFrames(rest);
      Success([frame] + frames)
  }

  function Joined(frames: seq<Bytes>): Bytes {
    if frames == [] then [] else frames[0] + Joined(frames[1..])
  }

  /** Any list of frames sent one after the other is read back as that list. */
  lemma {:induction false} StreamIsSelfDelimiting(frames: seq<Bytes>)
    requires forall i | 0 <= i < |frames| :: Unframe(frames[i]).Success?
    ensures AllFrames(Joined(frames)) == Success(frames)
  {
    if frames != [] {
      FrameThenRest(frames[0], Joined(frames[1..]));
      StreamIsSelfDelimiting(frames[1..]);
      assert [frames[0]] + frames[1..] == frames;
    }
  }

  /** Whatever list of frames a stream is read as joins back to that stream. */
  lemma {:induction false} FramesJoinBack(stream: Bytes)
    requires AllFrames(stream).Success?
    ensures Joined(AllFrames(stream).value) == stream
    decreases |stream|
  {
    if stream != [] {
      var (frame, rest) := NextFrame(stream).value;
      FramesJoinBack(rest);
      assert ([frame] + AllFrames(rest).value)[1..] == AllFrames(rest).value;
    }
  }

  /** The requests of a connection, encoded one after the other. */
  function RequestStream(requests: seq<Request>): Bytes
    requires forall i | 0 <= i < |requests| :: EncodedRequest(requests[i]).Success?
  {
    if requests == [] then [] else EncodedRequest(requests[0]).value + RequestStream(requests[1..])
  }

  /** `read_request`, repeated until the stream ends or a frame is unreadable. */
  function ReceivedRequests(stream: Bytes): seq<Request>
    decreases |stream|
  {
    match NextFrame(stream)
    case Failure(_) => []
    case Success((frame, rest)) =>
      match DecodedRequest(frame)
      case Failure(_) => []
      case Success(request) => [request] + ReceivedRequests(rest)
  }

  /** A connection receives exactly the requests its peer sent, in order, even if the stream is then cut. */
  lemma {:induction false} RequestsArrive(requests: seq<Request>, partial: Bytes)
    requires forall i | 0 <= i < |requests| :: EncodedRequest(requests[i]).Success?
    requires NextFrame(partial).Failure?
    ensures ReceivedRequests(RequestStream(requests) + partial) == requests
  {
    if requests == [] {
      assert RequestStream(requests) + partial == partial;
    } else {
      var frame := EncodedRequest(requests[0]).value;
      var rest := RequestStream(requests[1..]) + partial;
      RequestRoundTrip(requests[0]);
      FrameThenRest(frame, rest);
      RequestsArrive(requests[1..], partial);
      assert RequestStream(requests) + partial == frame + rest;
      assert [requests[0]] + requests[1..] == requests;
    }
  }
}
