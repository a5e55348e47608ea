/** The wire format byte by byte: numbers, offsets and order, independently of the encoders. */
module WireFormat {
  import opened Basics
  import opened Names
  import opened Wire

  // ---- Integers and lists ----

  /** Integers are written with their most significant byte first. */
  lemma {:induction false} MostSignificantFirst(s: Bytes)
    requires s != []
    ensures BeValue(s) == s[0] * Pow256(|s| - 1) + BeValue(s[1..])
  {
    var n := |s| - 1;
    if n > 0 {
      MostSignificantFirst(s[..n]);
      assert s[..n][1..] == s[1..][..n - 1];
      assert BeValue(s[1..]) == 256 * BeValue(s[1..][..n - 1]) + s[n];
    }
  }

  /** Entries follow each other in the order of the list. */
  lemma {:induction false} EntriesInOrder<T>(field: T -> Bytes, front: seq<T>, item: T)
    ensures Fields(field, front + [item]) == Fields(field, front) + field(item)
  {
    if front == [] {
      assert [] + [item] == [item] && [item][1..] == [];
    } else {
      assert (front + [item])[1..] == front[1..] + [item];
      EntriesInOrder(field, front[1..], item);
    }
  }

  // ---- Frames ----

  /** The number of each request on the wire. */
  function RequestNumber(request: Request): byte {
    match request
    case Create(_) => 1
    case List => 2
    case Attach(_) => 3
    case Detach(_) => 4
    case Ping(_) => 5
    case Input(_) => 6
    case Resize(_, _) => 7
    case Command(_) => 8
    case Snapshot => 9
  }

  /** The number of each response: the request's with its high bit set, in the order they were introduced. */
  function ResponseNumber(response: Response): byte {
    match response
    case Created(_) => 129
    case Sessions(_) => 130
    case Attached(_) => 131
    case Detached(_) => 132
    case Pong(_) => 133
    case Screen(_) => 134
    case Error(_, _) => 255
  }

  /** `NVMX`, version 1, a message number and the big-endian length of the payload; at most 8192 bytes in all. */
  predicate IsFrame(bytes: Bytes, number: byte, payload: Bytes) {
    && 10 <= |bytes| <= 8192
    && bytes[0] == 'N' as int && bytes[1] == 'V' as int && bytes[2] == 'M' as int && bytes[3] == 'X' as int
    && bytes[4] == 1 && bytes[5] == number && BeValue(bytes[6..10]) == |payload| && bytes[10..] == payload
  }

  lemma FramedIsFrame(kind: byte, payload: Bytes)
    requires 10 + |payload| <= 8192
    ensures Framed(kind, payload).Success? && IsFrame(Framed(kind, payload).value, kind, payload)
  {
    var bytes := Framed(kind, payload).value;
    HeaderShape(kind, |payload|);
    assert bytes[..10] == Header(kind, |payload|);
    assert bytes[..4] == bytes[..10][..4] && bytes[6..10] == bytes[..10][6..10];
    MagicSpells(bytes);
  }

  lemma MagicSpells(bytes: Bytes)
    requires |bytes| >= 4
    ensures bytes[..4] == MAGIC <==>
            bytes[0] == 'N' as int && bytes[1] == 'V' as int && bytes[2] == 'M' as int && bytes[3] == 'X' as int
  {
    assert bytes[..4] == [bytes[0], bytes[1], bytes[2], bytes[3]];
  }

  /** Exactly the frames unframe, to their number and payload. */
  lemma UnframesIff(bytes: Bytes, number: byte, payload: Bytes)
    ensures Unframe(bytes) == Success((number, payload)) <==> IsFrame(bytes, number, payload)
  {
    if |bytes| >= 10 {
      MagicSpells(bytes);
    }
  }

  /** Why bytes do not unframe; the declared length is judged before the payload has arrived. */
  lemma UnframeFails(bytes: Bytes)
    ensures |bytes| < 10 ==> Unframe(bytes) == Failure(Truncated)
    ensures |bytes| >= 10 ==>
              var declared := BeValue(bytes[6..10]);
              && (bytes[..4] != MAGIC <==> Unframe(bytes) == Failure(InvalidMagic))
              && (bytes[..4] == MAGIC && bytes[4] != 1 <==> Unframe(bytes) == Failure(UnsupportedVersion(bytes[4])))
              && (bytes[..4] == MAGIC && bytes[4] == 1 ==>
                    && (10 + declared > 8192 <==> Unframe(bytes) == Failure(FrameTooLarge))
                    && (|bytes| < 10 + declared <= 8192 <==> Unframe(bytes) == Failure(Truncated))
                    && (10 + declared <= 8192 && 10 + declared < |bytes| <==> Unframe(bytes) == Failure(TrailingBytes)))
  {
  }

  // ---- Fields ----

  predicate IsName(bytes: Bytes, name: SessionName) {
    |bytes| == 1 + |name| && bytes[0] == |name| && bytes[1..] == name
  }

  predicate IsText(bytes: Bytes, text: Bytes) {
    |bytes| == 2 + |text| && BeValue(bytes[..2]) == |text| && bytes[2..] == text
  }

  lemma BytesFieldIsText(text: Bytes)
    requires |text| <= U16_MAX
    ensures IsText(BytesField(text), text)
  {
    Widths();
    BeBytesInverse(|text|, 2);
    assert BytesField(text)[..2] == BeBytes(|text|, 2);
  }

  lemma RectOnTheWire(x: u16, y: u16, width: u16, height: u16)
    ensures var f := RectField(x, y, width, height);
            && |f| == 8 && BeValue(f[..2]) == x && BeValue(f[2..4]) == y && BeValue(f[4..6]) == width
            && BeValue(f[6..]) == height
  {
    var f := RectField(x, y, width, height);
    var a, b, c, d := BeBytes(x, 2), BeBytes(y, 2), BeBytes(width, 2), BeBytes(height, 2);
    assert f[..2] == a && f[2..4] == b && f[4..6] == c && f[6..] == d;
    Widths();
    BeBytesInverse(x, 2);
    BeBytesInverse(y, 2);
    BeBytesInverse(width, 2);
    BeBytesInverse(height, 2);
  }

  /** A pane: identifier, column, row, width and height, the focus mark, and the text with its length before it. */
  lemma PaneOnTheWire(pane: PaneSnapshot)
    requires |pane.text| <= U16_MAX
    ensures var f := PaneField(pane);
            && |f| == 19 + |pane.text| && BeValue(f[..8]) == pane.id
            && f[8..16] == RectField(pane.x, pane.y, pane.width, pane.height)
            && f[16] == (if pane.focused then 1 else 0) && IsText(f[17..], pane.text)
  {
    var f := PaneField(pane);
    Widths();
    BeBytesInverse(pane.id, 8);
    BytesFieldIsText(pane.text);
    assert f[..8] == BeBytes(pane.id, 8);
    assert f[8..16] == RectField(pane.x, pane.y, pane.width, pane.height);
    assert f[17..] == BytesField(pane.text);
  }

  /** A session: its name and the number of its clients. */
  lemma SessionOnTheWire(session: SessionInfo)
    ensures var f, n := SessionField(session), |session.name|;
            && |f| == 3 + n && IsName(f[..1 + n], session.name) && BeValue(f[1 + n..]) == session.attachedClients
  {
    var f, n := SessionField(session), |session.name|;
    Widths();
    BeBytesInverse(session.attachedClients, 2);
    assert f[..1 + n] == NameField(session.name) && f[1 + n..] == BeBytes(session.attachedClients, 2);
  }

  function CodeNumber(code: ErrorCode): byte {
    match code
    case AlreadyExists => 1
    case NotFound => 2
    case PermissionDenied => 3
    case Conflict => 4
    case Internal => 5
  }

  // ---- Messages ----

  /** The payload of each request. */
  predicate IsRequestPayload(payload: Bytes, request: Request) {
    match request
    case Create(name) => IsName(payload, name)
    case List => payload == []
    case Attach(name) => IsName(payload, name)
    case Detach(name) => IsName(payload, name)
    case Ping(nonce) => |payload| == 8 && BeValue(payload) == nonce
    case Input(bytes) => IsText(payload, bytes)
    case Resize(cols, rows) => |payload| == 4 && BeValue(payload[..2]) == cols && BeValue(payload[2..]) == rows
    case Command(command) => payload == [command]
    case Snapshot => payload == []
  }

  lemma RequestPayloadIs(request: Request)
    requires request.Input? ==> |request.bytes| <= U16_MAX
    ensures IsRequestPayload(RequestPayload(request), request)
  {
    Widths();
    match request
    case Ping(nonce) => BeBytesInverse(nonce, 8);
    case Input(bytes) => BytesFieldIsText(bytes);
    case Resize(cols, rows) =>
      BeBytesInverse(cols, 2);
      BeBytesInverse(rows, 2);
      assert RequestPayload(request)[..2] == BeBytes(cols, 2) && RequestPayload(request)[2..] == BeBytes(rows, 2);
    case _ =>
  }

  /** Every encoded request is a frame with the request's number and payload. */
  lemma RequestOnTheWire(request: Request)
    requires EncodedRequest(request).Success?
    ensures exists payload ::
              IsFrame(EncodedRequest(request).value, RequestNumber(request), payload)
              && IsRequestPayload(payload, request)
  {
    FramedIsFrame(RequestKind(request), RequestPayload(request));
    RequestPayloadIs(request);
  }

  /** The payload of each response; the entries of a list are its fields in order, after their count. */
  predicate IsResponsePayload(payload: Bytes, response: Response) {
    match response
    case Created(name) => IsName(payload, name)
    case Sessions(sessions) =>
      payload != [] && payload[0] == |sessions| && payload[1..] == Fields(SessionField, sessions)
    case Attached(name) => IsName(payload, name)
    case Detached(name) => IsName(payload, name)
    case Pong(nonce) => |payload| == 8 && BeValue(payload) == nonce
    case Screen(panes) => payload != [] && payload[0] == |panes| && payload[1..] == Fields(PaneField, panes)
    case Error(code, message) => payload != [] && payload[0] == CodeNumber(code) && IsText(payload[1..], message)
  }

  lemma ResponsePayloadIs(response: Response)
    requires Representable(response)
    ensures IsResponsePayload(ResponsePayload(response), response)
  {
    Widths();
    match response
    case Pong(nonce) => BeBytesInverse(nonce, 8);
    case Error(code, message) =>
      BytesFieldIsText(message);
      assert ResponsePayload(response)[1..] == BytesField(message);
    case _ =>
  }

  /** Every encoded response is a frame with the response's number and payload. */
  lemma ResponseOnTheWire(response: Response)
    requires EncodedResponse(response).Success?
    ensures exists payload ::
              IsFrame(EncodedResponse(response).value, ResponseNumber(response), payload)
              && IsResponsePayload(payload, response)
  {
    FramedIsFrame(ResponseKind(response), ResponsePayload(response));
    ResponsePayloadIs(response);
  }
}
