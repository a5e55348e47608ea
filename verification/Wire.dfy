/** The session protocol: messages, their wire form and the grammar that reads them back. */
module Wire {
  import opened Basics
  import opened Names
  import Utf8

  const MAGIC: Bytes := ['N' as int, 'V' as int, 'M' as int, 'X' as int]
  const HEADER_BYTES: nat := 10
  const PROTOCOL_VERSION: byte := 1
  const MAX_FRAME_BYTES: nat := 8 * 1024
  const MAX_LISTED_SESSIONS: nat := 64
  const MAX_ERROR_MESSAGE_BYTES: nat := 256
  const MAX_INPUT_BYTES: nat := 4 * 1024
  const MAX_SNAPSHOT_PANES: nat := 32

  datatype Request =
    | Create(name: SessionName)
    | List
    | Attach(name: SessionName)
    | Detach(name: SessionName)
    | Ping(nonce: u64)
    | Input(bytes: Bytes)
    | Resize(cols: u16, rows: u16)
    | Command(command: byte)
    | Snapshot

  datatype PaneSnapshot = PaneSnapshot(
    id: u64, x: u16, y: u16, width: u16, height: u16, focused: bool, text: Utf8.Text)

  datatype SessionInfo = SessionInfo(name: SessionName, attachedClients: u16)

  datatype ErrorCode = AlreadyExists | NotFound | PermissionDenied | Conflict | Internal

  datatype Response =
    | Created(name: SessionName)
    | Sessions(sessions: seq<SessionInfo>)
    | Attached(name: SessionName)
    | Detached(name: SessionName)
    | Pong(nonce: u64)
    | Screen(panes: seq<PaneSnapshot>)
    | Error(code: ErrorCode, message: Utf8.Text)

  datatype DecodeError =
    | Truncated
    | InvalidMagic
    | UnsupportedVersion(version: byte)
    | UnknownMessageType(kind: byte)
    | FrameTooLarge
    | TrailingBytes
    | InvalidLength
    | InvalidUtf8
    | InvalidSessionName(reason: NameError)
    | UnknownErrorCode(code: byte)

  const CREATE: byte := 1
  const LIST: byte := 2
  const ATTACH: byte := 3
  const DETACH: byte := 4
  const PING: byte := 5
  const INPUT: byte := 6
  const RESIZE: byte := 7
  const COMMAND: byte := 8
  const SNAPSHOT: byte := 9
  const CREATED: byte := 0x81
  const SESSIONS: byte := 0x82
  const ATTACHED: byte := 0x83
  const DETACHED: byte := 0x84
  const PONG: byte := 0x85
  const SCREEN: byte := 0x86
  const ERROR: byte := 0xff

  // ---- Big-endian integers ----

  function Pow256(n: nat): nat {
    if n == 0 then 1 else 256 * Pow256(n - 1)
  }

  /** The `n` low-order bytes of `v`, most significant first. */
  function BeBytes(v: nat, n: nat): (r: Bytes)
    ensures |r| == n
  {
    if n == 0 then [] else BeBytes(v / 256, n - 1) + [v % 256]
  }

  function BeValue(s: Bytes): nat {
    if s == [] then 0 else 256 * BeValue(s[..|s| - 1]) + s[|s| - 1]
  }

  lemma {:induction false} BeBytesInverse(v: nat, n: nat)
    requires v < Pow256(n)
    ensures BeValue(BeBytes(v, n)) == v
  {
    if n > 0 {
      BeBytesInverse(v / 256, n - 1);
      assert BeBytes(v, n)[..n - 1] == BeBytes(v / 256, n - 1);
    }
  }

  lemma {:induction false} BeValueInverse(s: Bytes)
    ensures BeBytes(BeValue(s), |s|) == s && BeValue(s) < Pow256(|s|)
  {
    if s != [] {
      BeValueInverse(s[..|s| - 1]);
    }
  }

  lemma Widths()
    ensures Pow256(2) == U16_MAX + 1 && Pow256(4) == 0x1_0000_0000 && Pow256(8) == U64_MAX + 1
  {
    assert Pow256(1) == 256 && Pow256(2) == 0x1_0000 && Pow256(3) == 0x100_0000;
    assert Pow256(4) == 0x1_0000_0000 && Pow256(5) == 0x100_0000_0000 && Pow256(6) == 0x1_0000_0000_0000;
    assert Pow256(7) == 0x100_0000_0000_0000;
  }

  // ---- What each field looks like on the wire ----

  function NameField(name: SessionName): Bytes {
    [|name|] + name
  }

  function BytesField(bytes: Bytes): Bytes {
    BeBytes(|bytes|, 2) + bytes
  }

  function CodeByte(code: ErrorCode): byte {
    match code
    case AlreadyExists => 1
    case NotFound => 2
    case PermissionDenied => 3
    case Conflict => 4
    case Internal => 5
  }

  function SessionField(session: SessionInfo): Bytes {
    NameField(session.name) + BeBytes(session.attachedClients, 2)
  }

  function RectField(x: u16, y: u16, width: u16, height: u16): Bytes {
    BeBytes(x, 2) + BeBytes(y, 2) + BeBytes(width, 2) + BeBytes(height, 2)
  }

  function PaneField(pane: PaneSnapshot): Bytes {
    BeBytes(pane.id, 8) + RectField(pane.x, pane.y, pane.width, pane.height)
    + [if pane.focused then 1 else 0] + BytesField(pane.text)
  }

  /** Repeated fields, one after the other. */
  function Fields<T>(field: T -> Bytes, items: seq<T>): Bytes {
    if items == [] then [] else field(items[0]) + Fields(field, items[1..])
  }

  function RequestKind(request: Request): byte {
    match request
    case Create(_) => CREATE
    case List => LIST
    case Attach(_) => ATTACH
    case Detach(_) => DETACH
    case Ping(_) => PING
    case Input(_) => INPUT
    case Resize(_, _) => RESIZE
    case Command(_) => COMMAND
    case Snapshot => SNAPSHOT
  }

  function RequestPayload(request: Request): Bytes {
    match request
    case Create(name) => NameField(name)
    case List => []
    case Attach(name) => NameField(name)
    case Detach(name) => NameField(name)
    case Ping(nonce) => BeBytes(nonce, 8)
    case Input(bytes) => BytesField(bytes)
    case Resize(cols, rows) => BeBytes(cols, 2) + BeBytes(rows, 2)
    case Command(command) => [command]
    case Snapshot => []
  }

  function ResponseKind(response: Response): byte {
    match response
    case Created(_) => CREATED
    case Sessions(_) => SESSIONS
    case Attached(_) => ATTACHED
    case Detached(_) => DETACHED
    case Pong(_) => PONG
    case Screen(_) => SCREEN
    case Error(_, _) => ERROR
  }

  /** Every text has a length that its two-byte prefix can state. */
  predicate TextsFit(panes: seq<PaneSnapshot>) {
    forall i | 0 <= i < |panes| :: |panes[i].text| <= U16_MAX
  }

  /** Collections and texts that have a wire form at all, whatever the frame limit says. */
  predicate Representable(response: Response) {
    match response
    case Sessions(sessions) => |sessions| <= MAX_LISTED_SESSIONS
    case Screen(panes) => |panes| <= MAX_SNAPSHOT_PANES && TextsFit(panes)
    case Error(_, message) => |message| <= MAX_ERROR_MESSAGE_BYTES
    case _ => true
  }

  function ResponsePayload(response: Response): Bytes
    requires Representable(response)
  {
    match response
    case Created(name) => NameField(name)
    case Sessions(sessions) => [|sessions|] + Fields(SessionField, sessions)
    case Attached(name) => NameField(name)
    case Detached(name) => NameField(name)
    case Pong(nonce) => BeBytes(nonce, 8)
    case Screen(panes) => [|panes|] + Fields(PaneField, panes)
    case Error(code, message) => [CodeByte(code)] + BytesField(message)
  }

  // ---- Frames ----

  function Header(kind: byte, payloadLen: nat): Bytes {
    MAGIC + [PROTOCOL_VERSION, kind] + BeBytes(payloadLen, 4)
  }

  function Framed(kind: byte, payload: Bytes): (r: Result<Bytes, DecodeError>)
    ensures r.Success? <==> HEADER_BYTES + |payload| <= MAX_FRAME_BYTES
    ensures r.Success? ==> |r.value| == HEADER_BYTES + |payload| <= MAX_FRAME_BYTES
    ensures r.Failure? ==> r.error == FrameTooLarge
  {
    if HEADER_BYTES + |payload| > MAX_FRAME_BYTES then Failure(FrameTooLarge)
    else Success(Header(kind, |payload|) + payload)
  }

  /** `unframe`: the message type and payload of exactly one complete frame. */
  function Unframe(bytes: Bytes): Result<(byte, Bytes), DecodeError> {
    if |bytes| < HEADER_BYTES then Failure(Truncated)
    else if bytes[..4] != MAGIC then Failure(InvalidMagic)
    else if bytes[4] != PROTOCOL_VERSION then Failure(UnsupportedVersion(bytes[4]))
    else
      var frameLen := HEADER_BYTES + BeValue(bytes[6..10]);
      if frameLen > MAX_FRAME_BYTES then Failure(FrameTooLarge)
      else if |bytes| < frameLen then Failure(Truncated)
      else if |bytes| > frameLen then Failure(TrailingBytes)
      else Success((bytes[5], bytes[HEADER_BYTES..]))
  }

  function EncodedRequest(request: Request): Result<Bytes, DecodeError> {
    if request.Input? && |request.bytes| > MAX_INPUT_BYTES then Failure(InvalidLength)
    else Framed(RequestKind(request), RequestPayload(request))
  }

  function EncodedResponse(response: Response): Result<Bytes, DecodeError> {
    if !Representable(response) then Failure(InvalidLength)
    else Framed(ResponseKind(response), ResponsePayload(response))
  }

  // ---- Reading fields off the front of a payload ----

  /** A value and the bytes after it. */
  type Parsed<T> = Result<(T, Bytes), DecodeError>

  function ReadByte(s: Bytes): Parsed<byte> {
    if s == [] then Failure(Truncated) else Success((s[0], s[1..]))
  }

  function ReadTake(s: Bytes, n: nat): Parsed<Bytes> {
    if |s| < n then Failure(Truncated) else Success((s[..n], s[n..]))
  }

  function ReadU16(s: Bytes): Parsed<u16> {
    var (raw, rest) :- ReadTake(s, 2);
    BeValueInverse(raw);
    Widths();
    Success((BeValue(raw), rest))
  }

  function ReadU64(s: Bytes): Parsed<u64> {
    var (raw, rest) :- ReadTake(s, 8);
    BeValueInverse(raw);
    Widths();
    Success((BeValue(raw), rest))
  }

  function ReadBytes(s: Bytes, maximum: nat): Parsed<Bytes> {
    var (len, rest) :- ReadU16(s);
    if len > maximum then Failure(InvalidLength) else ReadTake(rest, len)
  }

  function ReadText(s: Bytes, maximum: nat): Parsed<Utf8.Text> {
    var (raw, rest) :- ReadBytes(s, maximum);
    if !Utf8.Valid(raw) then Failure(InvalidUtf8) else Success((raw, rest))
  }

  function ReadName(s: Bytes): Parsed<SessionName> {
    var (len, rest) :- ReadByte(s);
    if len == 0 || len > MAX_NAME then Failure(InvalidLength)
    else
      var (raw, tail) :- ReadTake(rest, len);
      if !Utf8.Valid(raw) then Failure(InvalidUtf8)
      else
        match ParseName(raw)
        case Success(name) => Success((name, tail))
        case Failure(reason) => Failure(InvalidSessionName(reason))
  }

  function ReadFlag(s: Bytes): Parsed<bool> {
    var (value, rest) :- ReadByte(s);
    if value > 1 then Failure(InvalidLength) else Success((value == 1, rest))
  }

  function CodeFromByte(value: byte): Option<ErrorCode> {
    match value
    case 1 => Some(AlreadyExists)
    case 2 => Some(NotFound)
    case 3 => Some(PermissionDenied)
    case 4 => Some(Conflict)
    case 5 => Some(Internal)
    case _ => None
  }

  function ReadSession(s: Bytes): Parsed<SessionInfo> {
    var (name, rest) :- ReadName(s);
    var (clients, tail) :- ReadU16(rest);
    Success((SessionInfo(name, clients), tail))
  }

  function ReadRect(s: Bytes): Parsed<(u16, u16, u16, u16)> {
    var (x, s1) :- ReadU16(s);
    var (y, s2) :- ReadU16(s1);
    var (width, s3) :- ReadU16(s2);
    var (height, s4) :- ReadU16(s3);
    Success(((x, y, width, height), s4))
  }

  function ReadPane(s: Bytes): Parsed<PaneSnapshot> {
    var (id, s1) :- ReadU64(s);
    var (rect, s2) :- ReadRect(s1);
    var (focused, s3) :- ReadFlag(s2);
    var (text, s4) :- ReadText(s3, MAX_FRAME_BYTES);
    Success((PaneSnapshot(id, rect.0, rect.1, rect.2, rect.3, focused, text), s4))
  }

  /** `count` repeated fields. */
  function ReadMany<T>(read: Bytes -> Parsed<T>, count: nat, s: Bytes): Parsed<seq<T>> {
    if count == 0 then Success(([], s))
    else
      var (item, rest) :- read(s);
      var (items, tail) :- ReadMany(read, count - 1, rest);
      Success(([item] + items, tail))
  }

  /** A count of at most `limit`, and as many repeated fields. */
  function ReadCounted<T>(read: Bytes -> Parsed<T>, limit: nat, s: Bytes): Parsed<seq<T>> {
    var (count, rest) :- ReadByte(s);
    if count > limit then Failure(InvalidLength) else ReadMany(read, count, rest)
  }

  function ReadRequest(kind: byte, s: Bytes): Parsed<Request> {
    if kind == CREATE then var (name, rest) :- ReadName(s); Success((Create(name), rest))
    else if kind == LIST then Success((List, s))
    else if kind == ATTACH then var (name, rest) :- ReadName(s); Success((Attach(name), rest))
    else if kind == DETACH then var (name, rest) :- ReadName(s); Success((Detach(name), rest))
    else if kind == PING then var (nonce, rest) :- ReadU64(s); Success((Ping(nonce), rest))
    else if kind == INPUT then var (bytes, rest) :- ReadBytes(s, MAX_INPUT_BYTES); Success((Input(bytes), rest))
    else if kind == RESIZE then
      var (cols, rest) :- ReadU16(s);
      var (rows, tail) :- ReadU16(rest);
      Success((Resize(cols, rows), tail))
    else if kind == COMMAND then var (command, rest) :- ReadByte(s); Success((Command(command), rest))
    else if kind == SNAPSHOT then Success((Snapshot, s))
    else Failure(UnknownMessageType(kind))
  }

  function ReadListing(s: Bytes): Parsed<Response> {
    var (sessions, rest) :- ReadCounted(ReadSession, MAX_LISTED_SESSIONS, s);
    Success((Sessions(sessions), rest))
  }

  function ReadScreen(s: Bytes): Parsed<Response> {
    var (panes, rest) :- ReadCounted(ReadPane, MAX_SNAPSHOT_PANES, s);
    Success((Screen(panes), rest))
  }

  function ReadError(s: Bytes): Parsed<Response> {
    var (raw, rest) :- ReadByte(s);
    match CodeFromByte(raw)
    case None => Failure(UnknownErrorCode(raw))
    case Some(code) =>
      var (message, tail) :- ReadText(rest, MAX_ERROR_MESSAGE_BYTES);
      Success((Error(code, message), tail))
  }

  function ReadResponse(kind: byte, s: Bytes): Parsed<Response> {
    if kind == CREATED then var (name, rest) :- ReadName(s); Success((Created(name), rest))
    else if kind == SESSIONS then ReadListing(s)
    else if kind == ATTACHED then var (name, rest) :- ReadName(s); Success((Attached(name), rest))
    else if kind == DETACHED then var (name, rest) :- ReadName(s); Success((Detached(name), rest))
    else if kind == PONG then var (nonce, rest) :- ReadU64(s); Success((Pong(nonce), rest))
    else if kind == SCREEN then ReadScreen(s)
    else if kind == ERROR then ReadError(s)
    else Failure(UnknownMessageType(kind))
  }

  /** `Cursor::finish`: nothing may follow the message. */
  function Whole<T>(parsed: Parsed<T>): Result<T, DecodeError> {
    var (value, rest) :- parsed;
    if rest == [] then Success(value) else Failure(TrailingBytes)
  }

  function DecodedRequest(bytes: Bytes): Result<Request, DecodeError> {
    var (kind, payload) :- Unframe(bytes);
    Whole(ReadRequest(kind, payload))
  }

  function DecodedResponse(bytes: Bytes): Result<Response, DecodeError> {
    var (kind, payload) :- Unframe(bytes);
    Whole(ReadResponse(kind, payload))
  }

  // ---- Each reader inverts its field: forwards... ----

  lemma TakeFront(a: Bytes, rest: Bytes)
    ensures ReadTake(a + rest, |a|) == Success((a, rest))
  {
    assert (a + rest)[..|a|] == a && (a + rest)[|a|..] == rest;
  }

  lemma U16Reads(v: u16, rest: Bytes)
    ensures ReadU16(BeBytes(v, 2) + rest) == Success((v, rest))
  {
    Widths();
    BeBytesInverse(v, 2);
    TakeFront(BeBytes(v, 2), rest);
  }

  lemma U64Reads(v: u64, rest: Bytes)
    ensures ReadU64(BeBytes(v, 8) + rest) == Success((v, rest))
  {
    Widths();
    BeBytesInverse(v, 8);
    TakeFront(BeBytes(v, 8), rest);
  }

  lemma BytesReads(bytes: Bytes, maximum: nat, rest: Bytes)
    requires |bytes| <= maximum && |bytes| <= U16_MAX
    ensures ReadBytes(BytesField(bytes) + rest, maximum) == Success((bytes, rest))
  {
    assert BytesField(bytes) + rest == BeBytes(|bytes|, 2) + (bytes + rest);
    U16Reads(|bytes|, bytes + rest);
    TakeFront(bytes, rest);
  }

  lemma NameReads(name: SessionName, rest: Bytes)
    ensures ReadName(NameField(name) + rest) == Success((name, rest))
  {
    var s := NameField(name) + rest;
    assert s[1..] == name + rest;
    TakeFront(name, rest);
    NameIsText(name);
  }

  lemma SessionReads(session: SessionInfo, rest: Bytes)
    ensures ReadSession(SessionField(session) + rest) == Success((session, rest))
  {
    var clients := BeBytes(session.attachedClients, 2);
    assert SessionField(session) + rest == NameField(session.name) + (clients + rest);
    NameReads(session.name, clients + rest);
    U16Reads(session.attachedClients, rest);
  }

  lemma RectReads(x: u16, y: u16, width: u16, height: u16, rest: Bytes)
    ensures ReadRect(RectField(x, y, width, height) + rest) == Success(((x, y, width, height), rest))
  {
    var s3 := BeBytes(height, 2) + rest;
    var s2 := BeBytes(width, 2) + s3;
    var s1 := BeBytes(y, 2) + s2;
    assert RectField(x, y, width, height) + rest == BeBytes(x, 2) + s1;
    U16Reads(x, s1);
    U16Reads(y, s2);
    U16Reads(width, s3);
    U16Reads(height, rest);
  }

  lemma PaneReads(pane: PaneSnapshot, rest: Bytes)
    requires |pane.text| <= MAX_FRAME_BYTES
    ensures ReadPane(PaneField(pane) + rest) == Success((pane, rest))
  {
    var rect := RectField(pane.x, pane.y, pane.width, pane.height);
    var flag: Bytes := [if pane.focused then 1 else 0];
    var s3 := BytesField(pane.text) + rest;
    var s2 := flag + s3;
    assert PaneField(pane) + rest == BeBytes(pane.id, 8) + (rect + s2);
    U64Reads(pane.id, rect + s2);
    RectReads(pane.x, pane.y, pane.width, pane.height, s2);
    assert s2[1..] == s3;
    BytesReads(pane.text, MAX_FRAME_BYTES, rest);
  }

  lemma {:induction false} ManyRead<T(!new)>(
    read: Bytes -> Parsed<T>, field: T -> Bytes, items: seq<T>, rest: Bytes)
    requires forall item, r | item in items :: read(field(item) + r) == Success((item, r))
    ensures ReadMany(read, |items|, Fields(field, items) + rest) == Success((items, rest))
  {
    if items == [] {
      assert Fields(field, items) + rest == rest;
    } else {
      var after := Fields(field, items[1..]) + rest;
      ManyRead(read, field, items[1..], rest);
      assert Fields(field, items) + rest == field(items[0]) + after;
      assert items[0] in items && read(field(items[0]) + after) == Success((items[0], after));
      assert [items[0]] + items[1..] == items;
    }
  }

  lemma CountedRead<T(!new)>(read: Bytes -> Parsed<T>, field: T -> Bytes, limit: nat, items: seq<T>)
    requires |items| <= limit < 256
    requires forall item, r | item in items :: read(field(item) + r) == Success((item, r))
    ensures ReadCounted(read, limit, [|items|] + Fields(field, items)) == Success((items, []))
  {
    var s := [|items|] + Fields(field, items);
    assert ReadByte(s) == Success((|items|, Fields(field, items)));
    ManyRead(read, field, items, []);
    assert Fields(field, items) + [] == Fields(field, items);
  }

  // ---- ...and backwards: what was read is what the field would be ----

  lemma TakenFront(s: Bytes, n: nat)
    requires ReadTake(s, n).Success?
    ensures s == ReadTake(s, n).value.0 + ReadTake(s, n).value.1
  {
  }

  lemma ReadU16Canonical(s: Bytes)
    requires ReadU16(s).Success?
    ensures s == BeBytes(ReadU16(s).value.0, 2) + ReadU16(s).value.1
  {
    BeValueInverse(s[..2]);
  }

  lemma ReadU64Canonical(s: Bytes)
    requires ReadU64(s).Success?
    ensures s == BeBytes(ReadU64(s).value.0, 8) + ReadU64(s).value.1
  {
    BeValueInverse(s[..8]);
  }

  lemma ReadBytesCanonical(s: Bytes, maximum: nat)
    requires ReadBytes(s, maximum).Success?
    ensures s == BytesField(ReadBytes(s, maximum).value.0) + ReadBytes(s, maximum).value.1
  {
    ReadU16Canonical(s);
    var (len, rest) := ReadU16(s).value;
    TakenFront(rest, len);
  }

  lemma ReadNameCanonical(s: Bytes)
    requires ReadName(s).Success?
    ensures s == NameField(ReadName(s).value.0) + ReadName(s).value.1
  {
    TakenFront(s[1..], s[0]);
    assert s == [s[0]] + s[1..];
  }

  lemma ReadSessionCanonical(s: Bytes)
    requires ReadSession(s).Success?
    ensures s == SessionField(ReadSession(s).value.0) + ReadSession(s).value.1
  {
    ReadNameCanonical(s);
    ReadU16Canonical(ReadName(s).value.1);
  }

  lemma ReadRectCanonical(s: Bytes)
    requires ReadRect(s).Success?
    ensures var ((x, y, width, height), rest) := ReadRect(s).value;
            s == RectField(x, y, width, height) + rest
  {
    var s1 := ReadU16(s).value.1;
    var s2 := ReadU16(s1).value.1;
    ReadU16Canonical(s);
    ReadU16Canonical(s1);
    ReadU16Canonical(s2);
    ReadU16Canonical(ReadU16(s2).value.1);
  }

  lemma Regroup(a: Bytes, b: Bytes, c: Bytes, d: Bytes, rest: Bytes)
    ensures a + (b + (c + (d + rest))) == (a + b + c + d) + rest
  {
  }

  lemma PaneFieldJoins(pane: PaneSnapshot, s: Bytes, s1: Bytes, s2: Bytes, s3: Bytes, s4: Bytes)
    requires s == BeBytes(pane.id, 8) + s1 && s1 == RectField(pane.x, pane.y, pane.width, pane.height) + s2
    requires s2 == [if pane.focused then 1 else 0] + s3
    requires s3 == BytesField(pane.text) + s4
    ensures s == PaneField(pane) + s4
  {
    var flag: Bytes := [if pane.focused then 1 else 0];
    Regroup(BeBytes(pane.id, 8), RectField(pane.x, pane.y, pane.width, pane.height), flag, BytesField(pane.text), s4);
  }

  lemma ReadPaneCanonical(s: Bytes)
    requires ReadPane(s).Success?
    ensures s == PaneField(ReadPane(s).value.0) + ReadPane(s).value.1
  {
    var (pane, s4) := ReadPane(s).value;
    var s1 := ReadU64(s).value.1;
    var s2 := ReadRect(s1).value.1;
    var s3 := ReadFlag(s2).value.1;
    ReadU64Canonical(s);
    ReadRectCanonical(s1);
    ReadBytesCanonical(s3, MAX_FRAME_BYTES);
    assert s2 == [if pane.focused then 1 else 0] + s3;
    PaneFieldJoins(pane, s, s1, s2, s3, s4);
  }

  /** What `read` accepts is the field of the value it yields. */
  ghost predicate Canonical<T(!new)>(read: Bytes -> Parsed<T>, field: T -> Bytes) {
    forall s {:trigger read(s)} :: read(s).Success? ==> s == field(read(s).value.0) + read(s).value.1
  }

  lemma {:induction false} ReadManyCanonical<T(!new)>(
    read: Bytes -> Parsed<T>, field: T -> Bytes, count: nat, s: Bytes)
    requires Canonical(read, field) && ReadMany(read, count, s).Success?
    ensures |ReadMany(read, count, s).value.0| == count
    ensures s == Fields(field, ReadMany(read, count, s).value.0) + ReadMany(read, count, s).value.1
  {
    if count > 0 {
      var (item, rest) := read(s).value;
      ReadManyCanonical(read, field, count - 1, rest);
      var (items, tail) := ReadMany(read, count - 1, rest).value;
      assert ([item] + items)[1..] == items;
    }
  }

  lemma ReadCountedCanonical<T(!new)>(read: Bytes -> Parsed<T>, field: T -> Bytes, limit: nat, s: Bytes)
    requires Canonical(read, field) && limit < 256 && ReadCounted(read, limit, s).Success?
    ensures var (items, rest) := ReadCounted(read, limit, s).value;
            |items| <= limit && s == [|items|] + Fields(field, items) + rest
  {
    ReadManyCanonical(read, field, s[0], s[1..]);
    assert s == [s[0]] + s[1..];
  }

  lemma ReadersAreCanonical()
    ensures Canonical(ReadSession, SessionField) && Canonical(ReadPane, PaneField)
  {
    forall s | ReadSession(s).Success?
      ensures s == SessionField(ReadSession(s).value.0) + ReadSession(s).value.1
    {
      ReadSessionCanonical(s);
    }
    forall s | ReadPane(s).Success?
      ensures s == PaneField(ReadPane(s).value.0) + ReadPane(s).value.1
    {
      ReadPaneCanonical(s);
    }
  }

  // ---- Frames are read back exactly ----

  lemma HeaderShape(kind: byte, payloadLen: nat)
    requires payloadLen <= MAX_FRAME_BYTES
    ensures var h := Header(kind, payloadLen);
            |h| == HEADER_BYTES && h[..4] == MAGIC && h[4] == PROTOCOL_VERSION && h[5] == kind
            && BeValue(h[6..10]) == payloadLen
  {
    Widths();
    BeBytesInverse(payloadLen, 4);
    assert Header(kind, payloadLen)[6..10] == BeBytes(payloadLen, 4);
  }

  lemma UnframeFramed(kind: byte, payload: Bytes)
    requires HEADER_BYTES + |payload| <= MAX_FRAME_BYTES
    ensures Unframe(Framed(kind, payload).value) == Success((kind, payload))
  {
    HeaderShape(kind, |payload|);
    var bytes := Framed(kind, payload).value;
    assert bytes[..4] == Header(kind, |payload|)[..4];
    assert bytes[6..10] == Header(kind, |payload|)[6..10];
    assert bytes[HEADER_BYTES..] == payload;
  }

  lemma FramedUnframe(bytes: Bytes)
    requires Unframe(bytes).Success?
    ensures Framed(Unframe(bytes).value.0, Unframe(bytes).value.1) == Success(bytes)
  {
    var payload := bytes[HEADER_BYTES..];
    BeValueInverse(bytes[6..10]);
    assert bytes == bytes[..4] + [bytes[4], bytes[5]] + bytes[6..10] + payload;
  }
}
