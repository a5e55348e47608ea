/** The encoders, the decoders and the cursor they read with. */
module Codec {
  import opened Basics
  import opened Names
  import opened Wire
  import opened CodecLaws
  import Utf8

  // ---- Encoding ----

  method PutName(output: Bytes, name: SessionName) returns (r: Bytes)
    ensures r == output + NameField(name)
  {
    r := output + [|name|];
    r := r + name;
  }

  method PutBytes(output: Bytes, bytes: Bytes) returns (r: Result<Bytes, DecodeError>)
    ensures r == if |bytes| <= U16_MAX then Success(output + BytesField(bytes)) else Failure(InvalidLength)
  {
    if |bytes| > U16_MAX {
      return Failure(InvalidLength);
    }
    var payload := output + BeBytes(|bytes|, 2);
    payload := payload + bytes;
    assert payload == output + BytesField(bytes);
    r := Success(payload);
  }

  method Frame(kind: byte, payload: Bytes) returns (r: Result<Bytes, DecodeError>)
    ensures r == Framed(kind, payload)
  {
    var frameLen := HEADER_BYTES + |payload|;
    if frameLen > MAX_FRAME_BYTES {
      return Failure(FrameTooLarge);
    }
    var bytes := MAGIC;
    bytes := bytes + [PROTOCOL_VERSION];
    bytes := bytes + [kind];
    bytes := bytes + BeBytes(|payload|, 4);
    assert bytes == Header(kind, |payload|);
    bytes := bytes + payload;
    r := Success(bytes);
  }

  method EncodeRequest(request: Request) returns (r: Result<Bytes, DecodeError>)
    ensures r == EncodedRequest(request)
  {
    var payload: Bytes := [];
    var kind: byte;
    match request {
      case Create(name) =>
        payload := PutName(payload, name);
        kind := CREATE;
      case List =>
        kind := LIST;
      case Attach(name) =>
        payload := PutName(payload, name);
        kind := ATTACH;
      case Detach(name) =>
        payload := PutName(payload, name);
        kind := DETACH;
      case Ping(nonce) =>
        payload := payload + BeBytes(nonce, 8);
        kind := PING;
      case Input(bytes) =>
        if |bytes| > MAX_INPUT_BYTES {
          return Failure(InvalidLength);
        }
        var field := PutBytes(payload, bytes);
        payload := field.value;
        kind := INPUT;
      case Resize(cols, rows) =>
        payload := payload + BeBytes(cols, 2);
        payload := payload + BeBytes(rows, 2);
        kind := RESIZE;
      case Command(command) =>
        payload := payload + [command];
        kind := COMMAND;
      case Snapshot =>
        kind := SNAPSHOT;
    }
    assert kind == RequestKind(request) && payload == RequestPayload(request);
    r := Frame(kind, payload);
  }

  /** The fields of one pane, pushed in order. */
  method PutPane(output: Bytes, pane: PaneSnapshot) returns (r: Result<Bytes, DecodeError>)
    ensures r == if |pane.text| <= U16_MAX then Success(output + PaneField(pane)) else Failure(InvalidLength)
  {
    var payload := output + BeBytes(pane.id, 8);
    var values := [pane.x, pane.y, pane.width, pane.height];
    payload := payload + BeBytes(values[0], 2) + BeBytes(values[1], 2) + BeBytes(values[2], 2) + BeBytes(values[3], 2);
    payload := payload + [if pane.focused then 1 else 0];
    assert payload + BytesField(pane.text) == output + PaneField(pane);
    r := PutBytes(payload, pane.text);
  }

  lemma FieldsSnoc<T>(field: T -> Bytes, items: seq<T>, i: nat)
    requires i < |items|
    ensures Fields(field, items[..i + 1]) == Fields(field, items[..i]) + field(items[i])
  {
    if i == 0 {
      assert items[..1][1..] == [];
    } else {
      FieldsSnoc(field, items[1..], i - 1);
      assert items[..i + 1][1..] == items[1..][..i] && items[..i][1..] == items[1..][..i - 1];
    }
  }

  lemma FieldPushed<T>(field: T -> Bytes, output: Bytes, items: seq<T>, i: nat)
    requires i < |items|
    ensures output + Fields(field, items[..i]) + field(items[i]) == output + Fields(field, items[..i + 1])
  {
    FieldsSnoc(field, items, i);
  }

  method PutSessions(output: Bytes, sessions: seq<SessionInfo>) returns (payload: Bytes)
    ensures payload == output + Fields(SessionField, sessions)
  {
    payload := output;
    for i := 0 to |sessions|
      invariant payload == output + Fields(SessionField, sessions[..i])
    {
      payload := PutName(payload, sessions[i].name);
      payload := payload + BeBytes(sessions[i].attachedClients, 2);
      FieldsSnoc(SessionField, sessions, i);
    }
    assert sessions[..|sessions|] == sessions;
  }

  method PutPanes(output: Bytes, panes: seq<PaneSnapshot>) returns (r: Result<Bytes, DecodeError>)
    ensures r == if TextsFit(panes) then Success(output + Fields(PaneField, panes)) else Failure(InvalidLength)
  {
    var payload := output;
    for i := 0 to |panes|
      invariant forall j | 0 <= j < i :: |panes[j].text| <= U16_MAX
      invariant payload == output + Fields(PaneField, panes[..i])
    {
      FieldPushed(PaneField, output, panes, i);
      payload :- PutPane(payload, panes[i]);
    }
    assert panes[..|panes|] == panes;
    r := Success(payload);
  }

  method SessionsPayload(sessions: seq<SessionInfo>) returns (r: Result<Bytes, DecodeError>)
    ensures r == if |sessions| <= MAX_LISTED_SESSIONS then Success([|sessions|] + Fields(SessionField, sessions))
                 else Failure(InvalidLength)
  {
    if |sessions| > MAX_LISTED_SESSIONS {
      return Failure(InvalidLength);
    }
    var payload := PutSessions([|sessions|], sessions);
    r := Success(payload);
  }

  method ScreenPayload(panes: seq<PaneSnapshot>) returns (r: Result<Bytes, DecodeError>)
    ensures r == if |panes| <= MAX_SNAPSHOT_PANES && TextsFit(panes) then Success([|panes|] + Fields(PaneField, panes))
                 else Failure(InvalidLength)
  {
    if |panes| > MAX_SNAPSHOT_PANES {
      return Failure(InvalidLength);
    }
    r := PutPanes([|panes|], panes);
  }

  /** The message type and payload of a response. */
  method PutResponse(response: Response) returns (r: Result<(byte, Bytes), DecodeError>)
    ensures Representable(response) ==> r == Success((ResponseKind(response), ResponsePayload(response)))
    ensures !Representable(response) ==> r == Failure(InvalidLength)
  {
    var payload: Bytes := [];
    match response
    case Created(name) =>
      payload := PutName(payload, name);
      assert payload == NameField(name);
      r := Success((CREATED, payload));
    case Sessions(sessions) =>
      payload :- SessionsPayload(sessions);
      r := Success((SESSIONS, payload));
    case Attached(name) =>
      payload := PutName(payload, name);
      assert payload == NameField(name);
      r := Success((ATTACHED, payload));
    case Detached(name) =>
      payload := PutName(payload, name);
      assert payload == NameField(name);
      r := Success((DETACHED, payload));
    case Pong(nonce) =>
      payload := payload + BeBytes(nonce, 8);
      assert payload == BeBytes(nonce, 8);
      r := Success((PONG, payload));
    case Screen(panes) =>
      payload :- ScreenPayload(panes);
      r := Success((SCREEN, payload));
    case Error(code, message) =>
      if |message| > MAX_ERROR_MESSAGE_BYTES {
        return Failure(InvalidLength);
      }
      payload := payload + [CodeByte(code)];
      assert payload == [CodeByte(code)];
      var field := PutBytes(payload, message);
      payload := field.value;
      r := Success((ERROR, payload));
  }

  method EncodeResponse(response: Response) returns (r: Result<Bytes, DecodeError>)
    ensures r == EncodedResponse(response)
  {
    var body :- PutResponse(response);
    r := Frame(body.0, body.1);
  }

  // ---- Decoding ----

  /** A cursor step did what the grammar says: the same value or error, and the same bytes left. */
  ghost predicate Follows<T>(r: Result<T, DecodeError>, rest: Bytes, spec: Parsed<T>) {
    match spec
    case Success((value, tail)) => r == Success(value) && rest == tail
    case Failure(error) => r == Failure(error)
  }

  /** Reading one more item after `i`. */
  lemma {:induction false} ReadManyMore<T>(read: Bytes -> Parsed<T>, i: nat, s: Bytes)
    requires ReadMany(read, i, s).Success?
    ensures var (items, rest) := ReadMany(read, i, s).value;
            match read(rest)
            case Success((item, tail)) =>
              var more := ReadMany(read, i + 1, s);
              more.Success? && more.value.0 == items + [item] && more.value.1 == tail
            case Failure(error) => ReadMany(read, i + 1, s) == Failure(error)
  {
    if i > 0 {
      var (item, rest) := read(s).value;
      ReadManyMore(read, i - 1, rest);
      var (items, tail) := ReadMany(read, i - 1, rest).value;
      if read(tail).Success? {
        assert [item] + (items + [read(tail).value.0]) == ([item] + items) + [read(tail).value.0];
      }
    } else if read(s).Success? {
      assert ReadMany(read, 0, read(s).value.1) == Success(([], read(s).value.1));
    }
  }

  /** A list that cannot be read as far as `i` cannot be read further. */
  lemma {:induction false} ReadManyFails<T>(read: Bytes -> Parsed<T>, i: nat, count: nat, s: Bytes)
    requires i <= count && ReadMany(read, i, s).Failure?
    ensures ReadMany(read, count, s) == Failure(ReadMany(read, i, s).error)
  {
    if read(s).Success? {
      ReadManyFails(read, i - 1, count - 1, read(s).value.1);
    }
  }

  /** A list read as far as `i`. */
  ghost predicate ReadSoFar<T>(read: Bytes -> Parsed<T>, i: nat, s: Bytes, items: seq<T>, rest: Bytes) {
    var spec := ReadMany(read, i, s);
    spec.Success? && spec.value.0 == items && spec.value.1 == rest
  }

  class Cursor {
    const bytes: Bytes
    var offset: nat

    ghost predicate Valid()
      reads this
    {
      offset <= |bytes|
    }

    /** The bytes not yet read. */
    ghost function Rest(): Bytes
      requires Valid()
      reads this
    {
      bytes[offset..]
    }

    constructor (bytes: Bytes)
      ensures Valid() && Rest() == bytes && this.bytes == bytes
    {
      this.bytes, offset := bytes, 0;
    }

    method Byte() returns (r: Result<byte, DecodeError>)
      requires Valid()
      modifies this
      ensures Valid() && Follows(r, Rest(), ReadByte(old(Rest())))
    {
      if offset >= |bytes| {
        return Failure(Truncated);
      }
      var value := bytes[offset];
      offset := offset + 1;
      r := Success(value);
    }

    method Take(len: nat) returns (r: Result<Bytes, DecodeError>)
      requires Valid()
      modifies this
      ensures Valid() && Follows(r, Rest(), ReadTake(old(Rest()), len))
    {
      var end := offset + len;
      if end > |bytes| {
        return Failure(Truncated);
      }
      var value := bytes[offset..end];
      assert bytes[offset..][..len] == value && bytes[offset..][len..] == bytes[end..];
      offset := end;
      r := Success(value);
    }

    method U16() returns (r: Result<u16, DecodeError>)
      requires Valid()
      modifies this
      ensures Valid() && Follows(r, Rest(), ReadU16(old(Rest())))
    {
      var raw :- Take(2);
      BeValueInverse(raw);
      Widths();
      r := Success(BeValue(raw));
    }

    method U64() returns (r: Result<u64, DecodeError>)
      requires Valid()
      modifies this
      ensures Valid() && Follows(r, Rest(), ReadU64(old(Rest())))
    {
      var raw :- Take(8);
      BeValueInverse(raw);
      Widths();
      r := Success(BeValue(raw));
    }

    method TakeBytes(maximum: nat) returns (r: Result<Bytes, DecodeError>)
      requires Valid()
      modifies this
      ensures Valid() && Follows(r, Rest(), ReadBytes(old(Rest()), maximum))
    {
      var len :- U16();
      if len > maximum {
        return Failure(InvalidLength);
      }
      r := Take(len);
    }

    method TakeText(maximum: nat) returns (r: Result<Utf8.Text, DecodeError>)
      requires Valid()
      modifies this
      ensures Valid() && Follows(r, Rest(), ReadText(old(Rest()), maximum))
    {
      var raw :- TakeBytes(maximum);
      if !Utf8.Valid(raw) {
        return Failure(InvalidUtf8);
      }
      r := Success(raw);
    }

    method Name() returns (r: Result<SessionName, DecodeError>)
      requires Valid()
      modifies this
      ensures Valid() && Follows(r, Rest(), ReadName(old(Rest())))
    {
      var len :- Byte();
      if len == 0 || len > MAX_NAME {
        return Failure(InvalidLength);
      }
      var raw :- Take(len);
      if !Utf8.Valid(raw) {
        return Failure(InvalidUtf8);
      }
      var name := ParseName(raw);
      if name.Failure? {
        return Failure(InvalidSessionName(name.error));
      }
      r := Success(name.value);
    }

    method Session() returns (r: Result<SessionInfo, DecodeError>)
      requires Valid()
      modifies this
      ensures Valid() && Follows(r, Rest(), ReadSession(old(Rest())))
    {
      var name :- Name();
      var clients :- U16();
      r := Success(SessionInfo(name, clients));
    }

    method Pane() returns (r: Result<PaneSnapshot, DecodeError>)
      requires Valid()
      modifies this
      ensures Valid() && Follows(r, Rest(), ReadPane(old(Rest())))
    {
      var id :- U64();
      var x :- U16();
      var y :- U16();
      var width :- U16();
      var height :- U16();
      var flag :- Byte();
      if flag > 1 {
        return Failure(InvalidLength);
      }
      var text :- TakeText(MAX_FRAME_BYTES);
      r := Success(PaneSnapshot(id, x, y, width, height, flag == 1, text));
    }

    method SessionList(count: nat) returns (r: Result<seq<SessionInfo>, DecodeError>)
      requires Valid()
      modifies this
      ensures Valid() && Follows(r, Rest(), ReadMany(ReadSession, count, old(Rest())))
    {
      ghost var s := Rest();
      var sessions: seq<SessionInfo> := [];
      for i := 0 to count
        invariant Valid() && ReadSoFar(ReadSession, i, s, sessions, Rest())
      {
        ReadManyMore(ReadSession, i, s);
        var session := Session();
        if session.Failure? {
          ReadManyFails(ReadSession, i + 1, count, s);
          return Failure(session.error);
        }
        sessions := sessions + [session.value];
      }
      r := Success(sessions);
    }

    method PaneList(count: nat) returns (r: Result<seq<PaneSnapshot>, DecodeError>)
      requires Valid()
      modifies this
      ensures Valid() && Follows(r, Rest(), ReadMany(ReadPane, count, old(Rest())))
    {
      ghost var s := Rest();
      var panes: seq<PaneSnapshot> := [];
      for i := 0 to count
        invariant Valid() && ReadSoFar(ReadPane, i, s, panes, Rest())
      {
        ReadManyMore(ReadPane, i, s);
        var pane := Pane();
        if pane.Failure? {
          ReadManyFails(ReadPane, i + 1, count, s);
          return Failure(pane.error);
        }
        panes := panes + [pane.value];
      }
      r := Success(panes);
    }

    method Finish() returns (r: Result<(), DecodeError>)
      requires Valid()
      ensures r == if Rest() == [] then Success(()) else Failure(TrailingBytes)
    {
      if offset == |bytes| {
        r := Success(());
      } else {
        r := Failure(TrailingBytes);
      }
    }
  }

  method DecodeRequest(bytes: Bytes) returns (r: Result<Request, DecodeError>)
    ensures r == DecodedRequest(bytes)
  {
    var contents :- Unframe(bytes);
    var (kind, payload) := contents;
    var cursor := new Cursor(payload);
    var request: Request;
    if kind == CREATE {
      var name :- cursor.Name();
      request := Create(name);
    } else if kind == LIST {
      request := List;
    } else if kind == ATTACH {
      var name :- cursor.Name();
      request := Attach(name);
    } else if kind == DETACH {
      var name :- cursor.Name();
      request := Detach(name);
    } else if kind == PING {
      var nonce :- cursor.U64();
      request := Ping(nonce);
    } else if kind == INPUT {
      var input :- cursor.TakeBytes(MAX_INPUT_BYTES);
      request := Input(input);
    } else if kind == RESIZE {
      var cols :- cursor.U16();
      var rows :- cursor.U16();
      request := Resize(cols, rows);
    } else if kind == COMMAND {
      var command :- cursor.Byte();
      request := Command(command);
    } else if kind == SNAPSHOT {
      request := Snapshot;
    } else {
      return Failure(UnknownMessageType(kind));
    }
    var _ :- cursor.Finish();
    r := Success(request);
  }

  method DecodeResponse(bytes: Bytes) returns (r: Result<Response, DecodeError>)
    ensures r == DecodedResponse(bytes)
  {
    var contents :- Unframe(bytes);
    var (kind, payload) := contents;
    var cursor := new Cursor(payload);
    var response: Response;
    if kind == CREATED {
      var name :- cursor.Name();
      response := Created(name);
    } else if kind == SESSIONS {
      var count :- cursor.Byte();
      if count > MAX_LISTED_SESSIONS {
        return Failure(InvalidLength);
      }
      var sessions :- cursor.SessionList(count);
      response := Sessions(sessions);
    } else if kind == ATTACHED {
      var name :- cursor.Name();
      response := Attached(name);
    } else if kind == DETACHED {
      var name :- cursor.Name();
      response := Detached(name);
    } else if kind == PONG {
      var nonce :- cursor.U64();
      response := Pong(nonce);
    } else if kind == SCREEN {
      var count :- cursor.Byte();
      if count > MAX_SNAPSHOT_PANES {
        return Failure(InvalidLength);
      }
      var panes :- cursor.PaneList(count);
      response := Screen(panes);
    } else if kind == ERROR {
      var raw :- cursor.Byte();
      var code := CodeFromByte(raw);
      if code.None? {
        return Failure(UnknownErrorCode(raw));
      }
      var message :- cursor.TakeText(MAX_ERROR_MESSAGE_BYTES);
      response := Error(code.value, message);
    } else {
      return Failure(UnknownMessageType(kind));
    }
    var _ :- cursor.Finish();
    r := Success(response);
  }

  // ---- Reading from a stream ----

  /** The bytes a peer has sent and that have not been read. */
  class Reader {
    var pending: Bytes

    constructor (pending: Bytes)
      ensures this.pending == pending
    {
      this.pending := pending;
    }

    /** `read_exact`: fails when the stream ends first. */
    method ReadExact(n: nat) returns (r: Result<Bytes, StreamError>)
      modifies this
      ensures if n <= |old(pending)| then r == Success(old(pending)[..n]) && pending == old(pending)[n..]
              else r == Failure(Eof)
    {
      if n > |pending| {
        return Failure(Eof);
      }
      var bytes := pending[..n];
      pending := pending[n..];
      r := Success(bytes);
    }

    method ReadFrame() returns (r: Result<Bytes, StreamError>)
      modifies this
      ensures match NextFrame(old(pending))
              case Success((frame, rest)) => r == Success(frame) && pending == rest
              case Failure(error) => r == Failure(error)
    {
      var header :- ReadExact(HEADER_BYTES);
      assert header[6..10] == old(pending)[6..10];
      var total := HEADER_BYTES + BeValue(header[6..10]);
      if total > MAX_FRAME_BYTES {
        return Failure(Oversized);
      }
      var frame := header;
      var body :- ReadExact(total - HEADER_BYTES);
      assert header + body == old(pending)[..total];
      frame := header + body;
      r := Success(frame);
    }
  }
}
