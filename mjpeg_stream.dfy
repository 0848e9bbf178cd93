/** The camera firmware of vinestation/YOLO/firmware_fast.py: the
    `multipart/x-mixed-replace` response that streams JPEG frames (its random
    boundary, its Content-Type default and the bytes of one frame), and the
    websocket pass that clamps servo commands and prunes closed sockets. The
    camera, WiFi, the HTTP server and the asyncio scheduling are not modelled. */
module MjpegStream {
  import opened Wrappers
  import opened Seqs
  import opened Bytes
  import opened Utf8

  // ---------------------------------------------------------------------
  // The boundary

  const LOWERCASE: string := "abcdefghijklmnopqrstuvwxyz"
  const UPPERCASE: string := "ABCDEFGHIJKLMNOPQRSTUVWXYZ"
  const DIGITS: string := "0123456789"

  /** The alphabet `choice` draws the boundary characters from. */
  const SYMBOLS: string := LOWERCASE + UPPERCASE + DIGITS

  /** The number of characters drawn after the leading "--". */
  const BOUNDARY_DRAWS: nat := 16

  predicate IsAsciiAlnum(c: char)
  {
    'a' <= c <= 'z' || 'A' <= c <= 'Z' || '0' <= c <= '9'
  }

  /** The alphabet is exactly the ASCII letters and digits. */
  lemma SymbolsAreAlphanumerics()
    ensures |SYMBOLS| == 62
    ensures forall c :: c in SYMBOLS <==> IsAsciiAlnum(c)
  {
    forall c
      ensures c in SYMBOLS <==> IsAsciiAlnum(c)
    {
      SymbolMember(c);
    }
  }

  lemma SymbolMember(c: char)
    ensures c in SYMBOLS <==> IsAsciiAlnum(c)
  {
    SymbolsSplit(c);
    if c in LOWERCASE {
      LowercaseMember(c);
    } else if c in UPPERCASE {
      UppercaseMember(c);
    } else if c in DIGITS {
      DigitMember(c);
    }
    if 'a' <= c <= 'z' {
      LetterIn(LOWERCASE, 'a', c);
    } else if 'A' <= c <= 'Z' {
      LetterIn(UPPERCASE, 'A', c);
    } else if '0' <= c <= '9' {
      LetterIn(DIGITS, '0', c);
    }
  }

  lemma LetterIn(alphabet: string, first: char, c: char)
    requires first as int <= c as int < first as int + |alphabet|
    requires alphabet[c as int - first as int] == c
    ensures c in alphabet
  {
  }

  lemma SymbolsSplit(c: char)
    ensures c in SYMBOLS <==> c in LOWERCASE || c in UPPERCASE || c in DIGITS
  {
  }

  lemma LowercaseMember(c: char)
    requires c in LOWERCASE
    ensures 'a' <= c <= 'z'
  {
  }

  lemma UppercaseMember(c: char)
    requires c in UPPERCASE
    ensures 'A' <= c <= 'Z'
  {
  }

  lemma DigitMember(c: char)
    requires c in DIGITS
    ensures '0' <= c <= '9'
  {
  }

  /** The shape of every boundary `_get_random_boundary` can return. */
  predicate IsBoundary(b: string)
  {
    |b| == 2 + BOUNDARY_DRAWS && b[..2] == "--" &&
    forall i :: 2 <= i < |b| ==> b[i] in SYMBOLS
  }

  /** `_get_random_boundary()`: "--" and sixteen characters chosen from the
      alphabet. The random choice is modelled as an arbitrary one. */
  method GetRandomBoundary() returns (b: string)
    ensures IsBoundary(b)
  {
    b := "--";
    var i := 0;
    while i < BOUNDARY_DRAWS
      invariant 0 <= i <= BOUNDARY_DRAWS && |b| == 2 + i && b[..2] == "--"
      invariant forall j :: 2 <= j < |b| ==> b[j] in SYMBOLS
    {
      SymbolMember('a');
      var c :| c in SYMBOLS;
      b := b + [c];
      i := i + 1;
    }
  }

  /** A boundary holds only '-' and letters and digits: no line break, no
      '=' and no ';', so it fits on a header line and on a line of its own. */
  lemma BoundaryCharacters(b: string)
    requires IsBoundary(b)
    ensures forall i :: 0 <= i < |b| ==> b[i] == '-' || IsAsciiAlnum(b[i])
    ensures '\r' !in b && '\n' !in b && '=' !in b && ';' !in b
  {
    SymbolsAreAlphanumerics();
    forall i | 0 <= i < |b|
      ensures b[i] == '-' || IsAsciiAlnum(b[i])
    {
      if i < 2 {
        assert b[i] == b[..2][i];
      }
    }
  }

  // ---------------------------------------------------------------------
  // The response headers

  const CONTENT_TYPE: string := "Content-Type"

  const STREAM_TYPE_PREFIX: string := "multipart/x-mixed-replace; boundary"

  /** The value the constructor offers for the Content-Type header. */
  function StreamContentType(boundary: string): string
  {
    STREAM_TYPE_PREFIX + "=" + boundary
  }

  /** The boundary can be read back from the header value: it is what
      follows the one '=' in it. */
  lemma BoundaryInHeader(b: string)
    requires IsBoundary(b)
    ensures Split(StreamContentType(b), '=') == [STREAM_TYPE_PREFIX, b]
  {
    BoundaryCharacters(b);
    assert '=' !in STREAM_TYPE_PREFIX;
    assert StreamContentType(b) == STREAM_TYPE_PREFIX + ['='] + b;
    SplitPrefix(STREAM_TYPE_PREFIX, '=', b);
    SplitFree(b, '=');
  }

  /** Python's `dict.setdefault(key, value)` as a change of the dictionary:
      the key gets `value` only when it has no value yet. */
  function SetDefault<K, V>(m: map<K, V>, key: K, value: V): (r: map<K, V>)
    ensures r.Keys == m.Keys + {key}
    ensures key in m ==> r[key] == m[key]
    ensures key !in m ==> r[key] == value
    ensures forall k :: k in m ==> r[k] == m[k]
  {
    if key in m then m else m[key := value]
  }

  // ---------------------------------------------------------------------
  // A frame on the wire

  /** What `send_frame` is given: text, sent as its UTF-8 encoding, or bytes. */
  datatype Frame = Text(text: string) | Binary(data: seq<byte>)

  function EncodedFrame(f: Frame): seq<byte>
  {
    match f
    case Text(s) => Encode(s)
    case Binary(d) => d
  }

  const CRLF: seq<byte> := [CR, LF]

  /** The four `_send_bytes` calls of `send_frame`, in order: the boundary
      line, the part header with the blank line after it, the frame, and a
      closing line break. The boundary is written as it is, with no extra
      "--" in front of it. */
  function FrameChunks(boundary: string, header: string, f: Frame): seq<seq<byte>>
  {
    [Encode(boundary + "\r\n"), Encode(header + "\r\n\r\n"), EncodedFrame(f), Encode("\r\n")]
  }

  /** The part header line of a frame of the given type. */
  function PartHeader(frameType: string): string
  {
    "Content-Type: " + frameType
  }

  /** The part a receiver reads off a frame: the delimiter line, the header
      line and the body, each without the line breaks around it. */
  datatype Part = Part(delimiter: seq<byte>, header: seq<byte>, body: seq<byte>)

  /** The position of the first `x` in `s`. */
  function Find(s: seq<byte>, x: byte): (r: Option<nat>)
    ensures r.Some? ==> r.value < |s| && s[r.value] == x && x !in s[..r.value]
    ensures r.None? ==> x !in s
  {
    if s == [] then None
    else if s[0] == x then Some(0)
    else match Find(s[1..], x)
      case None => None
      case Some(k) => assert s[..k + 1] == [s[0]] + s[1..][..k]; Some(k + 1)
  }

  /** The bytes before the first CR LF, and those after it. */
  function SplitLine(bs: seq<byte>): Option<(seq<byte>, seq<byte>)>
  {
    match Find(bs, CR)
    case None => None
    case Some(i) => if StartsWith(bs[i..], CRLF) then Some((bs[..i], bs[i + 2..])) else None
  }

  /** A receiver for one frame: the delimiter line, the header line, a blank
      line, and the body up to the final CR LF, line breaks of its own
      included. */
  function ParseFrame(bs: seq<byte>): Option<Part>
  {
    match SplitLine(bs)
    case None => None
    case Some((delimiter, afterDelimiter)) =>
      match SplitLine(afterDelimiter)
      case None => None
      case Some((header, rest)) =>
        if |rest| >= 4 && rest[..2] == CRLF && rest[|rest| - 2..] == CRLF
        then Some(Part(delimiter, header, rest[2..|rest| - 2]))
        else None
  }

  lemma {:induction false} FindFirst(a: seq<byte>, x: byte, b: seq<byte>)
    requires x !in a
    ensures Find(a + [x] + b, x) == Some(|a|)
    decreases |a|
  {
    var s := a + [x] + b;
    if a != [] {
      assert s[1..] == a[1..] + [x] + b;
      FindFirst(a[1..], x, b);
    }
  }

  lemma EncodeNoCR(s: string)
    requires '\r' !in s
    ensures CR !in Encode(s)
  {
    if CR in Encode(s) {
      AsciiByteInEncoding(s, CR);
    }
  }

  lemma LineBreaks()
    ensures Encode("\r\n") == CRLF
    ensures Encode("\r\n\r\n") == CRLF + CRLF
  {
  }

  /** The bytes of one frame, laid out with the line breaks spelt out. */
  lemma FrameLayout(boundary: string, header: string, f: Frame)
    ensures Flatten(FrameChunks(boundary, header, f)) ==
      Encode(boundary) + CRLF + (Encode(header) + CRLF + (CRLF + EncodedFrame(f) + CRLF))
  {
    LineBreaks();
    EncodeAppend(boundary, "\r\n");
    EncodeAppend(header, "\r\n\r\n");
    var c := FrameChunks(boundary, header, f);
    FlattenFour(c);
    Regroup(Encode(boundary), Encode(header), EncodedFrame(f), CRLF);
  }

  lemma Regroup<T>(a: seq<T>, h: seq<T>, body: seq<T>, x: seq<T>)
    ensures (a + x) + (h + (x + x)) + body + x == a + x + (h + x + (x + body + x))
  {
  }

  lemma FlattenFour<T>(c: seq<seq<T>>)
    requires |c| == 4
    ensures Flatten(c) == c[0] + c[1] + c[2] + c[3]
  {
    assert c[..0] == [];
    FlattenSnoc(c, 0);
    FlattenSnoc(c, 1);
    FlattenSnoc(c, 2);
    FlattenSnoc(c, 3);
    assert c[..4] == c;
  }

  /** Round trip: whatever the frame holds, a receiver recovers the boundary,
      the part header and the frame bytes exactly, provided the boundary and
      the header contain no carriage return. */
  lemma ParseSentFrame(boundary: string, header: string, f: Frame)
    requires '\r' !in boundary && '\r' !in header
    ensures ParseFrame(Flatten(FrameChunks(boundary, header, f))) ==
      Some(Part(Encode(boundary), Encode(header), EncodedFrame(f)))
  {
    FrameLayout(boundary, header, f);
    EncodeNoCR(boundary);
    EncodeNoCR(header);
    ParseLaidOut(Encode(boundary), Encode(header), EncodedFrame(f));
  }

  lemma ParseLaidOut(d: seq<byte>, h: seq<byte>, body: seq<byte>)
    requires CR !in d && CR !in h
    ensures ParseFrame(d + CRLF + (h + CRLF + (CRLF + body + CRLF))) == Some(Part(d, h, body))
  {
    var rest := CRLF + body + CRLF;
    SplitLineOf(d, h + CRLF + rest);
    SplitLineOf(h, rest);
    assert rest[..2] == CRLF && rest[|rest| - 2..] == CRLF;
    assert rest[2..|rest| - 2] == body;
  }

  /** A line without CR splits off at its own CR LF. */
  lemma SplitLineOf(line: seq<byte>, rest: seq<byte>)
    requires CR !in line
    ensures SplitLine(line + CRLF + rest) == Some((line, rest))
  {
    var bs := line + CRLF + rest;
    assert bs == line + [CR] + ([LF] + rest);
    FindFirst(line, CR, [LF] + rest);
    assert bs[|line|..][..2] == CRLF;
    assert bs[..|line|] == line;
    assert bs[|line| + 2..] == rest;
  }

  // ---------------------------------------------------------------------
  // The streaming response

  /** The client connection a response writes to; `sent` holds the byte
      strings of the `_send_bytes` calls, oldest first. */
  class Connection {
    var sent: seq<seq<byte>>

    constructor ()
      ensures sent == []
    {
      sent := [];
    }

    method Send(data: seq<byte>)
      modifies this`sent
      ensures sent == old(sent) + [data]
    {
      sent := sent + [data];
    }
  }

  class XMixedReplaceResponse {
    const connection: Connection
    const boundary: string
    const frameContentType: string
    var headers: map<string, string>

    /** `XMixedReplaceResponse(request, frame_content_type, headers=...)`:
        a fresh boundary, and the stream Content-Type unless the caller
        already gave one. The request is reduced to its connection. */
    constructor (connection: Connection, frameContentType: string, headers: map<string, string>)
      ensures this.connection == connection && this.frameContentType == frameContentType
      ensures IsBoundary(boundary)
      ensures this.headers == SetDefault(headers, CONTENT_TYPE, StreamContentType(boundary))
    {
      this.connection := connection;
      var b := GetRandomBoundary();
      this.boundary := b;
      this.frameContentType := frameContentType;
      this.headers := SetDefault(headers, CONTENT_TYPE, StreamContentType(b));
    }

    /** `send_frame(frame)`: four writes to the connection, in order; the
        frame defaults to the empty text. */
    method SendFrame(frame: Frame := Text(""))
      modifies connection`sent
      ensures connection.sent == old(connection.sent) + FrameChunks(boundary, PartHeader(frameContentType), frame)
    {
      var encodedFrame := EncodedFrame(frame);
      connection.Send(Encode(boundary + "\r\n"));
      assert "Content-Type: " + frameContentType + "\r\n\r\n" == PartHeader(frameContentType) + "\r\n\r\n";
      connection.Send(Encode("Content-Type: " + frameContentType + "\r\n\r\n"));
      connection.Send(encodedFrame);
      connection.Send(Encode("\r\n"));
    }
  }

  /** A frame sent by a stream response reads back as its boundary, its part
      header and its bytes, whatever the bytes are. */
  lemma StreamFrameReadsBack(boundary: string, frameType: string, f: Frame)
    requires IsBoundary(boundary) && '\r' !in frameType
    ensures ParseFrame(Flatten(FrameChunks(boundary, PartHeader(frameType), f))) ==
      Some(Part(Encode(boundary), Encode(PartHeader(frameType)), EncodedFrame(f)))
  {
    BoundaryCharacters(boundary);
    assert '\r' !in "Content-Type: ";
    ParseSentFrame(boundary, PartHeader(frameType), f);
  }

  // ---------------------------------------------------------------------
  // Servo commands from websockets

  const MAX_COMMANDED_ANGLE: int := 150

  function Min(a: int, b: int): int { if a <= b then a else b }

  function Max(a: int, b: int): int { if a >= b then a else b }

  /** `max(min(150, angle), 0)`. */
  function ClampAngle(angle: int): (r: int)
    ensures 0 <= r <= MAX_COMMANDED_ANGLE
    ensures 0 <= angle <= MAX_COMMANDED_ANGLE ==> r == angle
    ensures angle > MAX_COMMANDED_ANGLE ==> r == MAX_COMMANDED_ANGLE
    ensures angle < 0 ==> r == 0
  {
    Max(Min(MAX_COMMANDED_ANGLE, angle), 0)
  }

  /** What `json.loads(websocket.receive())` gives the handler, reduced to
      what it does with it: nothing usable (no message, invalid JSON, or a
      falsy value), a packet with an integer "angle", or a truthy value whose
      `packet['angle']` or comparison with 150 raises. */
  datatype Packet = Ignored | SetAngle(angle: int) | Raises

  class Websocket {
    var closed: bool

    constructor ()
      ensures !closed
    {
      closed := false;
    }
  }

  /** The closed sockets among the first `n` of `ws`, in order. */
  function ClosedUpTo(ws: seq<Websocket>, n: nat): (r: seq<Websocket>)
    requires n <= |ws|
    reads ws
    ensures forall w :: w in r ==> w in ws[..n]
  {
    if n == 0 then [] else ClosedUpTo(ws, n - 1) + (if ws[n - 1].closed then [ws[n - 1]] else [])
  }

  /** The open sockets among the first `n` of `ws`, in order. */
  function OpenUpTo(ws: seq<Websocket>, n: nat): seq<Websocket>
    requires n <= |ws|
    reads ws
  {
    if n == 0 then [] else OpenUpTo(ws, n - 1) + (if ws[n - 1].closed then [] else [ws[n - 1]])
  }

  function Closed(ws: seq<Websocket>): seq<Websocket>
    reads ws
  {
    ClosedUpTo(ws, |ws|)
  }

  function Open(ws: seq<Websocket>): seq<Websocket>
    reads ws
  {
    OpenUpTo(ws, |ws|)
  }

  /** The angles the first `n` sockets command: one for each open socket
      with an angle packet, clamped, in socket order. */
  function CommandsUpTo(ws: seq<Websocket>, ps: seq<Packet>, n: nat): (r: seq<int>)
    requires |ws| == |ps| && n <= |ws|
    reads ws
    ensures forall i :: 0 <= i < |r| ==> 0 <= r[i] <= MAX_COMMANDED_ANGLE
  {
    if n == 0 then []
    else
      var share := if !ws[n - 1].closed && ps[n - 1].SetAngle? then [ClampAngle(ps[n - 1].angle)] else [];
      CommandsUpTo(ws, ps, n - 1) + share
  }

  function Commands(ws: seq<Websocket>, ps: seq<Packet>): seq<int>
    requires |ws| == |ps|
    reads ws
  {
    CommandsUpTo(ws, ps, |ws|)
  }

  /** Whether socket `i`'s packet makes the handler raise. */
  predicate RaisesAt(ws: seq<Websocket>, ps: seq<Packet>, i: nat)
    requires |ws| == |ps| && i < |ws|
    reads ws
  {
    !ws[i].closed && ps[i].Raises?
  }

  /** The first socket, among the first `n`, whose packet makes the handler raise. */
  function FirstRaiseUpTo(ws: seq<Websocket>, ps: seq<Packet>, n: nat): (k: Option<nat>)
    requires |ws| == |ps| && n <= |ws|
    reads ws
    ensures k.Some? ==> k.value < n && RaisesAt(ws, ps, k.value)
  {
    if n == 0 then None
    else match FirstRaiseUpTo(ws, ps, n - 1)
      case Some(k) => Some(k)
      case None => if RaisesAt(ws, ps, n - 1) then Some(n - 1) else None
  }

  function FirstRaise(ws: seq<Websocket>, ps: seq<Packet>): Option<nat>
    requires |ws| == |ps|
    reads ws
  {
    FirstRaiseUpTo(ws, ps, |ws|)
  }

  predicate Distinct<T(==)>(s: seq<T>)
  {
    forall i, j :: 0 <= i < j < |s| ==> s[i] != s[j]
  }

  /** `list.remove(x)`: the first occurrence of `x` taken out. */
  function RemoveFirst<T(==)>(xs: seq<T>, x: T): seq<T>
    requires x in xs
  {
    if xs[0] == x then xs[1..] else [xs[0]] + RemoveFirst(xs[1..], x)
  }

  /** The elements of `xs` not in `rem`, in order. */
  function Without<T(==)>(xs: seq<T>, rem: seq<T>): seq<T>
  {
    if xs == [] then [] else (if xs[0] in rem then [] else [xs[0]]) + Without(xs[1..], rem)
  }

  /** The handler's global state: the `websockets` list and the angles
      written to `my_servo.angle`, oldest first. */
  class Firmware {
    var websockets: seq<Websocket>
    var servoAngles: seq<int>

    /** Each connection is listed once. */
    predicate Valid()
      reads this
    {
      Distinct(websockets)
    }

    constructor ()
      ensures Valid() && websockets == [] && servoAngles == []
    {
      websockets := [];
      servoAngles := [];
    }

    /** The `/websocket` route: a new socket is appended to the list. */
    method AcceptWebsocket() returns (w: Websocket)
      requires Valid()
      modifies this`websockets
      ensures Valid() && fresh(w) && !w.closed
      ensures websockets == old(websockets) + [w]
    {
      w := new Websocket();
      websockets := websockets + [w];
    }

    /** One pass of `handle_websocket_requests`, `packets[i]` being what socket
        `i` delivered. Closed sockets are collected and their packets ignored;
        open ones command the servo. If a packet raises, the exception leaves
        the pass at that socket and nothing is removed. Otherwise the closed
        sockets are removed one by one and the open ones stay, in order. */
    method HandlePass(packets: seq<Packet>) returns (completed: bool)
      requires Valid() && |packets| == |websockets|
      modifies this`websockets, this`servoAngles
      ensures Valid()
      ensures completed <==> FirstRaise(old(websockets), packets).None?
      ensures completed ==> servoAngles == old(servoAngles) + Commands(old(websockets), packets)
      ensures completed ==> websockets == Open(old(websockets))
      ensures !completed ==> websockets == old(websockets)
      ensures !completed ==>
        servoAngles == old(servoAngles) + CommandsUpTo(old(websockets), packets, FirstRaise(old(websockets), packets).value)
    {
      var removing;
      completed, removing := ScanSockets(packets);
      if completed {
        RemoveClosed(removing);
      }
    }

    /** The `for websocket in websockets` loop. */
    method ScanSockets(packets: seq<Packet>) returns (completed: bool, removing: seq<Websocket>)
      requires |packets| == |websockets|
      modifies this`servoAngles
      ensures completed <==> FirstRaise(websockets, packets).None?
      ensures completed ==> removing == Closed(websockets)
      ensures completed ==> servoAngles == old(servoAngles) + Commands(websockets, packets)
      ensures !completed ==>
        servoAngles == old(servoAngles) + CommandsUpTo(websockets, packets, FirstRaise(websockets, packets).value)
    {
      var ws := websockets;
      removing := [];
      var i := 0;
      while i < |ws|
        invariant 0 <= i <= |ws|
        invariant removing == ClosedUpTo(ws, i)
        invariant servoAngles == old(servoAngles) + CommandsUpTo(ws, packets, i)
        invariant FirstRaiseUpTo(ws, packets, i).None?
      {
        var websocket := ws[i];
        var packet := packets[i];
        if websocket.closed {
          removing := removing + [websocket];
        } else if packet.Raises? {
          FirstRaiseStays(ws, packets, i + 1, |ws|);
          return false, removing;
        } else if packet.SetAngle? {
          servoAngles := servoAngles + [ClampAngle(packet.angle)];
        }
        i := i + 1;
      }
      completed := true;
    }

    /** The `for remove in removing` loop: `websockets.remove` for each
        closed socket in turn. */
    method RemoveClosed(removing: seq<Websocket>)
      requires Valid() && removing == Closed(websockets)
      modifies this`websockets
      ensures Valid() && websockets == Open(old(websockets))
    {
      var ws := websockets;
      ClosedSublist(ws);
      WithoutNothing(ws);
      var j := 0;
      while j < |removing|
        invariant 0 <= j <= |removing|
        invariant websockets == Without(ws, removing[..j])
      {
        RemoveStep(ws, removing, j);
        websockets := RemoveFirst(websockets, removing[j]);
        j := j + 1;
      }
      assert removing[..j] == removing;
      OpenAfterRemoval(ws);
    }
  }

  /** The closed sockets of a list without repeats are some of its elements, each once. */
  lemma ClosedSublist(ws: seq<Websocket>)
    requires Distinct(ws)
    ensures Distinct(Closed(ws)) && forall w :: w in Closed(ws) ==> w in ws
  {
    ClosedDistinct(ws, |ws|);
    assert ws[..|ws|] == ws;
  }

  /** Removing the closed sockets from a list without repeats leaves its open
      sockets, with no repeats. */
  lemma OpenAfterRemoval(ws: seq<Websocket>)
    requires Distinct(ws)
    ensures Without(ws, Closed(ws)) == Open(ws) && Distinct(Open(ws))
  {
    WithoutClosed(ws, |ws|);
    assert ws[..|ws|] == ws;
    OpenDistinct(ws, |ws|);
  }

  /** One `remove` call of the removal loop. */
  lemma RemoveStep<T>(xs: seq<T>, rem: seq<T>, j: nat)
    requires Distinct(xs) && Distinct(rem) && j < |rem|
    requires forall w :: w in rem ==> w in xs
    ensures rem[j] in Without(xs, rem[..j])
    ensures RemoveFirst(Without(xs, rem[..j]), rem[j]) == Without(xs, rem[..j + 1])
  {
    var init := rem[..j];
    forall i | 0 <= i < |init|
      ensures init[i] != rem[j]
    {
      assert init[i] == rem[i];
    }
    RemoveFromWithout(xs, init, rem[j]);
    assert rem[..j + 1] == init + [rem[j]];
  }

  /** Once a raise is found, looking further does not change it. */
  lemma {:induction false} FirstRaiseStays(ws: seq<Websocket>, ps: seq<Packet>, n: nat, m: nat)
    requires |ws| == |ps| && n <= m <= |ws| && FirstRaiseUpTo(ws, ps, n).Some?
    ensures FirstRaiseUpTo(ws, ps, m) == FirstRaiseUpTo(ws, ps, n)
    decreases m - n
  {
    if m > n {
      FirstRaiseStays(ws, ps, n, m - 1);
    }
  }

  /** The exception leaves the pass at the first open socket whose packet
      raises; no open socket before it raises. */
  lemma {:induction false} FirstRaiseIsFirst(ws: seq<Websocket>, ps: seq<Packet>, n: nat)
    requires |ws| == |ps| && n <= |ws|
    ensures FirstRaiseUpTo(ws, ps, n).None? ==> forall j :: 0 <= j < n ==> !RaisesAt(ws, ps, j)
    ensures FirstRaiseUpTo(ws, ps, n).Some? ==>
      forall j :: 0 <= j < FirstRaiseUpTo(ws, ps, n).value ==> !RaisesAt(ws, ps, j)
    decreases n
  {
    if n > 0 {
      FirstRaiseIsFirst(ws, ps, n - 1);
    }
  }

  /** The closed and the open sockets among the first `n` are exactly those. */
  lemma {:induction false} PrefixMembers(ws: seq<Websocket>, n: nat)
    requires n <= |ws|
    ensures forall w :: w in ClosedUpTo(ws, n) <==> w in ws[..n] && w.closed
    ensures forall w :: w in OpenUpTo(ws, n) <==> w in ws[..n] && !w.closed
    decreases n
  {
    if n > 0 {
      PrefixMembers(ws, n - 1);
      assert ws[..n] == ws[..n - 1] + [ws[n - 1]];
    }
  }

  /** Pruning keeps exactly the open sockets and removes exactly the closed ones. */
  lemma PruneMembers(ws: seq<Websocket>)
    ensures forall w :: w in Open(ws) <==> w in ws && !w.closed
    ensures forall w :: w in Closed(ws) <==> w in ws && w.closed
  {
    PrefixMembers(ws, |ws|);
    assert ws[..|ws|] == ws;
  }

  lemma DistinctSnoc<T>(a: seq<T>, x: T)
    requires Distinct(a) && x !in a
    ensures Distinct(a + [x])
  {
    assert forall i :: 0 <= i < |a| ==> (a + [x])[i] == a[i];
  }

  lemma DistinctLast<T>(ws: seq<T>, n: nat)
    requires Distinct(ws) && 0 < n <= |ws|
    ensures ws[n - 1] !in ws[..n - 1]
  {
    var init := ws[..n - 1];
    forall j | 0 <= j < |init|
      ensures init[j] != ws[n - 1]
    {
      assert init[j] == ws[j];
    }
  }

  /** Collected from a list without repeats, the closed sockets have none either. */
  lemma {:induction false} ClosedDistinct(ws: seq<Websocket>, n: nat)
    requires Distinct(ws) && n <= |ws|
    ensures Distinct(ClosedUpTo(ws, n))
    decreases n
  {
    if n > 0 {
      ClosedDistinct(ws, n - 1);
      if ws[n - 1].closed {
        DistinctLast(ws, n);
        DistinctSnoc(ClosedUpTo(ws, n - 1), ws[n - 1]);
      }
    }
  }

  /** What stays after pruning has no repeats. */
  lemma {:induction false} OpenDistinct(ws: seq<Websocket>, n: nat)
    requires Distinct(ws) && n <= |ws|
    ensures Distinct(OpenUpTo(ws, n))
    decreases n
  {
    if n > 0 {
      OpenDistinct(ws, n - 1);
      if !ws[n - 1].closed {
        PrefixMembers(ws, n - 1);
        DistinctLast(ws, n);
        DistinctSnoc(OpenUpTo(ws, n - 1), ws[n - 1]);
      }
    }
  }

  /** The tail of a list without repeats has none and lacks the head. */
  lemma DistinctHead<T>(xs: seq<T>)
    requires Distinct(xs) && xs != []
    ensures xs[0] !in xs[1..] && Distinct(xs[1..])
  {
    forall k | 0 <= k < |xs[1..]|
      ensures xs[1..][k] != xs[0]
    {
      assert xs[1..][k] == xs[k + 1];
    }
    forall i, j | 0 <= i < j < |xs[1..]|
      ensures xs[1..][i] != xs[1..][j]
    {
      assert xs[1..][i] == xs[i + 1] && xs[1..][j] == xs[j + 1];
    }
  }

  lemma {:induction false} WithoutNothing<T>(xs: seq<T>)
    ensures Without(xs, []) == xs
    decreases |xs|
  {
    if xs != [] {
      WithoutNothing(xs[1..]);
    }
  }

  lemma {:induction false} WithoutAppend<T>(a: seq<T>, b: seq<T>, rem: seq<T>)
    ensures Without(a + b, rem) == Without(a, rem) + Without(b, rem)
    decreases |a|
  {
    if a == [] {
      assert a + b == b;
    } else {
      assert (a + b)[0] == a[0] && (a + b)[1..] == a[1..] + b;
      WithoutAppend(a[1..], b, rem);
    }
  }

  /** On a list without repeats, removing an element that is there and not
      yet removed extends the removal by it. */
  lemma {:induction false} RemoveFromWithout<T>(xs: seq<T>, rem: seq<T>, x: T)
    requires Distinct(xs) && x in xs && x !in rem
    ensures x in Without(xs, rem)
    ensures RemoveFirst(Without(xs, rem), x) == Without(xs, rem + [x])
    decreases |xs|
  {
    DistinctHead(xs);
    if xs[0] == x {
      WithoutAbsent(xs[1..], rem, x);
    } else {
      assert x in xs[1..] by {
        var k :| 0 <= k < |xs| && xs[k] == x;
        assert xs[1..][k - 1] == x;
      }
      RemoveFromWithout(xs[1..], rem, x);
      var w := Without(xs[1..], rem);
      if xs[0] !in rem {
        assert xs[0] !in rem + [x];
        assert Without(xs, rem) == [xs[0]] + w;
        assert ([xs[0]] + w)[0] == xs[0] && ([xs[0]] + w)[1..] == w;
        assert Without(xs, rem + [x]) == [xs[0]] + Without(xs[1..], rem + [x]);
      } else {
        assert xs[0] in rem + [x];
        assert Without(xs, rem) == w;
        assert Without(xs, rem + [x]) == Without(xs[1..], rem + [x]);
      }
    }
  }

  lemma {:induction false} WithoutAbsent<T>(xs: seq<T>, rem: seq<T>, x: T)
    requires x !in xs
    ensures Without(xs, rem + [x]) == Without(xs, rem)
    decreases |xs|
  {
    if xs != [] {
      WithoutAbsent(xs[1..], rem, x);
    }
  }

  /** Taking the closed sockets out of the list leaves the open ones. */
  lemma {:induction false} WithoutClosed(ws: seq<Websocket>, n: nat)
    requires n <= |ws|
    ensures Without(ws[..n], Closed(ws)) == OpenUpTo(ws, n)
    decreases n
  {
    if n == 0 {
      assert ws[..0] == [];
    } else {
      var x := ws[n - 1];
      WithoutClosed(ws, n - 1);
      assert ws[..n] == ws[..n - 1] + [x];
      WithoutAppend(ws[..n - 1], [x], Closed(ws));
      PruneMembers(ws);
      assert Without([x], Closed(ws)) == (if x in Closed(ws) then [] else [x]) + Without([x][1..], Closed(ws));
      assert [x][1..] == [];
    }
  }

  /** A closed socket's packet is never acted on: packets that differ only
      at closed sockets command the same angles and raise at the same place. */
  lemma {:induction false} ClosedPacketsIgnored(ws: seq<Websocket>, ps: seq<Packet>, qs: seq<Packet>, n: nat)
    requires |ws| == |ps| == |qs| && n <= |ws|
    requires forall i :: 0 <= i < |ws| && !ws[i].closed ==> ps[i] == qs[i]
    ensures CommandsUpTo(ws, ps, n) == CommandsUpTo(ws, qs, n)
    ensures FirstRaiseUpTo(ws, ps, n) == FirstRaiseUpTo(ws, qs, n)
    decreases n
  {
    if n > 0 {
      ClosedPacketsIgnored(ws, ps, qs, n - 1);
    }
  }
}
