/**
 * `LspClient`: frames JSON-RPC requests with a `Content-Length` header (the Base
 * Protocol of the Language Server Protocol, version 3.17), and reads framed responses
 * back, skipping messages until one carries the expected id.
 *
 * The TCP stream is modelled by the bytes the server sends (read through a cursor)
 * and the bytes the client has written. JSON parsing and serialisation are opaque
 * functions fixed for the client's lifetime.
 */
module Lsp {
  import opened Wrappers
  import opened Text

  type u32 = x: int | 0 <= x < 0x1_0000_0000

  /** The id the initialize request carries. */
  const InitializeId: nat := 1
  /** The id the definition request carries and whose response is awaited. */
  const DefinitionId: nat := 2

  /**
   * What serde sees as a message's `id` member: absent (or the message is not an
   * object), an unsigned integer, or any other JSON value (a string, a negative or
   * fractional number, null ...), which never equals an unsigned id.
   */
  datatype JsonId = NoId | UnsignedId(n: nat) | OtherId

  /** `serde_json::from_slice::<Value>` on a body: not JSON, or a JSON value with its `id`. */
  datatype Json = NotJson | Json(id: JsonId)

  /** The messages the client sends; serialisation of their full payloads is opaque. */
  datatype Request =
    | Initialize(id: nat, processId: nat, rootUri: string, workspaceName: string)
    | Initialized
    | Definition(id: nat, uri: string, line: u32, character: u32)

  datatype LspError =
    | PathNotAbsolute
    | UnexpectedEof
    | HeaderNotUtf8
    | MissingContentLength
    /**
     * `vec![0; n]` for a body longer than `isize::MAX` bytes: Rust panics with
     * "capacity overflow" before reading the body; the model ends the read here.
     */
    | CapacityOverflow

  /** `format!("file://{}", path)` */
  function FileUri(path: string): (uri: string)
    ensures |uri| == 7 + |path| && uri[..7] == "file://" && uri[7..] == path
  {
    "file://" + path
  }

  /**
   * `PathBuf::is_absolute` on Unix: the path starts at the root. Exactly those paths
   * give a `file:///` URI, with an empty authority.
   */
  predicate IsAbsolute(path: string)
    ensures IsAbsolute(path) <==> |FileUri(path)| >= 8 && FileUri(path)[..8] == "file:///"
  {
    |path| > 0 && path[0] == '/'
  }

  // ---------------------------------------------------------------------------
  // Framing

  /** The bytes `\r\n\r\n` that end a header. */
  function Terminator(): (t: bytes)
    ensures |t| == 4 && t[0] == CR
  {
    [CR, LF, CR, LF]
  }

  /** The header field name `Content-Length:`. */
  function ContentLengthName(): (r: bytes)
    ensures |r| == 15 && forall i | 0 <= i < 15 :: 32 <= r[i] < 0x80
  {
    [0x43, 0x6F, 0x6E, 0x74, 0x65, 0x6E, 0x74, 0x2D, 0x4C, 0x65, 0x6E, 0x67, 0x74, 0x68, 0x3A]
  }

  /** The bytes above spell `Content-Length:`. */
  lemma ContentLengthNameIsAscii()
    ensures ContentLengthName() == Ascii("Content-Length:")
  {
  }

  /** The header `send_request` writes before a body of `n` bytes. */
  function FrameHeader(n: nat): (h: bytes)
    ensures |h| >= 4 + 17 && h[|h| - 4..] == Terminator()
  {
    ContentLengthName() + [SP] + Decimal(n) + Terminator()
  }

  /** `send_request`'s output: `Content-Length: <n>\r\n\r\n` and then the body itself. */
  function Frame(body: bytes): (f: bytes)
    ensures |f| == |FrameHeader(|body|)| + |body|
    ensures f[|f| - |body|..] == body
  {
    FrameHeader(|body|) + body
  }

  /**
   * A frame splits into its header, which starts with `Content-Length: ` and ends with
   * `\r\n\r\n`, and the body after it.
   */
  lemma FrameParts(body: bytes)
    ensures var f, h := Frame(body), FrameHeader(|body|);
      && f[..|h|] == h && f[|h|..] == body
      && h[..16] == ContentLengthName() + [SP]
      && h[|h| - 4..] == Terminator()
  {
    var h := FrameHeader(|body|);
    assert h == (ContentLengthName() + [SP]) + (Decimal(|body|) + Terminator());
  }

  // ---------------------------------------------------------------------------
  // The header scan

  /**
   * `header_buffer.ends_with(b"\r\n\r\n")`, written byte by byte. It is the same test as
   * `EndsWith(buffer, Terminator())` (see the lemma below); the byte form keeps the scan and
   * the read loop free of slice equalities, which the solver handles far less cheaply.
   */
  predicate EndsWithTerminator(buffer: bytes) {
    var n := |buffer|;
    n >= 4 && buffer[n - 4] == CR && buffer[n - 3] == LF && buffer[n - 2] == CR && buffer[n - 1] == LF
  }

  /** The byte test above is `EndsWith` for the terminator. */
  lemma EndsWithTerminatorIsEndsWith(buffer: bytes)
    ensures EndsWithTerminator(buffer) <==> EndsWith(buffer, Terminator())
  {
    if |buffer| >= 4 {
      var tail := buffer[|buffer| - 4..];
      assert tail == [tail[0], tail[1], tail[2], tail[3]];
    }
  }

  /**
   * Reading one byte at a time from `pos`, having read up to `e`: where the header ends
   * (the first `e' >= e` at which the bytes read end with `\r\n\r\n`), or none if the
   * input ends first.
   */
  function HeaderScan(s: bytes, pos: nat, e: nat): (r: Option<nat>)
    requires pos <= e <= |s|
    ensures r.Some? ==> e <= r.value <= |s| && EndsWithTerminator(s[pos..r.value])
    decreases |s| - e
  {
    if EndsWithTerminator(s[pos..e]) then Some(e)
    else if e == |s| then None
    else HeaderScan(s, pos, e + 1)
  }

  /**
   * The scan stops at the first position whose bytes read end with `\r\n\r\n`: no
   * earlier position does, and when it finds none, none exists up to the end of input.
   */
  lemma {:induction false} HeaderScanIsFirst(s: bytes, pos: nat, e: nat)
    requires pos <= e <= |s|
    ensures var r := HeaderScan(s, pos, e);
      && (r.Some? ==> forall k | e <= k < r.value :: !EndsWithTerminator(s[pos..k]))
      && (r.None? ==> forall k | e <= k <= |s| :: !EndsWithTerminator(s[pos..k]))
    decreases |s| - e
  {
    if !EndsWithTerminator(s[pos..e]) && e < |s| {
      HeaderScanIsFirst(s, pos, e + 1);
    }
  }

  /** The scan finds a position that ends the header when no earlier position does. */
  lemma {:induction false} HeaderScanFinds(s: bytes, pos: nat, e0: nat, e: nat)
    requires pos <= e0 <= e <= |s| && EndsWithTerminator(s[pos..e])
    requires forall k | e0 <= k < e :: !EndsWithTerminator(s[pos..k])
    ensures HeaderScan(s, pos, e0) == Some(e)
    decreases e - e0
  {
    if e0 < e {
      HeaderScanFinds(s, pos, e0 + 1, e);
    }
  }

  /** Where the header that starts at `pos` ends: after the shortest run of bytes that ends with `\r\n\r\n`. */
  function HeaderEnd(s: bytes, pos: nat): (r: Option<nat>)
    requires pos <= |s|
    ensures r.Some? ==> pos + 4 <= r.value <= |s| && s[r.value - 4..r.value] == Terminator()
  {
    var r := HeaderScan(s, pos, pos);
    assert r.Some? ==> s[pos..r.value][r.value - pos - 4..] == s[r.value - 4..r.value];
    r
  }

  // ---------------------------------------------------------------------------
  // The Content-Length field

  /** Index of the first `b` in `s`, if any. */
  function IndexOf(s: bytes, b: byte): (r: Option<nat>)
    ensures r.Some? ==> r.value < |s| && s[r.value] == b && forall k | 0 <= k < r.value :: s[k] != b
    ensures r.None? ==> forall k | 0 <= k < |s| :: s[k] != b
  {
    if s == [] then None
    else if s[0] == b then Some(0)
    else match IndexOf(s[1..], b)
      case None => None
      case Some(i) => Some(i + 1)
  }

  /** A line without the `\r` of its `\r\n` ending. */
  function StripCR(line: bytes): (r: bytes)
    ensures r == line || (line == r + [CR])
  {
    if |line| > 0 && line[|line| - 1] == CR then line[..|line| - 1] else line
  }

  /**
   * `str::lines`: the lines of `s`, split at each `\n` (and at `\r\n`, whose `\r` is
   * dropped); a final line without ending is kept and no empty line follows a final `\n`.
   */
  function Lines(s: bytes): (r: seq<bytes>)
    ensures forall i | 0 <= i < |r| :: LF !in r[i]
    decreases |s|
  {
    if s == [] then []
    else match IndexOf(s, LF)
      case None => [s]
      case Some(i) => [StripCR(s[..i])] + Lines(s[i + 1..])
  }

  /** Lines joined back together, with `\n` between each and the next. */
  function Join(ls: seq<bytes>): bytes {
    if ls == [] then [] else if |ls| == 1 then ls[0] else ls[0] + [LF] + Join(ls[1..])
  }

  /** `s` without the `\r` of each `\r\n`. */
  function DropCR(s: bytes): (r: bytes)
    ensures r == [] <==> s == []
  {
    if |s| < 2 then s
    else if s[0] == CR && s[1] == LF then DropCR(s[1..])
    else [s[0]] + DropCR(s[1..])
  }

  /** `s` without a final `\n`. */
  function Chomp(s: bytes): bytes {
    if |s| > 0 && s[|s| - 1] == LF then s[..|s| - 1] else s
  }

  /** Text without a line break has no `\r\n` to drop. */
  lemma {:induction false} DropCRNoLF(s: bytes)
    requires LF !in s
    ensures DropCR(s) == s
  {
    if |s| >= 2 {
      assert s[1] in s;
      assert forall k | 0 <= k < |s[1..]| :: s[1..][k] == s[k + 1];
      DropCRNoLF(s[1..]);
      assert s == [s[0]] + s[1..];
    }
  }

  /** A byte that does not start a `\r\n` is kept by `DropCR`. */
  lemma DropCRCons(c: byte, t: bytes)
    requires t != [] && !(c == CR && t[0] == LF)
    ensures DropCR([c] + t) == [c] + DropCR(t)
  {
    assert ([c] + t)[1..] == t;
  }

  /** A line keeps its first byte when its `\r` ending is stripped. */
  lemma StripCRCons(c: byte, t: bytes)
    requires t != [] || c != CR
    ensures StripCR([c] + t) == [c] + StripCR(t)
  {
    var a := [c] + t;
    if t != [] {
      assert a[|a| - 1] == t[|t| - 1];
      assert a[..|a| - 1] == [c] + t[..|t| - 1];
    }
  }

  /** Dropping `\r`s at the first line break: the line before it loses its `\r` ending. */
  lemma {:induction false} DropCRSplit(a: bytes, b: bytes)
    requires LF !in a
    ensures DropCR(a + [LF] + b) == StripCR(a) + [LF] + DropCR(b)
    decreases |a|
  {
    if a == [] {
      DropCRSplitEmpty(b);
    } else {
      var c, t := a[0], a[1..];
      assert a == [c] + t;
      assert LF !in t by {
        forall k | 0 <= k < |t| ensures t[k] != LF { assert t[k] == a[k + 1]; }
      }
      DropCRSplit(t, b);
      if c == CR && t == [] {
        DropCRSplitCR(b);
      } else {
        DropCRSplitCons(c, t, b);
      }
    }
  }

  /** `DropCRSplit` for an empty line. */
  lemma DropCRSplitEmpty(b: bytes)
    ensures DropCR([] + [LF] + b) == StripCR([]) + [LF] + DropCR(b)
  {
    assert [] + [LF] + b == [LF] + b;
    if b != [] {
      DropCRCons(LF, b);
    }
  }

  /** `DropCRSplit` for a line that is a lone `\r`. */
  lemma DropCRSplitCR(b: bytes)
    ensures DropCR([CR] + [LF] + b) == StripCR([CR]) + [LF] + DropCR(b)
  {
    assert ([CR] + [LF] + b)[1..] == [LF] + b;
    DropCRSplitEmpty(b);
  }

  /** `DropCRSplit` for a line with a first byte that is not a lone `\r`, from the rest of the line. */
  lemma DropCRSplitCons(c: byte, t: bytes, b: bytes)
    requires LF !in t && !(c == CR && t == [])
    requires DropCR(t + [LF] + b) == StripCR(t) + [LF] + DropCR(b)
    ensures DropCR([c] + t + [LF] + b) == StripCR([c] + t) + [LF] + DropCR(b)
  {
    var u := t + [LF] + b;
    assert !(c == CR && u[0] == LF) by {
      if t != [] { assert u[0] == t[0] && t[0] in t; }
    }
    DropCRCons(c, u);
    StripCRCons(c, t);
    LineAssoc(c, t, b);
    LineAssoc(c, StripCR(t), DropCR(b));
  }

  /**
   * Regrouping a byte, a line, a line break and the rest. Associativity of `+` only; a
   * separate lemma so the proofs above need not ask the solver for it inline.
   */
  lemma LineAssoc(c: byte, x: bytes, y: bytes)
    ensures [c] + (x + [LF] + y) == [c] + x + [LF] + y
  {
  }

  /** Removing the final `\n` of a text of several lines keeps the earlier lines whole. */
  lemma ChompAfter(x: bytes, y: bytes)
    requires y != []
    ensures Chomp(x + y) == x + Chomp(y)
  {
    if y[|y| - 1] == LF {
      assert (x + y)[..|x + y| - 1] == x + y[..|y| - 1];
    }
  }

  /**
   * `str::lines` loses only line endings: joining the lines with `\n` gives back the
   * text without the `\r` of each `\r\n` and without a final `\n`. There are no lines
   * exactly when the text is empty.
   */
  lemma {:induction false} LinesJoin(s: bytes)
    ensures Lines(s) == [] <==> s == []
    ensures Join(Lines(s)) == Chomp(DropCR(s))
    decreases |s|
  {
    if s != [] {
      match IndexOf(s, LF)
      case None =>
        assert LF !in s;
        DropCRNoLF(s);
      case Some(i) =>
        var a, b := s[..i], s[i + 1..];
        assert s == a + [LF] + b;
        assert LF !in a by {
          forall k | 0 <= k < |a| ensures a[k] != LF { assert a[k] == s[k]; }
        }
        DropCRSplit(a, b);
        LinesJoin(b);
        var head := StripCR(a) + [LF];
        if b == [] {
          assert Lines(s) == [StripCR(a)];
          assert DropCR(s) == head;
          assert head[..|head| - 1] == StripCR(a);
        } else {
          assert Lines(s) == [StripCR(a)] + Lines(b);
          assert Join(Lines(s)) == StripCR(a) + [LF] + Join(Lines(b));
          ChompAfter(head, DropCR(b));
        }
    }
  }

  /** The value one line gives: its trimmed text after `Content-Length:`, if it parses as a `usize`. */
  function LineValue(line: bytes): (r: Option<nat>)
    ensures r.Some? ==> StartsWith(line, ContentLengthName()) && r.value <= UsizeMax
    ensures StartsWith(line, ContentLengthName()) ==> r == ParseUsize(Trim(line[|ContentLengthName()|..]))
  {
    if StartsWith(line, ContentLengthName()) then ParseUsize(Trim(line[|ContentLengthName()|..])) else None
  }

  /** The index of the first item for which `f` gives a value. */
  function FirstSome(xs: seq<bytes>, f: bytes -> Option<nat>): (r: Option<nat>)
    ensures r.Some? ==> r.value < |xs| && f(xs[r.value]).Some?
    ensures r.Some? ==> forall j | 0 <= j < r.value :: f(xs[j]).None?
    ensures r.None? ==> forall j | 0 <= j < |xs| :: f(xs[j]).None?
  {
    if xs == [] then None
    else if f(xs[0]).Some? then Some(0)
    else match FirstSome(xs[1..], f)
      case None => None
      case Some(i) => Some(i + 1)
  }

  /** `find_map`: the value `f` gives for the first item for which it gives one. */
  function FindMap(xs: seq<bytes>, f: bytes -> Option<nat>): Option<nat> {
    match FirstSome(xs, f)
    case None => None
    case Some(i) => f(xs[i])
  }

  /**
   * `find_map` gives the value of the first item that has one, and nothing exactly
   * when no item has a value.
   */
  lemma FindMapIsFirst(xs: seq<bytes>, f: bytes -> Option<nat>)
    ensures FindMap(xs, f).Some? ==> exists i | 0 <= i < |xs| ::
      && f(xs[i]) == FindMap(xs, f)
      && forall j | 0 <= j < i :: f(xs[j]).None?
    ensures FindMap(xs, f).None? <==> forall i | 0 <= i < |xs| :: f(xs[i]).None?
  {
    var k := FirstSome(xs, f);
    if k.Some? {
      assert f(xs[k.value]).Some?;
    }
  }

  /**
   * The content length a header declares: the value of its first line that starts with
   * `Content-Length:` and whose trimmed remainder parses as a `usize`, if any.
   */
  function ContentLength(header: bytes): (r: Option<nat>)
    ensures r.Some? ==> r.value <= UsizeMax
    ensures r.Some? ==> exists i | 0 <= i < |Lines(header)| ::
      && StartsWith(Lines(header)[i], ContentLengthName())
      && LineValue(Lines(header)[i]) == r
      && forall j | 0 <= j < i :: LineValue(Lines(header)[j]).None?
    ensures r.None? <==> forall i | 0 <= i < |Lines(header)| :: LineValue(Lines(header)[i]).None?
  {
    FindMapIsFirst(Lines(header), LineValue);
    FindMap(Lines(header), LineValue)
  }

  /**
   * How `read_response` reads a header: `String::from_utf8`, then the content length;
   * either step can fail.
   */
  function BodyLength(header: bytes): (r: Result<nat, LspError>)
    ensures r == Err(HeaderNotUtf8) <==> !ValidUtf8(header)
    ensures r == Err(MissingContentLength) <==> ValidUtf8(header) && ContentLength(header).None?
    ensures r.Ok? <==> ValidUtf8(header) && ContentLength(header).Some?
    ensures r.Ok? ==> Some(r.value) == ContentLength(header) && r.value <= UsizeMax
  {
    if !ValidUtf8(header) then Err(HeaderNotUtf8)
    else match ContentLength(header)
      case None => Err(MissingContentLength)
      case Some(n) => Ok(n)
  }

  // ---------------------------------------------------------------------------
  // `read_response`

  /** The body matches what the caller waits for: it is JSON and, if an id is expected, has that id. */
  predicate Matches(json: Json, expected: Option<nat>) {
    json.Json? && (expected.None? || json.id == UnsignedId(expected.value))
  }

  /** What a read returns, and where the stream's cursor is left. */
  datatype ReadOutcome = ReadOutcome(result: Result<bytes, LspError>, cursor: nat)

  /**
   * `read_response(expected)` on the input `s` from `pos`: read a header up to the first
   * `\r\n\r\n`, then go on as `ReadMessage` says; the input may end first. `bodyLength`
   * is how a header is read (the client reads it with `BodyLength`).
   */
  function ReadFrom(s: bytes, pos: nat, expected: Option<nat>, parse: bytes -> Json, bodyLength: bytes -> Result<nat, LspError>): (o: ReadOutcome)
    requires pos <= |s|
    ensures pos <= o.cursor <= |s|
    ensures o.result.Ok? ==> Matches(parse(o.result.value), expected)
    decreases |s| - pos, 1
  {
    match HeaderEnd(s, pos)
    case None => ReadOutcome(Err(UnexpectedEof), |s|)
    case Some(h) => ReadMessage(s, pos, h, expected, parse, bodyLength)
  }

  /**
   * The rest of a read whose header is `s[pos..h]`: the header must give a body length;
   * read that many body bytes and return the body if it matches, or skip it and read the
   * next message.
   */
  function ReadMessage(s: bytes, pos: nat, h: nat, expected: Option<nat>, parse: bytes -> Json, bodyLength: bytes -> Result<nat, LspError>): (o: ReadOutcome)
    requires pos < h <= |s|
    ensures pos <= o.cursor <= |s|
    ensures o.result.Ok? ==> Matches(parse(o.result.value), expected)
    decreases |s| - pos, 0
  {
    match bodyLength(s[pos..h])
    case Err(e) => ReadOutcome(Err(e), h)
    case Ok(n) =>
      if n > IsizeMax then ReadOutcome(Err(CapacityOverflow), h)
      else if h + n > |s| then ReadOutcome(Err(UnexpectedEof), |s|)
      else if Matches(parse(s[h..h + n]), expected) then ReadOutcome(Ok(s[h..h + n]), h + n)
      else ReadFrom(s, h + n, expected, parse, bodyLength)
  }

  /**
   * The steps of one read, after the header that starts at `pos` ends at `h`: `ReadFrom`
   * unfolded by one step, once per outcome, so that `ReadFrame` and
   * `LspClient.ReadResponse` can use it without unfolding the whole definition.
   */
  lemma ReadFromHeader(s: bytes, pos: nat, h: nat, expected: Option<nat>, parse: bytes -> Json, bodyLength: bytes -> Result<nat, LspError>)
    requires pos <= |s| && HeaderEnd(s, pos) == Some(h)
    ensures bodyLength(s[pos..h]).Err? ==>
      ReadFrom(s, pos, expected, parse, bodyLength) == ReadOutcome(Err(bodyLength(s[pos..h]).error), h)
    ensures bodyLength(s[pos..h]).Ok? ==>
      var n := bodyLength(s[pos..h]).value;
      && (n > IsizeMax ==> ReadFrom(s, pos, expected, parse, bodyLength) == ReadOutcome(Err(CapacityOverflow), h))
      && (n <= IsizeMax && h + n > |s| ==> ReadFrom(s, pos, expected, parse, bodyLength) == ReadOutcome(Err(UnexpectedEof), |s|))
      && (n <= IsizeMax && h + n <= |s| && Matches(parse(s[h..h + n]), expected) ==>
            ReadFrom(s, pos, expected, parse, bodyLength) == ReadOutcome(Ok(s[h..h + n]), h + n))
      && (n <= IsizeMax && h + n <= |s| && !Matches(parse(s[h..h + n]), expected) ==>
            ReadFrom(s, pos, expected, parse, bodyLength) == ReadFrom(s, h + n, expected, parse, bodyLength))
  {
  }

  /** A read that finds no header terminator before the input ends fails with end of input. */
  lemma ReadFromNoHeader(s: bytes, pos: nat, expected: Option<nat>, parse: bytes -> Json, bodyLength: bytes -> Result<nat, LspError>)
    requires pos <= |s| && forall k | pos <= k <= |s| :: !EndsWithTerminator(s[pos..k])
    ensures ReadFrom(s, pos, expected, parse, bodyLength) == ReadOutcome(Err(UnexpectedEof), |s|)
  {
    assert HeaderScan(s, pos, pos).None?;
  }

  // ---------------------------------------------------------------------------
  // What `send_request` writes is what `read_response` reads

  /** A header ends at the first place where the bytes read so far end with `\r\n\r\n`. */
  lemma HeaderEndAt(s: bytes, pos: nat, e: nat)
    requires pos <= e <= |s| && EndsWithTerminator(s[pos..e])
    requires forall k | pos <= k < e :: !EndsWithTerminator(s[pos..k])
    ensures HeaderEnd(s, pos) == Some(e)
  {
    HeaderScanFinds(s, pos, pos, e);
  }

  /** The header line `Content-Length: <n>` without its line ending. */
  function LengthLine(n: nat): (l: bytes)
    ensures |l| == 16 + |Decimal(n)|
  {
    ContentLengthName() + [SP] + Decimal(n)
  }

  /** The frame header is its `Content-Length` line followed by `\r\n\r\n`. */
  lemma FrameHeaderLine(n: nat)
    ensures FrameHeader(n) == LengthLine(n) + Terminator()
    ensures CR !in LengthLine(n) && LF !in LengthLine(n)
    ensures AllAsciiBytes(FrameHeader(n))
  {
    var name, space, d := ContentLengthName(), [SP], Decimal(n);
    var l := LengthLine(n);
    forall i | 0 <= i < |l| ensures 32 <= l[i] < 0x80 {
      if i < 15 {
        assert l[i] == name[i];
      } else if i == 15 {
        assert l[i] == space[0];
      } else {
        assert l[i] == d[i - 16];
      }
    }
    var h := FrameHeader(n);
    assert h == l + Terminator();
    forall i | 0 <= i < |h| ensures h[i] < 0x80 {
      if i < |l| { assert h[i] == l[i]; }
    }
  }

  /** A frame's header ends exactly where its body starts. */
  lemma FrameHeaderEnd(s: bytes, pos: nat, n: nat)
    requires pos + |FrameHeader(n)| <= |s| && s[pos..pos + |FrameHeader(n)|] == FrameHeader(n)
    ensures HeaderEnd(s, pos) == Some(pos + |FrameHeader(n)|)
  {
    var h := FrameHeader(n);
    var l := LengthLine(n);
    FrameHeaderLine(n);
    var e := pos + |h|;
    assert s[pos..e][|h| - 4..] == Terminator();
    forall k | pos <= k < e ensures !EndsWithTerminator(s[pos..k]) {
      var m := k - pos;
      if m >= 4 {
        assert s[pos..k][m - 1] == h[m - 1] && s[pos..k][m - 4] == h[m - 4];
        if m - 1 < |l| {
          assert h[m - 1] == l[m - 1];
        } else if m - 1 == |l| + 1 {
          assert h[m - 4] == l[|l| - 2];
        }
      }
    }
    HeaderEndAt(s, pos, e);
  }

  /** A line without line breaks, followed by `\r\n\r\n`, is that line and one empty line. */
  lemma LinesOfHeaderLine(l: bytes)
    requires CR !in l && LF !in l
    ensures Lines(l + Terminator()) == [l, []]
  {
    var h := l + Terminator();
    assert h[|l| + 1] == LF;
    forall k | 0 <= k < |l| + 1 ensures h[k] != LF {
      if k < |l| { assert h[k] == l[k]; }
    }
    assert IndexOf(h, LF) == Some(|l| + 1);
    assert h[..|l| + 1] == l + [CR];
    assert (l + [CR])[..|l|] == l;
    assert StripCR(l + [CR]) == l;
    var rest: bytes := [CR, LF];
    assert h[|l| + 2..] == rest;
    assert IndexOf(rest, LF) == Some(1);
    assert rest[..1] == [CR] && rest[2..] == [];
    assert StripCR([CR]) == [];
    assert Lines(rest) == [[]];
  }

  /** The lines of a frame header: its `Content-Length` line and one empty line. */
  lemma FrameHeaderLines(n: nat)
    ensures Lines(FrameHeader(n)) == [LengthLine(n), []]
  {
    FrameHeaderLine(n);
    LinesOfHeaderLine(LengthLine(n));
  }

  /** The `Content-Length` line of a frame gives the frame's body length. */
  lemma LengthLineValue(n: nat)
    requires n <= UsizeMax
    ensures LineValue(LengthLine(n)) == Some(n)
  {
    var l := LengthLine(n);
    var d := Decimal(n);
    assert l[..15] == ContentLengthName();
    assert l[15..] == [SP] + d;
    TrimDropsLeadingSpace([SP], d);
    DecimalIsTrimmed(n);
    TrimmedIsFixed(d);
    ParseDecimal(n);
  }

  /**
   * `read_response` also accepts a `Content-Length:` line with any White_Space around
   * the numeral, as in `Content-Length:42` or `Content-Length:  42 `.
   */
  lemma SpacedLengthLineValue(before: seq<bytes>, n: nat, after: seq<bytes>)
    requires n <= UsizeMax
    requires forall i | 0 <= i < |before| :: IsSpaceChar(before[i])
    requires forall i | 0 <= i < |after| :: IsSpaceChar(after[i])
    ensures LineValue(ContentLengthName() + Concat(before) + Decimal(n) + Concat(after)) == Some(n)
  {
    var a, d, c := Concat(before), Decimal(n), Concat(after);
    Regroup(ContentLengthName(), a, d, c);
    TrimSpacedDecimal(before, n, after);
    NamedLineValue(a + d + c, n);
  }

  /**
   * Regrouping a line's name and the three parts of its value. Associativity of `+` only;
   * a separate lemma so the proof above need not ask the solver for it inline.
   */
  lemma Regroup(name: bytes, a: bytes, d: bytes, c: bytes)
    ensures name + a + d + c == name + (a + d + c)
  {
  }

  /** A line that is `Content-Length:` and then text that trims to `n`'s numeral gives `n`. */
  lemma NamedLineValue(value: bytes, n: nat)
    requires n <= UsizeMax && Trim(value) == Decimal(n)
    ensures LineValue(ContentLengthName() + value) == Some(n)
  {
    var l := ContentLengthName() + value;
    assert l[..15] == ContentLengthName() && l[15..] == value;
    ParseDecimal(n);
  }

  /** The header `send_request` writes is well-formed UTF-8. */
  lemma FrameHeaderIsUtf8(n: nat)
    ensures ValidUtf8(FrameHeader(n))
  {
    FrameHeaderLine(n);
    AsciiIsUtf8(FrameHeader(n));
  }

  /** The header `send_request` writes declares the body's length. */
  lemma FrameHeaderLength(n: nat)
    requires n <= UsizeMax
    ensures ContentLength(FrameHeader(n)) == Some(n)
  {
    FrameHeaderLines(n);
    LengthLineValue(n);
    assert FirstSome(Lines(FrameHeader(n)), LineValue) == Some(0);
  }

  /** `bodyLength` reads every header `send_request` writes as the length of the body it frames. */
  ghost predicate ReadsFrameHeaders(bodyLength: bytes -> Result<nat, LspError>) {
    forall n: nat | n <= UsizeMax :: bodyLength(FrameHeader(n)) == Ok(n)
  }

  /** `BodyLength` reads the headers `send_request` writes. */
  lemma BodyLengthReadsFrameHeaders()
    ensures ReadsFrameHeaders(BodyLength)
  {
    forall n: nat | n <= UsizeMax ensures BodyLength(FrameHeader(n)) == Ok(n) {
      FrameHeaderIsUtf8(n);
      FrameHeaderLength(n);
    }
  }

  /**
   * Round trip: a frame `send_request` wrote, found at the read position, is read back
   * as its body when the body matches; otherwise it is skipped whole and the read goes
   * on after it.
   */
  lemma ReadFrame(s: bytes, pos: nat, end: nat, body: bytes, expected: Option<nat>, parse: bytes -> Json, bodyLength: bytes -> Result<nat, LspError>)
    requires ReadsFrameHeaders(bodyLength) && |body| <= IsizeMax
    requires pos <= end <= |s| && s[pos..end] == Frame(body)
    ensures Matches(parse(body), expected) ==>
      ReadFrom(s, pos, expected, parse, bodyLength) == ReadOutcome(Ok(body), end)
    ensures !Matches(parse(body), expected) ==>
      ReadFrom(s, pos, expected, parse, bodyLength) == ReadFrom(s, end, expected, parse, bodyLength)
  {
    var n := |body|;
    var h := FrameHeader(n);
    var e := pos + |h|;
    var f := s[pos..end];
    assert e + n == end;
    assert s[pos..e] == h by {
      assert s[pos..e] == f[..|h|];
    }
    assert s[e..e + n] == body by {
      assert s[e..e + n] == f[|h|..];
    }
    FrameHeaderEnd(s, pos, n);
    assert bodyLength(s[pos..e]) == Ok(n);
    ReadFromHeader(s, pos, e, expected, parse, bodyLength);
  }

  /** Two frames in a row: the definition read skips a response with id 99 and returns the one with id 2. */
  lemma ReadTwoFrames(s: bytes, m: nat, b1: bytes, b2: bytes, parse: bytes -> Json, bodyLength: bytes -> Result<nat, LspError>)
    requires ReadsFrameHeaders(bodyLength) && |b1| <= IsizeMax && |b2| <= IsizeMax
    requires parse(b1) == Json(UnsignedId(99)) && parse(b2) == Json(UnsignedId(DefinitionId))
    requires m <= |s| && s[0..m] == Frame(b1) && s[m..|s|] == Frame(b2)
    ensures ReadFrom(s, 0, Some(DefinitionId), parse, bodyLength) == ReadOutcome(Ok(b2), |s|)
    ensures ReadFrom(s, 0, None, parse, bodyLength) == ReadOutcome(Ok(b1), m)
  {
    assert !Matches(parse(b1), Some(DefinitionId));
    ReadFrame(s, 0, m, b1, Some(DefinitionId), parse, bodyLength);
    ReadFrame(s, m, |s|, b2, Some(DefinitionId), parse, bodyLength);
    ReadFrame(s, 0, m, b1, None, parse, bodyLength);
  }

  /**
   * Waiting for the definition response skips a response with another id (99) that
   * comes first and returns the one with id 2; the initialize request, which expects no
   * id, takes the first response.
   */
  lemma SkipsUnrelatedResponse(b1: bytes, b2: bytes, parse: bytes -> Json, bodyLength: bytes -> Result<nat, LspError>)
    requires ReadsFrameHeaders(bodyLength) && |b1| <= IsizeMax && |b2| <= IsizeMax
    requires parse(b1) == Json(UnsignedId(99)) && parse(b2) == Json(UnsignedId(DefinitionId))
    ensures ReadFrom(Frame(b1) + Frame(b2), 0, Some(DefinitionId), parse, bodyLength)
      == ReadOutcome(Ok(b2), |Frame(b1)| + |Frame(b2)|)
    ensures ReadFrom(Frame(b1) + Frame(b2), 0, None, parse, bodyLength) == ReadOutcome(Ok(b1), |Frame(b1)|)
  {
    var s := Frame(b1) + Frame(b2);
    var m := |Frame(b1)|;
    assert s[0..m] == Frame(b1);
    assert s[m..|s|] == Frame(b2);
    ReadTwoFrames(s, m, b1, b2, parse, bodyLength);
  }

  /** Frames `send_request` wrote back to back, one per body. */
  function Frames(bs: seq<bytes>): bytes {
    if bs == [] then [] else Frame(bs[0]) + Frames(bs[1..])
  }

  /** None of the bodies `bs` is one the read accepts. */
  ghost predicate NoneMatch(bs: seq<bytes>, expected: Option<nat>, parse: bytes -> Json) {
    forall i | 0 <= i < |bs| :: !Matches(parse(bs[i]), expected)
  }

  /**
   * Reading a run of frames none of whose bodies the caller accepts: the read skips
   * the whole run and goes on after it.
   */
  lemma SkipFrames(s: bytes, pos: nat, bs: seq<bytes>, expected: Option<nat>, parse: bytes -> Json, bodyLength: bytes -> Result<nat, LspError>)
    requires ReadsFrameHeaders(bodyLength) && forall i | 0 <= i < |bs| :: |bs[i]| <= IsizeMax
    requires pos + |Frames(bs)| <= |s| && s[pos..pos + |Frames(bs)|] == Frames(bs)
    requires NoneMatch(bs, expected, parse)
    ensures ReadFrom(s, pos, expected, parse, bodyLength) == ReadFrom(s, pos + |Frames(bs)|, expected, parse, bodyLength)
  {
    FramesAtSlice(s, pos, bs);
    SkipFramesAt(s, pos, bs, expected, parse, bodyLength);
  }

  /**
   * Reading a run of frames whose last body is the first one the caller accepts: the
   * read returns that body, with the cursor after the run.
   */
  lemma ReadFramesToMatch(s: bytes, pos: nat, bs: seq<bytes>, b: bytes, expected: Option<nat>, parse: bytes -> Json, bodyLength: bytes -> Result<nat, LspError>)
    requires ReadsFrameHeaders(bodyLength) && forall i | 0 <= i < |bs + [b]| :: |(bs + [b])[i]| <= IsizeMax
    requires pos + |Frames(bs + [b])| <= |s| && s[pos..pos + |Frames(bs + [b])|] == Frames(bs + [b])
    requires NoneMatch(bs, expected, parse) && Matches(parse(b), expected)
    ensures ReadFrom(s, pos, expected, parse, bodyLength) == ReadOutcome(Ok(b), pos + |Frames(bs + [b])|)
  {
    FramesAtSlice(s, pos, bs + [b]);
    ReadToMatchAt(s, pos, bs, b, expected, parse, bodyLength);
  }

  /** A slice that holds `x + y` holds `x` and then `y`. */
  lemma SliceSplit(s: bytes, pos: nat, x: bytes, y: bytes)
    requires pos + |x + y| <= |s| && s[pos..pos + |x + y|] == x + y
    ensures s[pos..pos + |x|] == x && s[pos + |x|..pos + |x| + |y|] == y
  {
    assert s[pos..pos + |x|] == (x + y)[..|x|];
    assert s[pos + |x|..pos + |x| + |y|] == (x + y)[|x|..];
  }

  /** The frames of a list of bodies, found at `pos`: the first frame, then the frames of the rest. */
  lemma FramesCons(bs: seq<bytes>, s: bytes, pos: nat)
    requires bs != [] && pos + |Frames(bs)| <= |s| && s[pos..pos + |Frames(bs)|] == Frames(bs)
    ensures var end := pos + |Frame(bs[0])|;
      && end + |Frames(bs[1..])| == pos + |Frames(bs)|
      && s[pos..end] == Frame(bs[0])
      && s[end..end + |Frames(bs[1..])|] == Frames(bs[1..])
  {
    var x, y := Frame(bs[0]), Frames(bs[1..]);
    assert Frames(bs) == x + y;
    SliceSplit(s, pos, x, y);
  }

  /** `s` holds the frame of `body` from `pos`, and the body can be allocated. */
  ghost predicate FrameAt(s: bytes, pos: nat, body: bytes) {
    |body| <= IsizeMax && pos + |Frame(body)| <= |s| && s[pos..pos + |Frame(body)|] == Frame(body)
  }

  /** `s` holds the frames of `bs` one after another from `pos`. */
  ghost predicate FramesAt(s: bytes, pos: nat, bs: seq<bytes>)
    decreases |bs|
  {
    bs == [] || (FrameAt(s, pos, bs[0]) && FramesAt(s, pos + |Frame(bs[0])|, bs[1..]))
  }

  lemma {:induction false} FramesAtSlice(s: bytes, pos: nat, bs: seq<bytes>)
    requires forall i | 0 <= i < |bs| :: |bs[i]| <= IsizeMax
    requires pos + |Frames(bs)| <= |s| && s[pos..pos + |Frames(bs)|] == Frames(bs)
    ensures FramesAt(s, pos, bs)
    decreases |bs|
  {
    if bs != [] {
      FramesCons(bs, s, pos);
      var rest := bs[1..];
      assert forall i | 0 <= i < |rest| :: rest[i] == bs[i + 1];
      FramesAtSlice(s, pos + |Frame(bs[0])|, rest);
    }
  }

  /** The length of the frame of each body. */
  function FrameSize(): bytes -> nat {
    b => |Frame(b)|
  }

  /** The length of a run of frames whose bodies are `bs`, where `size` gives each frame's length. */
  function RunSize(size: bytes -> nat, bs: seq<bytes>): nat {
    if bs == [] then 0 else size(bs[0]) + RunSize(size, bs[1..])
  }

  lemma {:induction false} RunSizeFrames(bs: seq<bytes>)
    ensures RunSize(FrameSize(), bs) == |Frames(bs)|
    decreases |bs|
  {
    if bs != [] {
      RunSizeFrames(bs[1..]);
    }
  }

  /**
   * One step of a read, seen through `read` (the outcome of a read from each position):
   * at a frame of `body` from `pos` to `next`, the read returns the body with the cursor
   * at `next` when the body matches, and is the read from `next` otherwise.
   */
  ghost predicate ReadStep(read: nat -> ReadOutcome, pos: nat, body: bytes, next: nat, expected: Option<nat>, parse: bytes -> Json) {
    if Matches(parse(body), expected) then read(pos) == ReadOutcome(Ok(body), next) else read(pos) == read(next)
  }

  /** `read` takes each frame of the run `bs` from `pos` in one step. */
  ghost predicate ReadsRun(read: nat -> ReadOutcome, size: bytes -> nat, pos: nat, bs: seq<bytes>, expected: Option<nat>, parse: bytes -> Json)
    decreases |bs|
  {
    bs == [] || (ReadStep(read, pos, bs[0], pos + size(bs[0]), expected, parse) && ReadsRun(read, size, pos + size(bs[0]), bs[1..], expected, parse))
  }

  /** A read that takes each frame in one step skips a run of frames it does not accept. */
  lemma {:induction false} ReadsRunSkips(read: nat -> ReadOutcome, size: bytes -> nat, pos: nat, bs: seq<bytes>, expected: Option<nat>, parse: bytes -> Json)
    requires ReadsRun(read, size, pos, bs, expected, parse) && NoneMatch(bs, expected, parse)
    ensures read(pos) == read(pos + RunSize(size, bs))
    decreases |bs|
  {
    if bs != [] {
      assert !Matches(parse(bs[0]), expected);
      var rest := bs[1..];
      assert forall i | 0 <= i < |rest| :: rest[i] == bs[i + 1];
      ReadsRunSkips(read, size, pos + size(bs[0]), rest, expected, parse);
    }
  }

  /** Where the frame of `body` that starts at `pos` ends. */
  function FrameEnd(pos: nat, body: bytes): nat {
    pos + |Frame(body)|
  }

  /** `read` takes each frame anywhere in `s` in one step. */
  ghost predicate ReadsFrameByFrame(s: bytes, read: nat -> ReadOutcome, expected: Option<nat>, parse: bytes -> Json) {
    forall p: nat, b: bytes {:trigger ReadStep(read, p, b, FrameEnd(p, b), expected, parse)} | FrameAt(s, p, b) ::
      ReadStep(read, p, b, FrameEnd(p, b), expected, parse)
  }

  lemma {:induction false} FramesAtReadsRun(s: bytes, pos: nat, bs: seq<bytes>, read: nat -> ReadOutcome, expected: Option<nat>, parse: bytes -> Json)
    requires FramesAt(s, pos, bs) && ReadsFrameByFrame(s, read, expected, parse)
    ensures ReadsRun(read, FrameSize(), pos, bs, expected, parse)
    decreases |bs|
  {
    if bs != [] {
      assert ReadStep(read, pos, bs[0], FrameEnd(pos, bs[0]), expected, parse);
      FramesAtReadsRun(s, pos + |Frame(bs[0])|, bs[1..], read, expected, parse);
    }
  }

  /** The read from each position of `s`, as a total function of the position. */
  ghost function ReadAt(s: bytes, expected: Option<nat>, parse: bytes -> Json, bodyLength: bytes -> Result<nat, LspError>): nat -> ReadOutcome {
    (p: nat) => if p <= |s| then ReadFrom(s, p, expected, parse, bodyLength) else ReadOutcome(Err(UnexpectedEof), |s|)
  }

  lemma ReadAtSame(s: bytes, p: nat, q: nat, expected: Option<nat>, parse: bytes -> Json, bodyLength: bytes -> Result<nat, LspError>)
    requires p <= |s| && q <= |s| && ReadAt(s, expected, parse, bodyLength)(p) == ReadAt(s, expected, parse, bodyLength)(q)
    ensures ReadFrom(s, p, expected, parse, bodyLength) == ReadFrom(s, q, expected, parse, bodyLength)
  {
  }

  /** `ReadFrom` takes each frame `send_request` writes in one step. */
  lemma ReadStepsHold(s: bytes, expected: Option<nat>, parse: bytes -> Json, bodyLength: bytes -> Result<nat, LspError>)
    requires ReadsFrameHeaders(bodyLength)
    ensures ReadsFrameByFrame(s, ReadAt(s, expected, parse, bodyLength), expected, parse)
  {
    forall p: nat, b: bytes | FrameAt(s, p, b)
      ensures ReadStep(ReadAt(s, expected, parse, bodyLength), p, b, FrameEnd(p, b), expected, parse)
    {
      ReadFrame(s, p, FrameEnd(p, b), b, expected, parse, bodyLength);
    }
  }

  /** A read that takes each frame in one step stops at the first frame it accepts. */
  lemma {:induction false} ReadsRunToMatch(read: nat -> ReadOutcome, size: bytes -> nat, pos: nat, bs: seq<bytes>, b: bytes, expected: Option<nat>, parse: bytes -> Json)
    requires ReadsRun(read, size, pos, bs + [b], expected, parse)
    requires NoneMatch(bs, expected, parse) && Matches(parse(b), expected)
    ensures read(pos) == ReadOutcome(Ok(b), pos + RunSize(size, bs + [b]))
    decreases |bs|
  {
    var cs := bs + [b];
    if bs == [] {
      assert cs == [b] && cs[1..] == [];
    } else {
      assert cs[0] == bs[0] && cs[1..] == bs[1..] + [b];
      assert !Matches(parse(bs[0]), expected);
      var rest := bs[1..];
      assert forall i | 0 <= i < |rest| :: rest[i] == bs[i + 1];
      ReadsRunToMatch(read, size, pos + size(bs[0]), rest, b, expected, parse);
    }
  }

  /** `SkipFrames`, for frames laid out one after another. */
  lemma SkipFramesAt(s: bytes, pos: nat, bs: seq<bytes>, expected: Option<nat>, parse: bytes -> Json, bodyLength: bytes -> Result<nat, LspError>)
    requires ReadsFrameHeaders(bodyLength) && pos + |Frames(bs)| <= |s| && FramesAt(s, pos, bs)
    requires NoneMatch(bs, expected, parse)
    ensures ReadFrom(s, pos, expected, parse, bodyLength) == ReadFrom(s, pos + |Frames(bs)|, expected, parse, bodyLength)
  {
    ReadStepsHold(s, expected, parse, bodyLength);
    FramesAtReadsRun(s, pos, bs, ReadAt(s, expected, parse, bodyLength), expected, parse);
    ReadsRunSkips(ReadAt(s, expected, parse, bodyLength), FrameSize(), pos, bs, expected, parse);
    SkipReadFrom(s, pos, bs, expected, parse, bodyLength);
  }

  lemma SkipReadFrom(s: bytes, pos: nat, bs: seq<bytes>, expected: Option<nat>, parse: bytes -> Json, bodyLength: bytes -> Result<nat, LspError>)
    requires pos + |Frames(bs)| <= |s| && ReadAt(s, expected, parse, bodyLength)(pos) == ReadAt(s, expected, parse, bodyLength)(pos + RunSize(FrameSize(), bs))
    ensures ReadFrom(s, pos, expected, parse, bodyLength) == ReadFrom(s, pos + |Frames(bs)|, expected, parse, bodyLength)
  {
    RunSizeFrames(bs);
    ReadAtSame(s, pos, pos + |Frames(bs)|, expected, parse, bodyLength);
  }

  /** `ReadFramesToMatch`, for frames laid out one after another. */
  lemma ReadToMatchAt(s: bytes, pos: nat, bs: seq<bytes>, b: bytes, expected: Option<nat>, parse: bytes -> Json, bodyLength: bytes -> Result<nat, LspError>)
    requires ReadsFrameHeaders(bodyLength) && pos <= |s| && FramesAt(s, pos, bs + [b])
    requires NoneMatch(bs, expected, parse) && Matches(parse(b), expected)
    ensures ReadFrom(s, pos, expected, parse, bodyLength) == ReadOutcome(Ok(b), pos + |Frames(bs + [b])|)
  {
    ReadStepsHold(s, expected, parse, bodyLength);
    FramesAtReadsRun(s, pos, bs + [b], ReadAt(s, expected, parse, bodyLength), expected, parse);
    ReadsRunToMatch(ReadAt(s, expected, parse, bodyLength), FrameSize(), pos, bs, b, expected, parse);
    MatchReadFrom(s, pos, bs + [b], b, expected, parse, bodyLength);
  }

  lemma MatchReadFrom(s: bytes, pos: nat, cs: seq<bytes>, b: bytes, expected: Option<nat>, parse: bytes -> Json, bodyLength: bytes -> Result<nat, LspError>)
    requires pos <= |s| && ReadAt(s, expected, parse, bodyLength)(pos) == ReadOutcome(Ok(b), pos + RunSize(FrameSize(), cs))
    ensures ReadFrom(s, pos, expected, parse, bodyLength) == ReadOutcome(Ok(b), pos + |Frames(cs)|)
  {
    RunSizeFrames(cs);
  }

  class LspClient {
    /** Everything the server sends on the connection. */
    const incoming: bytes
    /** How much of `incoming` has been read. */
    var cursor: nat
    /** Everything written to the connection. */
    var outgoing: bytes
    /** serde's reading of a body. */
    const parseJson: bytes -> Json
    /** serde's writing of a request (`Value::to_string`). */
    const serialize: Request -> bytes
    /** How a header is read: `BodyLength`, as the constructor sets it. */
    const bodyLength: bytes -> Result<nat, LspError>

    /** `new`: a fresh connection, nothing read or written. */
    constructor (incoming: bytes, parseJson: bytes -> Json, serialize: Request -> bytes)
      ensures this.incoming == incoming && this.parseJson == parseJson && this.serialize == serialize
      ensures bodyLength == BodyLength
      ensures cursor == 0 && outgoing == []
    {
      this.incoming := incoming;
      this.parseJson := parseJson;
      this.serialize := serialize;
      bodyLength := BodyLength;
      cursor := 0;
      outgoing := [];
    }

    /** `send_request`: write the request's frame, and nothing else. */
    method SendRequest(request: Request)
      modifies this
      ensures outgoing == old(outgoing) + Frame(serialize(request))
      ensures cursor == old(cursor)
    {
      var body := serialize(request);
      var header := ContentLengthName() + [SP] + Decimal(|body|) + Terminator();
      outgoing := outgoing + (header + body);
    }

    /**
     * The header loop of `read_response`: read one byte at a time until the bytes read
     * end with `\r\n\r\n`; the input may end first.
     */
    method ReadHeader() returns (header: Option<bytes>)
      requires cursor <= |incoming|
      modifies this
      ensures header.None? <==> HeaderEnd(incoming, old(cursor)).None?
      ensures header.None? ==> cursor == |incoming|
      ensures header.Some? ==> Some(cursor) == HeaderEnd(incoming, old(cursor)) && header.value == incoming[old(cursor)..cursor]
      ensures outgoing == old(outgoing)
    {
      var start := cursor;
      var headerBuffer: bytes := [];
      while !EndsWithTerminator(headerBuffer)
        invariant start <= cursor <= |incoming|
        invariant headerBuffer == incoming[start..cursor]
        invariant HeaderScan(incoming, start, cursor) == HeaderEnd(incoming, start)
        invariant outgoing == old(outgoing)
        decreases |incoming| - cursor
      {
        if cursor == |incoming| {
          return None;
        }
        headerBuffer := headerBuffer + [incoming[cursor]];
        cursor := cursor + 1;
      }
      header := Some(headerBuffer);
    }

    /**
     * `read_response`: read a header, find the content length, read the body; return it
     * if it is JSON with the expected id (any id when none is expected), otherwise go on
     * with the next message.
     */
    method ReadResponse(expected: Option<nat>) returns (r: Result<bytes, LspError>)
      requires cursor <= |incoming|
      modifies this
      ensures var o := ReadFrom(incoming, old(cursor), expected, parseJson, bodyLength); r == o.result && cursor == o.cursor
      ensures outgoing == old(outgoing)
    {
      ghost var goal := ReadFrom(incoming, cursor, expected, parseJson, bodyLength);
      while true
        invariant cursor <= |incoming|
        invariant ReadFrom(incoming, cursor, expected, parseJson, bodyLength) == goal
        invariant outgoing == old(outgoing)
        decreases |incoming| - cursor
      {
        ghost var start := cursor;
        var header := ReadHeader();
        if header.None? {
          r := Err(UnexpectedEof);
          return;
        }
        var headerBuffer := header.value;
        ReadFromHeader(incoming, start, cursor, expected, parseJson, bodyLength);
        var length := bodyLength(headerBuffer);
        if length.Err? {
          r := Err(length.error);
          assert goal == ReadOutcome(r, cursor);
          return;
        }
        var n := length.value;
        if n > IsizeMax {
          r := Err(CapacityOverflow);
          assert goal == ReadOutcome(r, cursor);
          return;
        }
        if cursor + n > |incoming| {
          cursor := |incoming|;
          r := Err(UnexpectedEof);
          assert goal == ReadOutcome(r, cursor);
          return;
        }
        var body := incoming[cursor..cursor + n];
        cursor := cursor + n;
        if Matches(parseJson(body), expected) {
          r := Ok(body);
          assert goal == ReadOutcome(r, cursor);
          return;
        }
        assert goal == ReadFrom(incoming, cursor, expected, parseJson, bodyLength);
      }
    }

    /**
     * `send_initialize_request`: reject a relative project path before writing anything;
     * otherwise send `initialize` with id 1 and root `file://<path>`, wait for the first
     * JSON response whatever its id, then send the `initialized` notification.
     */
    method SendInitializeRequest(projectPath: string, processId: nat) returns (r: Result<Unit, LspError>)
      requires cursor <= |incoming|
      modifies this
      ensures !IsAbsolute(projectPath) ==>
        r == Err(PathNotAbsolute) && outgoing == old(outgoing) && cursor == old(cursor)
      ensures IsAbsolute(projectPath) ==>
        var request := Initialize(InitializeId, processId, FileUri(projectPath), FileUri(projectPath));
        var o := ReadFrom(incoming, old(cursor), None, parseJson, bodyLength);
        && cursor == o.cursor
        && (o.result.Err? ==> r == Err(o.result.error) && outgoing == old(outgoing) + Frame(serialize(request)))
        && (o.result.Ok? ==>
              r == Ok(Unit) && outgoing == old(outgoing) + Frame(serialize(request)) + Frame(serialize(Initialized)))
    {
      if !IsAbsolute(projectPath) {
        return Err(PathNotAbsolute);
      }
      var rootUri := FileUri(projectPath);
      var workspaceName := rootUri;
      SendRequest(Initialize(InitializeId, processId, rootUri, workspaceName));
      var response := ReadResponse(None);
      if response.Err? {
        return Err(response.error);
      }
      SendRequest(Initialized);
      r := Ok(Unit);
    }

    /**
     * `get_definition`: reject a relative file path before writing anything; otherwise
     * send `textDocument/definition` with id 2 for `file://<path>` at the position, and
     * wait for the response with id 2.
     */
    method GetDefinition(filePath: string, line: u32, character: u32) returns (r: Result<Unit, LspError>)
      requires cursor <= |incoming|
      modifies this
      ensures !IsAbsolute(filePath) ==>
        r == Err(PathNotAbsolute) && outgoing == old(outgoing) && cursor == old(cursor)
      ensures IsAbsolute(filePath) ==>
        var request := Definition(DefinitionId, FileUri(filePath), line, character);
        var o := ReadFrom(incoming, old(cursor), Some(DefinitionId), parseJson, bodyLength);
        && cursor == o.cursor
        && outgoing == old(outgoing) + Frame(serialize(request))
        && (o.result.Ok? ==> r == Ok(Unit))
        && (o.result.Err? ==> r == Err(o.result.error))
    {
      if !IsAbsolute(filePath) {
        return Err(PathNotAbsolute);
      }
      SendRequest(Definition(DefinitionId, FileUri(filePath), line, character));
      var response := ReadResponse(Some(DefinitionId));
      if response.Err? {
        return Err(response.error);
      }
      r := Ok(Unit);
    }
  }

  /**
   * A client whose server first sends an unrelated response (id 99) and then the
   * definition response (id 2) gets the definition: the interim message is skipped.
   */
  method DefinitionAfterInterimMessage(b1: bytes, b2: bytes, parse: bytes -> Json, serialize: Request -> bytes)
    returns (r: Result<Unit, LspError>, rest: nat)
    requires |b1| <= IsizeMax && |b2| <= IsizeMax
    requires parse(b1) == Json(UnsignedId(99)) && parse(b2) == Json(UnsignedId(DefinitionId))
    ensures r == Ok(Unit) && rest == 0
  {
    var client := new LspClient(Frame(b1) + Frame(b2), parse, serialize);
    BodyLengthReadsFrameHeaders();
    SkipsUnrelatedResponse(b1, b2, parse, client.bodyLength);
    r := client.GetDefinition("/src/main.go", 3, 7);
    rest := |client.incoming| - client.cursor;
  }
}
