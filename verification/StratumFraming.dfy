/** Splitting the bytes of a stratum connection into request lines, however they arrive. */
module StratumFraming {
  import opened Numbers
  import opened Wrappers

  type Line = seq<byte>
  type Endpoint = string

  const NEWLINE: byte := 10

  const DEFAULT_MAX_LENGTH: nat := 0x8000

  // --- Lines of a byte sequence ---

  /** Where the first line terminator is, or the length. */
  function Position(s: seq<byte>): (i: nat)
    ensures i <= |s| && NEWLINE !in s[..i] && (i < |s| ==> s[i] == NEWLINE)
  {
    if s == [] || s[0] == NEWLINE then 0 else 1 + Position(s[1..])
  }

  /** The newline-terminated lines. */
  function Lines(s: seq<byte>): seq<Line> {
    var i := Position(s);
    if i == |s| then [] else [s[..i]] + Lines(s[i + 1..])
  }

  /** What follows the last terminator. */
  function Tail(s: seq<byte>): (t: seq<byte>)
    ensures |t| <= |s| && NEWLINE !in t
  {
    var i := Position(s);
    if i == |s| then s else Tail(s[i + 1..])
  }

  /** Lines, each with its terminator. */
  function Terminated(lines: seq<Line>): seq<byte> {
    if lines == [] then [] else lines[0] + [10] + Terminated(lines[1..])
  }

  /** Bytes are lines without line feeds, each ended by one, and a rest without any. */
  lemma {:induction false} LinesMakeUp(s: seq<byte>)
    ensures s == Terminated(Lines(s)) + Tail(s)
    ensures 10 !in Tail(s) && forall i :: 0 <= i < |Lines(s)| ==> 10 !in Lines(s)[i]
    decreases |s|
  {
    hide Position, Lines, Tail;
    var i := Position(s);
    if i < |s| {
      NextLine(s);
      LinesMakeUp(s[i + 1..]);
      assert s == s[..i] + [10] + s[i + 1..];
      assert Lines(s)[1..] == Lines(s[i + 1..]) && Lines(s)[0] == s[..i];
    } else {
      NoLine(s);
    }
  }

  /** There is no other way to split them. */
  lemma {:induction false} OnlySplit(lines: seq<Line>, rest: seq<byte>)
    requires 10 !in rest && forall i :: 0 <= i < |lines| ==> 10 !in lines[i]
    ensures Lines(Terminated(lines) + rest) == lines && Tail(Terminated(lines) + rest) == rest
    decreases |lines|
  {
    hide Position, Lines, Tail;
    if lines == [] {
      LinesOfTail(rest);
      assert Terminated(lines) + rest == rest;
    } else {
      var back := Terminated(lines[1..]) + rest;
      var s := lines[0] + ([10] + back);
      assert Terminated(lines) + rest == s;
      OnlySplit(lines[1..], rest);
      FirstLineEnds(lines[0], back);
      assert s[..|lines[0]|] == lines[0] && s[|lines[0]| + 1..] == back;
      NextLine(s);
    }
  }

  lemma {:induction false} FirstLineEnds(line: Line, back: seq<byte>)
    requires 10 !in line
    ensures Position(line + ([10] + back)) == |line|
  {
    if line == [] {
      assert line + ([10] + back) == [10] + back;
    } else {
      assert (line + ([10] + back))[1..] == line[1..] + ([10] + back);
      FirstLineEnds(line[1..], back);
    }
  }

  // --- What happens to a line ---

  datatype ProxyHeader = Consumed(endpoint: Endpoint) | NotAHeader | Rejected

  datatype Fault = TooLong | ProxyRejected | RequestFailed

  /** The surroundings: the configured proxy protocol applied to a line, and which requests make their
      handler fail. */
  datatype Env = Env(header: Line -> ProxyHeader, fails: nat -> bool)

  /** The state of a connection: the requests handed over so far, in order. */
  datatype Conn = Conn(expectingHeader: bool, endpoint: Endpoint, handled: seq<Line>)

  datatype Step = Continue(conn: Conn) | Stop(conn: Conn, fault: Fault)

  function HandleRequest(env: Env, c: Conn, line: Line): Step {
    var c' := c.(handled := c.handled + [line]);
    if env.fails(|c.handled|) then Stop(c', RequestFailed) else Continue(c')
  }

  /** The first line of a connection that expects a header. */
  function HandleFirst(env: Env, c: Conn, line: Line): Step {
    match env.header(line)
    case Consumed(endpoint) => Continue(c.(endpoint := endpoint))
    case NotAHeader => HandleRequest(env, c, line)
    case Rejected => Stop(c, ProxyRejected)
  }

  function HandleLine(env: Env, c: Conn, line: Line): Step {
    if c.expectingHeader then HandleFirst(env, c.(expectingHeader := false), line) else HandleRequest(env, c, line)
  }

  function HandleLines(env: Env, c: Conn, lines: seq<Line>): Step
    decreases |lines|
  {
    if lines == [] then Continue(c)
    else
      match HandleLine(env, c, lines[0])
      case Continue(c') => HandleLines(env, c', lines[1..])
      case Stop(c', fault) => Stop(c', fault)
  }

  /** What the loop does with the chunks it reads: `unread` is what it left in the pipe. */
  function ReadAll(env: Env, max: nat, c: Conn, unread: seq<byte>, chunks: seq<seq<byte>>): Step
    decreases |chunks|
  {
    if chunks == [] then Continue(c)
    else if |unread + chunks[0]| > max then Stop(c, TooLong)
    else
      match HandleLines(env, c, Lines(unread + chunks[0]))
      case Continue(c') => ReadAll(env, max, c', Tail(unread + chunks[0]), chunks[1..])
      case Stop(c', fault) => Stop(c', fault)
  }

  // --- The connection ---

  /** The proxy protocol configuration, and how header lines are recognised and parsed. Parsing may
      throw. */
  datatype Proxy = Proxy(
    mandatory: bool,
    trusted: set<Endpoint>,
    isHeader: Line -> bool,
    parse: Line -> Option<Endpoint>)

  function HeaderOf(proxy: Proxy, peer: Endpoint, line: Line): ProxyHeader {
    if proxy.isHeader(line) then
      if peer in proxy.trusted && proxy.parse(line).Some? then Consumed(proxy.parse(line).value) else Rejected
    else if proxy.mandatory then Rejected
    else NotAHeader
  }

  class StratumConnection {
    const maxInboundRequestLength: nat
    var expectingProxyHeader: bool
    var remoteEndpoint: Endpoint
    var handled: seq<Line>

    function Value(): Conn
      reads this
    {
      Conn(expectingProxyHeader, remoteEndpoint, handled)
    }

    constructor (maxLength: int, expectingProxyHeader: bool, remoteEndpoint: Endpoint)
      ensures Value() == Conn(expectingProxyHeader, remoteEndpoint, [])
      ensures maxInboundRequestLength == if maxLength > 0 then maxLength else 32768
    {
      maxInboundRequestLength := if maxLength > 0 then maxLength else DEFAULT_MAX_LENGTH;
      this.expectingProxyHeader, this.remoteEndpoint, handled := expectingProxyHeader, remoteEndpoint, [];
    }

    /** Looks at the first line: consumes a trusted header, rejects a spoofed or a missing one. */
    method ProcessProxyHeader(line: Line, proxy: Proxy) returns (consumed: bool, rejected: bool)
      modifies `expectingProxyHeader, `remoteEndpoint
      ensures !expectingProxyHeader
      ensures HeaderOf(proxy, old(remoteEndpoint), line)
        == if rejected then Rejected else if consumed then Consumed(remoteEndpoint) else NotAHeader
      ensures !consumed || rejected ==> remoteEndpoint == old(remoteEndpoint)
      ensures consumed && !rejected <==>
        proxy.isHeader(line) && old(remoteEndpoint) in proxy.trusted && proxy.parse(line) == Some(remoteEndpoint)
      ensures !consumed && !rejected <==> !proxy.isHeader(line) && !proxy.mandatory
    {
      expectingProxyHeader := false;
      if proxy.isHeader(line) {
        if remoteEndpoint in proxy.trusted {
          match proxy.parse(line) {
            case Some(endpoint) => remoteEndpoint := endpoint;
            case None => return false, true;
          }
        } else {
          return false, true;
        }
        return true, false;
      }
      if proxy.mandatory {
        return false, true;
      }
      return false, false;
    }

    /** Hands a line to the request handler, which may throw. */
    method ProcessRequest(line: Line, fails: nat -> bool) returns (ok: bool)
      modifies `handled
      ensures handled == old(handled) + [line]
      ensures ok <==> !fails(|old(handled)|)
    {
      ok := !fails(|handled|);
      handled := handled + [line];
    }

    /** The receive loop, over the chunks that the pipe delivers. */
    method ProcessReceivePipe(chunks: seq<seq<byte>>, proxy: Proxy, fails: nat -> bool) returns (fault: Option<Fault>)
      modifies this
      ensures var env := Env(line => HeaderOf(proxy, old(remoteEndpoint), line), fails);
        ReadAll(env, maxInboundRequestLength, old(Value()), [], chunks)
        == if fault.None? then Continue(Value()) else Stop(Value(), fault.value)
    {
      hide HandleLine, HeaderOf, Lines, Tail, Position;
      ghost var peer := remoteEndpoint;
      ghost var env := Env(line => HeaderOf(proxy, peer, line), fails);
      var unread, i := [], 0;
      assert chunks[0..] == chunks;
      while i < |chunks|
        invariant i <= |chunks|
        invariant expectingProxyHeader ==> remoteEndpoint == peer
        invariant ReadAll(env, maxInboundRequestLength, old(Value()), [], chunks)
          == ReadAll(env, maxInboundRequestLength, Value(), unread, chunks[i..])
      {
        var buffer := unread + chunks[i];
        assert chunks[i..][0] == chunks[i] && chunks[i..][1..] == chunks[i + 1..];
        if |buffer| > maxInboundRequestLength {
          return Some(TooLong);
        }
        ghost var c, whole := Value(), buffer;
        var position := Position(buffer);
        while position < |buffer|
          invariant position == Position(buffer) && position <= |buffer|
          invariant expectingProxyHeader ==> remoteEndpoint == peer
          invariant HandleLines(env, c, Lines(whole)) == HandleLines(env, Value(), Lines(buffer))
          invariant Tail(whole) == Tail(buffer)
          decreases |buffer|
        {
          var line := buffer[..position];
          NextLine(buffer);
          FirstOf(env, Value(), line, Lines(buffer[position + 1..]));
          HandledLine(env, Value(), line);
          var consumed, rejected := false, false;
          if expectingProxyHeader {
            consumed, rejected := ProcessProxyHeader(line, proxy);
          }
          if rejected {
            return Some(ProxyRejected);
          }
          if !consumed {
            var ok := ProcessRequest(line, fails);
            if !ok {
              return Some(RequestFailed);
            }
          }
          buffer := buffer[position + 1..];
          position := Position(buffer);
        }
        NoLine(buffer);
        unread := buffer;
        i := i + 1;
      }
      return None;
    }
  }

  lemma NextLine(buffer: seq<byte>)
    requires Position(buffer) < |buffer|
    ensures Lines(buffer) == [buffer[..Position(buffer)]] + Lines(buffer[Position(buffer) + 1..])
    ensures Tail(buffer) == Tail(buffer[Position(buffer) + 1..])
  {
    hide Position;
  }

  lemma NoLine(buffer: seq<byte>)
    requires Position(buffer) == |buffer|
    ensures Lines(buffer) == [] && Tail(buffer) == buffer
  {
  }

  lemma FirstOf(env: Env, c: Conn, line: Line, lines: seq<Line>)
    ensures var step := HandleLine(env, c, line);
      HandleLines(env, c, [line] + lines) == if step.Continue? then HandleLines(env, step.conn, lines) else step
  {
    assert ([line] + lines)[1..] == lines;
  }

  lemma HandledLine(env: Env, c: Conn, line: Line)
    ensures !c.expectingHeader ==> HandleLine(env, c, line) == HandleRequest(env, c, line)
    ensures c.expectingHeader ==> HandleLine(env, c, line) == HandleFirst(env, c.(expectingHeader := false), line)
  {
  }

  // --- Framing does not depend on the chunks ---

  function Concat(chunks: seq<seq<byte>>): seq<byte> {
    if chunks == [] then [] else chunks[0] + Concat(chunks[1..])
  }

  lemma {:induction false} PositionAppend(s: seq<byte>, t: seq<byte>)
    ensures Position(s + t) == if Position(s) < |s| then Position(s) else |s| + Position(t)
  {
    if s == [] {
      assert s + t == t;
    } else if s[0] != NEWLINE {
      PositionAppend(s[1..], t);
      assert (s + t)[1..] == s[1..] + t;
    }
  }

  /** Splitting can stop anywhere and go on from the unread rest. */
  lemma {:induction false} SplitAnywhere(s: seq<byte>, t: seq<byte>)
    ensures Lines(s + t) == Lines(s) + Lines(Tail(s) + t)
    ensures Tail(s + t) == Tail(Tail(s) + t)
    decreases |s|
  {
    hide Position, Lines, Tail;
    PositionAppend(s, t);
    var i := Position(s);
    if i < |s| {
      NextLine(s);
      NextLine(s + t);
      assert (s + t)[..i] == s[..i];
      assert (s + t)[i + 1..] == s[i + 1..] + t;
      SplitAnywhere(s[i + 1..], t);
    } else {
      NoLine(s);
    }
  }

  lemma {:induction false} HandleInTurn(env: Env, c: Conn, ls: seq<Line>, ms: seq<Line>)
    ensures var step := HandleLines(env, c, ls);
      HandleLines(env, c, ls + ms) == if step.Continue? then HandleLines(env, step.conn, ms) else step
    decreases |ls|
  {
    hide HandleLine;
    if ls == [] {
      assert ls + ms == ms;
    } else {
      assert (ls + ms)[1..] == ls[1..] + ms;
      var first := HandleLine(env, c, ls[0]);
      if first.Continue? {
        HandleInTurn(env, first.conn, ls[1..], ms);
      }
    }
  }

  lemma ReadFirst(env: Env, max: nat, c: Conn, unread: seq<byte>, chunks: seq<seq<byte>>)
    requires chunks != [] && |unread + chunks[0]| <= max
    ensures var step := HandleLines(env, c, Lines(unread + chunks[0]));
      ReadAll(env, max, c, unread, chunks)
      == if step.Continue? then ReadAll(env, max, step.conn, Tail(unread + chunks[0]), chunks[1..]) else step
  {
  }

  lemma LinesOfTail(t: seq<byte>)
    requires NEWLINE !in t
    ensures Lines(t) == [] && Tail(t) == t
  {
    assert Position(t) == |t|;
  }

  /** A read finds too much, right after the lines of the chunks before it were handled. */
  ghost predicate StopsAt(env: Env, max: nat, c: Conn, unread: seq<byte>, chunks: seq<seq<byte>>, k: nat, step: Step) {
    && k < |chunks|
    && HandleLines(env, c, Lines(unread + Concat(chunks[..k]))) == Continue(step.conn)
    && |Tail(unread + Concat(chunks[..k])) + chunks[k]| > max
    && step == Stop(step.conn, TooLong)
  }

  /** The requests handled, the header consumed and any failure are those of the newline-terminated
      lines of all bytes read, in order and once each; or of all bytes before the read that is too
      long. */
  lemma {:induction false} FramingIgnoresChunks(env: Env, max: nat, c: Conn, unread: seq<byte>, chunks: seq<seq<byte>>)
    requires NEWLINE !in unread
    ensures var step := ReadAll(env, max, c, unread, chunks);
      || step == HandleLines(env, c, Lines(unread + Concat(chunks)))
      || exists k :: StopsAt(env, max, c, unread, chunks, k, step)
    decreases |chunks|
  {
    hide Lines, Tail, Position, HandleLines, StopsAt;
    if chunks == [] {
      LinesOfTail(unread);
      assert unread + Concat(chunks) == unread;
      NoLines(env, c);
    } else if |unread + chunks[0]| > max {
      StopsFirst(env, max, c, unread, chunks);
    } else {
      var whole, rest := unread + chunks[0], chunks[1..];
      var step := HandleLines(env, c, Lines(whole));
      ReadFirst(env, max, c, unread, chunks);
      if step.Continue? {
        var last := ReadAll(env, max, step.conn, Tail(whole), rest);
        FramingIgnoresChunks(env, max, step.conn, Tail(whole), rest);
        if k :| StopsAt(env, max, step.conn, Tail(whole), rest, k, last) {
          StopsLater(env, max, c, unread, chunks, k, step.conn, last);
        } else {
          HandledTogether(env, c, unread, chunks[0], Concat(rest));
        }
      } else {
        HandledTogether(env, c, unread, chunks[0], Concat(rest));
      }
    }
  }

  /** Handling the first chunk's lines and then those of the rest is handling the lines of both. */
  lemma HandledTogether(env: Env, c: Conn, unread: seq<byte>, chunk: seq<byte>, rest: seq<byte>)
    ensures var step := HandleLines(env, c, Lines(unread + chunk));
      HandleLines(env, c, Lines(unread + (chunk + rest)))
      == if step.Continue? then HandleLines(env, step.conn, Lines(Tail(unread + chunk) + rest)) else step
  {
    hide Lines, Tail, HandleLines;
    SplitAnywhere(unread + chunk, rest);
    assert unread + (chunk + rest) == unread + chunk + rest;
    HandleInTurn(env, c, Lines(unread + chunk), Lines(Tail(unread + chunk) + rest));
  }

  lemma StopsFirst(env: Env, max: nat, c: Conn, unread: seq<byte>, chunks: seq<seq<byte>>)
    requires NEWLINE !in unread && chunks != [] && |unread + chunks[0]| > max
    ensures StopsAt(env, max, c, unread, chunks, 0, ReadAll(env, max, c, unread, chunks))
  {
    hide Lines, Tail, Position;
    LinesOfTail(unread);
    assert unread + Concat(chunks[..0]) == unread;
  }

  lemma StopsLater(env: Env, max: nat, c: Conn, unread: seq<byte>, chunks: seq<seq<byte>>, k: nat, c': Conn, step: Step)
    requires chunks != [] && HandleLines(env, c, Lines(unread + chunks[0])) == Continue(c')
    requires StopsAt(env, max, c', Tail(unread + chunks[0]), chunks[1..], k, step)
    ensures StopsAt(env, max, c, unread, chunks, k + 1, step)
  {
    hide Lines, Tail, Position, HandleLines;
    var whole, before := unread + chunks[0], Concat(chunks[1..][..k]);
    assert chunks[..k + 1][1..] == chunks[1..][..k] && chunks[..k + 1][0] == chunks[0];
    assert unread + Concat(chunks[..k + 1]) == whole + before;
    HandledTogether(env, c, unread, chunks[0], before);
    assert unread + (chunks[0] + before) == whole + before;
    SplitAnywhere(whole, before);
  }

  lemma NoLines(env: Env, c: Conn)
    ensures HandleLines(env, c, []) == Continue(c)
  {
  }

  /** Only the first line can be taken for a proxy header; all others are handled as requests. */
  lemma {:induction false} AllAreRequests(env: Env, c: Conn, lines: seq<Line>)
    requires !c.expectingHeader && HandleLines(env, c, lines).Continue?
    ensures HandleLines(env, c, lines).conn == c.(handled := c.handled + lines)
    decreases |lines|
  {
    if lines == [] {
      assert c.handled + lines == c.handled;
    } else {
      var next := HandleLine(env, c, lines[0]).conn;
      AllAreRequests(env, next, lines[1..]);
      assert c.handled + [lines[0]] + lines[1..] == c.handled + lines;
    }
  }

  lemma {:induction false} RequestsExactly(env: Env, c: Conn, lines: seq<Line>)
    requires !c.expectingHeader
    ensures HandleLines(env, c, lines).Continue? <==>
              forall k: nat :: |c.handled| <= k < |c.handled| + |lines| ==> !env.fails(k)
    decreases |lines|
  {
    if lines != [] {
      RequestsExactly(env, c.(handled := c.handled + [lines[0]]), lines[1..]);
    }
  }

  /** All lines are handled exactly when the first is not rejected as a header and no request fails: those
      are all lines but a consumed header. */
  lemma HandledExactly(env: Env, c: Conn, lines: seq<Line>)
    ensures var first := c.expectingHeader && lines != [];
      var requests := if first && env.header(lines[0]).Consumed? then |lines| - 1 else |lines|;
      HandleLines(env, c, lines).Continue? <==>
        && (first ==> env.header(lines[0]) != Rejected)
        && forall k: nat :: |c.handled| <= k < |c.handled| + requests ==> !env.fails(k)
  {
    if !c.expectingHeader {
      RequestsExactly(env, c, lines);
    } else if lines != [] {
      var c0 := c.(expectingHeader := false);
      match env.header(lines[0]) {
        case Consumed(endpoint) => RequestsExactly(env, c0.(endpoint := endpoint), lines[1..]);
        case NotAHeader =>
          RequestsExactly(env, c0, lines);
          SameAsRequest(env, c, lines);
        case Rejected =>
      }
    }
  }

  lemma SameAsRequest(env: Env, c: Conn, lines: seq<Line>)
    requires c.expectingHeader && lines != [] && env.header(lines[0]) == NotAHeader
    ensures HandleLines(env, c, lines) == HandleLines(env, c.(expectingHeader := false), lines)
  {
  }

  lemma OnlyFirstLineIsHeader(env: Env, c: Conn, lines: seq<Line>)
    requires HandleLines(env, c, lines).Continue?
    ensures var c' := HandleLines(env, c, lines).conn;
      var header := c.expectingHeader && lines != [] && env.header(lines[0]).Consumed?;
      && c'.handled == c.handled + (if header then lines[1..] else lines)
      && c'.expectingHeader == (c.expectingHeader && lines == [])
      && c'.endpoint == if header then env.header(lines[0]).endpoint else c.endpoint
  {
    if !c.expectingHeader {
      AllAreRequests(env, c, lines);
    } else if lines != [] {
      var next := HandleLine(env, c, lines[0]).conn;
      AllAreRequests(env, next, lines[1..]);
      assert c.handled + [lines[0]] + lines[1..] == c.handled + lines;
    }
  }

  // --- Lengths ---

  predicate AllShort(max: nat, lines: seq<Line>) { forall l :: l in lines ==> |l| < max }

  lemma {:induction false} LinesAreShort(s: seq<byte>)
    ensures AllShort(|s|, Lines(s))
    decreases |s|
  {
    hide Position;
    var i := Position(s);
    if i < |s| {
      LinesAreShort(s[i + 1..]);
    }
  }

  lemma {:induction false} HandledComeFromLines(env: Env, max: nat, c: Conn, lines: seq<Line>)
    requires AllShort(max, c.handled) && AllShort(max, lines)
    ensures AllShort(max, HandleLines(env, c, lines).conn.handled)
    decreases |lines|
  {
    if lines != [] && HandleLine(env, c, lines[0]).Continue? {
      HandledComeFromLines(env, max, HandleLine(env, c, lines[0]).conn, lines[1..]);
    }
  }

  /** However the bytes arrive, no handled line reaches the maximum length. */
  lemma {:induction false} HandledLinesAreShort(env: Env, max: nat, c: Conn, unread: seq<byte>, chunks: seq<seq<byte>>)
    requires AllShort(max, c.handled)
    ensures AllShort(max, ReadAll(env, max, c, unread, chunks).conn.handled)
    decreases |chunks|
  {
    hide HandleLines, Lines, Tail;
    if chunks != [] && |unread + chunks[0]| <= max {
      var whole := unread + chunks[0];
      LinesAreShort(whole);
      HandledComeFromLines(env, max, c, Lines(whole));
      var step := HandleLines(env, c, Lines(whole));
      if step.Continue? {
        HandledLinesAreShort(env, max, step.conn, Tail(whole), chunks[1..]);
      }
    }
  }

  // --- When the length check fires ---

  /** No read finds more bytes than allowed. */
  predicate Fits(max: nat, unread: seq<byte>, chunks: seq<seq<byte>>)
    decreases |chunks|
  {
    chunks == [] || (|unread + chunks[0]| <= max && Fits(max, Tail(unread + chunks[0]), chunks[1..]))
  }

  /** Every line fits with its terminator, and so does the rest. */
  predicate LinesFit(max: nat, s: seq<byte>) { AllShort(max, Lines(s)) && |Tail(s)| <= max }

  /** If all reads fit, the length check never fires. */
  lemma {:induction false} FitsIsNotTooLong(env: Env, max: nat, c: Conn, unread: seq<byte>, chunks: seq<seq<byte>>)
    requires Fits(max, unread, chunks)
    ensures ReadAll(env, max, c, unread, chunks).Stop? ==> ReadAll(env, max, c, unread, chunks).fault != TooLong
    decreases |chunks|
  {
    hide HandleLines, Lines, Tail;
    if chunks != [] {
      HandlingIsNotTooLong(env, c, Lines(unread + chunks[0]));
      var step := HandleLines(env, c, Lines(unread + chunks[0]));
      if step.Continue? {
        FitsIsNotTooLong(env, max, step.conn, Tail(unread + chunks[0]), chunks[1..]);
      }
    }
  }

  /** If some read does not fit, the connection does not survive: the check fires, unless a request or
      the header has ended the loop before. */
  lemma {:induction false} NotFittingStops(env: Env, max: nat, c: Conn, unread: seq<byte>, chunks: seq<seq<byte>>)
    requires !Fits(max, unread, chunks)
    ensures ReadAll(env, max, c, unread, chunks).Stop?
    decreases |chunks|
  {
    hide HandleLines, Lines, Tail;
    if |unread + chunks[0]| <= max {
      var step := HandleLines(env, c, Lines(unread + chunks[0]));
      if step.Continue? {
        NotFittingStops(env, max, step.conn, Tail(unread + chunks[0]), chunks[1..]);
      }
    }
  }

  /** A connection survives its input exactly when no read is too long and all its lines are handled
      without failure. */
  lemma SurvivesExactlyWhen(env: Env, max: nat, c: Conn, chunks: seq<seq<byte>>)
    ensures ReadAll(env, max, c, [], chunks).Continue? <==>
      Fits(max, [], chunks) && HandleLines(env, c, Lines(Concat(chunks))).Continue?
  {
    hide HandleLines, Lines, Tail, Fits, ReadAll, StopsAt;
    FramingIgnoresChunks(env, max, c, [], chunks);
    assert [] + Concat(chunks) == Concat(chunks);
    if Fits(max, [], chunks) {
      FitsIsNotTooLong(env, max, c, [], chunks);
      forall k
        ensures !StopsAt(env, max, c, [], chunks, k, ReadAll(env, max, c, [], chunks))
      {
        StopIsTooLong(env, max, c, [], chunks, k, ReadAll(env, max, c, [], chunks));
      }
    } else {
      NotFittingStops(env, max, c, [], chunks);
    }
  }

  lemma StopIsTooLong(env: Env, max: nat, c: Conn, unread: seq<byte>, chunks: seq<seq<byte>>, k: nat, step: Step)
    ensures StopsAt(env, max, c, unread, chunks, k, step) ==> step.Stop? && step.fault == TooLong
  {
  }

  lemma {:induction false} HandlingIsNotTooLong(env: Env, c: Conn, lines: seq<Line>)
    ensures HandleLines(env, c, lines).Stop? ==> HandleLines(env, c, lines).fault != TooLong
    decreases |lines|
  {
    if lines != [] && HandleLine(env, c, lines[0]).Continue? {
      HandlingIsNotTooLong(env, HandleLine(env, c, lines[0]).conn, lines[1..]);
    }
  }

  lemma {:induction false} SmallInputFits(max: nat, unread: seq<byte>, chunks: seq<seq<byte>>)
    requires |unread| + |Concat(chunks)| <= max
    ensures Fits(max, unread, chunks)
    decreases |chunks|
  {
    hide Lines, Tail;
    if chunks != [] {
      SmallInputFits(max, Tail(unread + chunks[0]), chunks[1..]);
    }
  }

  /** Every way to deliver the bytes passes the check exactly when they fit all at once. */
  lemma EveryChunkingFitsIff(max: nat, s: seq<byte>)
    ensures (forall chunks :: Concat(chunks) == s ==> Fits(max, [], chunks)) <==> |s| <= max
  {
    if |s| > max {
      assert [s][1..] == [] && Concat([s]) == s + Concat([]) == s;
      assert [] + s == s;
      assert !Fits(max, [], [s]);
    } else {
      forall chunks | Concat(chunks) == s
        ensures Fits(max, [], chunks)
      {
        SmallInputFits(max, [], chunks);
      }
    }
  }

  lemma {:induction false} FitsMeansLinesFit(max: nat, unread: seq<byte>, chunks: seq<seq<byte>>)
    requires NEWLINE !in unread && |unread| <= max && Fits(max, unread, chunks)
    ensures LinesFit(max, unread + Concat(chunks))
    decreases |chunks|
  {
    hide Lines, Tail, Position;
    if chunks == [] {
      LinesOfTail(unread);
      assert unread + Concat(chunks) == unread;
    } else {
      var whole := unread + chunks[0];
      LinesAreShort(whole);
      FitsMeansLinesFit(max, Tail(whole), chunks[1..]);
      SplitAnywhere(whole, Concat(chunks[1..]));
      assert whole + Concat(chunks[1..]) == unread + Concat(chunks);
    }
  }

  /** One chunk for every line. */
  function LineByLine(s: seq<byte>): seq<seq<byte>> {
    var i := Position(s);
    if i == |s| then [s] else [s[..i + 1]] + LineByLine(s[i + 1..])
  }

  lemma {:induction false} LineByLineFits(max: nat, s: seq<byte>)
    requires LinesFit(max, s)
    ensures Concat(LineByLine(s)) == s && Fits(max, [], LineByLine(s))
    decreases |s|
  {
    hide Position, Lines, Tail, Fits, Concat, LineByLine, LinesFit;
    var i := Position(s);
    LineByLineIs(s);
    LinesFitApart(max, s);
    if i == |s| {
      OneChunk(max, s);
    } else {
      var line, rest := s[..i + 1], s[i + 1..];
      LineByLineFits(max, rest);
      OneLine(s);
      ChunkBefore(max, line, LineByLine(rest));
      assert line + rest == s;
    }
  }

  lemma LinesFitApart(max: nat, s: seq<byte>)
    requires LinesFit(max, s)
    ensures var i := Position(s);
      if i == |s| then |s| <= max else i < max && LinesFit(max, s[i + 1..])
  {
    hide Position, Lines, Tail;
    var i := Position(s);
    if i == |s| {
      NoLine(s);
    } else {
      NextLine(s);
      assert Lines(s)[0] == s[..i];
      assert forall l :: l in Lines(s[i + 1..]) ==> l in Lines(s);
    }
  }

  lemma LineByLineIs(s: seq<byte>)
    ensures var i := Position(s);
      LineByLine(s) == if i == |s| then [s] else [s[..i + 1]] + LineByLine(s[i + 1..])
  {
    hide Position;
  }

  lemma OneChunk(max: nat, s: seq<byte>)
    requires |s| <= max
    ensures Concat([s]) == s && Fits(max, [], [s])
  {
    hide Position, Lines, Tail;
    assert [s][1..] == [] && [] + s == s;
  }

  /** A chunk that ends a line, in front of others. */
  lemma ChunkBefore(max: nat, line: seq<byte>, chunks: seq<seq<byte>>)
    requires |line| <= max && Tail(line) == [] && Fits(max, [], chunks)
    ensures Concat([line] + chunks) == line + Concat(chunks) && Fits(max, [], [line] + chunks)
  {
    hide Position, Lines, Tail;
    assert ([line] + chunks)[1..] == chunks && [] + line == line;
  }

  lemma Before(s: seq<byte>, j: nat, i: nat)
    requires j < i <= |s|
    ensures s[j] in s[..i]
  {
    assert s[..i][j] == s[j];
  }

  /** The first line with its terminator leaves nothing unread. */
  lemma OneLine(s: seq<byte>)
    requires Position(s) < |s|
    ensures Tail(s[..Position(s) + 1]) == []
  {
    hide Position;
    var i := Position(s);
    var line := s[..i + 1];
    var p := Position(line);
    if p < i {
      Before(s, p, i);
    } else if p > i {
      Before(line, i, p);
    }
    NextLine(line);
    LinesOfTail([]);
    assert line[|line|..] == [];
  }

  /** Some way to deliver the bytes passes the check exactly when every line fits with its terminator
      and so does the unterminated rest. */
  lemma SomeChunkingFitsIff(max: nat, s: seq<byte>)
    ensures (exists chunks :: Concat(chunks) == s && Fits(max, [], chunks)) <==> LinesFit(max, s)
  {
    hide LinesFit, Fits, LineByLine;
    if LinesFit(max, s) {
      LineByLineFits(max, s);
    }
    if chunks :| Concat(chunks) == s && Fits(max, [], chunks) {
      FitsMeansLinesFit(max, [], chunks);
      assert [] + s == s;
    }
  }

  /** Two one-byte requests and a maximum of three, on any connection whose handlers do not fail:
      delivered one by one the loop handles both and goes on, delivered at once it handles neither and
      stops. */
  lemma ArrivalMatters(env: Env, c: Conn) returns (s: seq<byte>, chunks: seq<seq<byte>>)
    requires !c.expectingHeader && forall n :: !env.fails(n)
    ensures s == [65, NEWLINE, 66, NEWLINE] && Concat(chunks) == s && Concat([s]) == s
    ensures ReadAll(env, 3, c, [], chunks) == Continue(c.(handled := c.handled + [[65], [66]]))
    ensures ReadAll(env, 3, c, [], [s]) == Stop(c, TooLong)
  {
    hide Position, Lines, Tail, HandleLines;
    var a: seq<byte>, b: seq<byte> := [65, NEWLINE], [66, NEWLINE];
    s, chunks := [65, NEWLINE, 66, NEWLINE], [a, b];
    ShortRequest(65);
    ShortRequest(66);
    Alone(b);
    Alone(s);
    assert chunks[1..] == [b] && a + b == s;
    assert [] + a == a && [] + s == s && [] + b == b;
    OneRequest(env, c, [65]);
    var next := c.(handled := c.handled + [[65]]);
    OneRequest(env, next, [66]);
    assert c.handled + [[65]] + [[66]] == c.handled + [[65], [66]];
    LineChunk(env, 3, c, a, [b], next);
    LineChunk(env, 3, next, b, [], next.(handled := next.handled + [[66]]));
    assert [a] + [b] == chunks && [b] + [] == [b];
  }

  /** A chunk that is one line, handled and followed by others. */
  lemma LineChunk(env: Env, max: nat, c: Conn, chunk: seq<byte>, chunks: seq<seq<byte>>, next: Conn)
    requires |chunk| <= max && Tail(chunk) == [] && HandleLines(env, c, Lines(chunk)) == Continue(next)
    ensures ReadAll(env, max, c, [], [chunk] + chunks) == ReadAll(env, max, next, [], chunks)
  {
    hide Lines, Tail, HandleLines;
    assert [] + chunk == chunk && ([chunk] + chunks)[1..] == chunks;
  }

  lemma OneRequest(env: Env, c: Conn, line: Line)
    requires !c.expectingHeader && forall n :: !env.fails(n)
    ensures HandleLines(env, c, [line]) == Continue(c.(handled := c.handled + [line]))
  {
    assert [line][1..] == [];
  }

  lemma Alone(s: seq<byte>)
    ensures Concat([s]) == s
  {
    assert [s][1..] == [];
  }

  lemma ShortRequest(x: byte)
    requires x != NEWLINE
    ensures Lines([x, NEWLINE]) == [[x]] && Tail([x, NEWLINE]) == []
  {
    var s := [x, NEWLINE];
    assert Position(s[1..]) == 0;
    assert Position(s) == 1;
    assert s[2..] == [] && s[..1] == [x];
  }
}
