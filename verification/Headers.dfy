/** Reading the headers of an HTTP response through a buffer of fixed size, in whatever pieces they come
    (src/libwaitress/waitress.c:650-668, 755-784 and 1073-1156). */
module Headers {
  import opened Basics
  import opened CStrings
  import opened Patterns
  import Chunked

  const BUFFER_SIZE := 10 * 1024


  datatype Error = BadRequest | Forbidden | NotFound | StatusUnknown | ConnectionClosed

  /** What of a response's headers is kept. */
  datatype Response = Response(contentLength: Option<nat>, chunked: bool)

  const BLANK := Response(None, false)

  /** HDRM_HEAD and HDRM_LINES */
  datatype Mode = Head | Lines

  // ---------------------------------------------------------------- what one line says

  /** strchr (line, '\n') in a text cut short by its first NUL. */
  function LineEnd(text: string, i: nat): (r: Option<nat>)
    requires i <= |text|
    ensures r.Some? ==> i <= r.value < |text| && text[r.value] == '\n'
    decreases |text| - i
  {
    if i == |text| || text[i] == '\0' then None
    else if text[i] == '\n' then Some(i)
    else LineEnd(text, i + 1)
  }

  /** A line without what ends it. */
  function Trimmed(line: string): string {
    if line != [] && line[|line| - 1] == '\r' then line[..|line| - 1] else line
  }

  /** Digits from `i` on, `limit` of them at most. */
  function DigitsUpTo(s: string, i: nat, limit: nat): (r: nat)
    requires i <= |s|
    ensures i <= r <= |s|
    decreases limit
  {
    if limit > 0 && i < |s| && IsDigit(s[i]) then DigitsUpTo(s, i + 1, limit - 1) else i
  }

  /** WaitressParseStatusline: the number after "HTTP/1." and a digit, of three digits at most. */
  function ParseStatusline(line: string): int {
    if "HTTP/1." <= line && |line| > 7 && IsDigit(line[7]) then
      var from := SkipSpace(line, 8);
      var to := DigitsUpTo(line, from, 3);
      if to == from then -1 else DigitsValue(line[from..to], 10)
    else -1
  }

  /** WaitressHandleHeader, on a line split at its first colon; other lines are ignored. */
  function HandleHeader(r: Response, line: string): Response {
    match Find(line, ':', 0)
    case None => r
    case Some(colon) =>
      var key, value := line[..colon], line[SkipSpace(line, colon + 1)..];
      if Lower(key) == "content-length" then r.(contentLength := Some(Strtol(value, 10).value % Chunked.TWO64))
      else if Lower(key) == "transfer-encoding" && Lower(value) == "chunked" then r.(chunked := true)
      else r
  }

  // ---------------------------------------------------------------- what a whole stream says

  /** What reading headers comes to: the response with the bytes that are left, which begin its body, or
      an error. */
  datatype Outcome = Received(response: Response, body: string) | Failure(error: Error)

  /** What a line does: go on in some mode, be the last, or be an error. */
  datatype Turn = Next(mode: Mode, response: Response) | Last(response: Response) | Stop(error: Error)

  function HandleLine(mode: Mode, r: Response, line: string): Turn {
    match mode
    case Head =>
      var status := ParseStatusline(line);
      if status == 200 || status == 206 then Next(Lines, r)
      else if status == 400 then Stop(BadRequest)
      else if status == 403 then Stop(Forbidden)
      else if status == 404 then Stop(NotFound)
      else if status == -1 then Next(Head, r)
      else Stop(StatusUnknown)
    case Lines => if line == [] then Last(r) else Next(Lines, HandleHeader(r, line))
  }

  /** What comes of a line and the stream behind it. */
  function AfterLine(turn: Turn, rest: string): Outcome
    decreases |rest|, 1
  {
    match turn
    case Next(mode, r) => Parse(mode, r, rest)
    case Last(r) => Received(r, rest)
    case Stop(error) => Failure(error)
  }

  /** The part of a stream in which its next line has to end. */
  function Window(stream: string): string {
    if |stream| < BUFFER_SIZE - 1 then stream else stream[..BUFFER_SIZE - 1]
  }

  /** The headers of a stream taken line by line. A line has to fit the buffer. */
  function Parse(mode: Mode, r: Response, stream: string): Outcome
    decreases |stream|, 0
  {
    match LineEnd(Window(stream), 0)
    case None => Failure(ConnectionClosed)
    case Some(end) => AfterLine(HandleLine(mode, r, Trimmed(stream[..end])), stream[end + 1..])
  }

  lemma {:induction false} LineEndPrefix(text: string, i: nat, k: nat)
    requires i <= k <= |text|
    ensures LineEnd(text[..k], i).Some? ==> LineEnd(text, i) == LineEnd(text[..k], i)
    ensures LineEnd(text, i).Some? && LineEnd(text, i).value < k ==> LineEnd(text[..k], i) == LineEnd(text, i)
    decreases k - i
  {
    if i < k && text[i] != '\0' && text[i] != '\n' {
      LineEndPrefix(text, i + 1, k);
    }
  }

  /** A line found in what was read so far is the next line of the stream. */
  lemma FoundInBuffer(mode: Mode, r: Response, buffer: string, unread: string)
    requires |buffer| < BUFFER_SIZE && LineEnd(buffer, 0).Some?
    ensures var end := LineEnd(buffer, 0).value;
            Parse(mode, r, buffer + unread) == AfterLine(HandleLine(mode, r, Trimmed(buffer[..end])), buffer[end + 1..] + unread)
  {
    hide HandleLine, AfterLine;
    var stream := buffer + unread;
    var end := LineEnd(buffer, 0).value;
    assert Window(stream)[..|buffer|] == buffer;
    LineEndPrefix(Window(stream), 0, |buffer|);
    assert stream[..end] == buffer[..end] && stream[end + 1..] == buffer[end + 1..] + unread;
  }

  /** When there is no line in the buffer, and it is full or nothing more comes, there is none at all. */
  lemma NotFoundInBuffer(mode: Mode, r: Response, buffer: string, unread: string)
    requires |buffer| < BUFFER_SIZE && LineEnd(buffer, 0).None?
    requires unread == [] || |buffer| == BUFFER_SIZE - 1
    ensures Parse(mode, r, buffer + unread) == Failure(ConnectionClosed)
  {
    assert Window(buffer + unread) == buffer;
  }

  // ---------------------------------------------------------------- through the buffer

  /** WaitressGetline: cuts the line at `str` off, and says how long it is and where the next begins. */
  method Getline(buf: array<char>, str: nat, filled: nat) returns (next: Option<nat>, length: nat)
    requires str <= filled < buf.Length && buf[filled] == '\0'
    modifies buf
    ensures next.None? ==> LineEnd(old(buf[str..filled]), 0).None? && buf[..] == old(buf[..])
    ensures next.Some? ==>
              && LineEnd(old(buf[str..filled]), 0) == Some(next.value - 1 - str)
              && str + length < next.value <= filled && buf[str + length] == '\0'
              && buf[str..str + length] == Trimmed(old(buf[str..filled])[..next.value - 1 - str])
              && buf[next.value..] == old(buf[next.value..])
  {
    ghost var text := buf[str..filled];
    var eol := str;
    length := 0;
    assert text[0..] == text;
    while eol < filled && buf[eol] != '\0' && buf[eol] != '\n'
      invariant str <= eol <= filled
      invariant LineEnd(text, 0) == LineEnd(text, eol - str)
      modifies {}
    {
      assert text[eol - str] == buf[eol];
      eol := eol + 1;
    }
    if buf[eol] != '\n' {
      next := None;
      return;
    }
    ghost var line := buf[str..eol];
    assert line == text[..eol - str];
    length := eol - str;
    buf[eol] := '\0';
    if eol > str && buf[eol - 1] == '\r' {
      buf[eol - 1] := '\0';
      length := length - 1;
    }
    assert buf[str..str + length] == Trimmed(line);
    next := Some(eol + 1);
  }

  /** The loop over the lines that are in the buffer. `thisLine` is where it stopped. */
  method HandleLines(buf: array<char>, filled: nat, mode: Mode, r: Response, ghost unread: string)
    returns (turn: Turn, thisLine: nat)
    requires filled < BUFFER_SIZE <= buf.Length && buf[filled] == '\0'
    modifies buf
    ensures thisLine <= filled && buf[thisLine..filled] == old(buf[thisLine..filled])
    ensures Parse(mode, r, old(buf[..filled]) + unread) == AfterLine(turn, buf[thisLine..filled] + unread)
    ensures turn.Next? ==> LineEnd(buf[thisLine..filled], 0).None?
  {
    hide HandleLine, LineEnd, Trimmed, Parse;
    thisLine := 0;
    turn := Next(mode, r);
    ghost var whole := Parse(mode, r, buf[..filled] + unread);
    assert buf[0..filled] == buf[..filled];
    while turn.Next?
      invariant thisLine <= filled && buf[filled] == '\0'
      invariant buf[thisLine..filled] == old(buf[thisLine..filled])
      invariant AfterLine(turn, buf[thisLine..filled] + unread) == whole
      decreases filled - thisLine + if turn.Next? then 1 else 0
    {
      ghost var buffer := buf[thisLine..filled];
      var next, length := Getline(buf, thisLine, filled);
      if next.None? {
        assert buf[thisLine..filled] == buf[..][thisLine..filled] == buffer;
        break;
      }
      FoundInBuffer(turn.mode, turn.response, buffer, unread);
      turn := HandleLine(turn.mode, turn.response, buf[thisLine..thisLine + length]);
      assert buf[next.value..filled] == buf[next.value..][..filled - next.value] == buffer[next.value - thisLine..];
      thisLine := next.value;
    }
  }

  /** WaitressReceiveHeaders. How much of what is wanted each read brings is up to `cut`. What is left in
      the buffer at the end, with what is still to be read, is the body. */
  method ReceiveHeaders(buf: array<char>, stream: string, cut: nat -> nat) returns (outcome: Turn, remaining: nat, got: nat)
    requires buf.Length >= BUFFER_SIZE
    modifies buf
    ensures remaining <= buf.Length && got <= |stream| && !outcome.Next?
    ensures Parse(Head, BLANK, stream) == AfterLine(outcome, buf[..remaining] + stream[got..])
  {
    hide LineEnd, Parse, AfterLine;
    InitiallyParse(stream);
    outcome := Next(Head, BLANK);
    remaining, got := 0, 0;
    var turns := 0;
    assert buf[..0] + stream[0..] == stream;
    NoLineInNothing();
    while outcome.Next?
      invariant remaining < BUFFER_SIZE && got <= |stream|
      invariant outcome.Next? ==> LineEnd(buf[..remaining], 0).None?
      invariant Parse(Head, BLANK, stream) == AfterLine(outcome, buf[..remaining] + stream[got..])
      decreases |stream| - got + if outcome.Next? then 1 else 0
    {
      var recvSize := Least(BUFFER_SIZE - 1 - remaining, |stream| - got, if cut(turns) == 0 then 1 else cut(turns));
      if recvSize == 0 {
        NotFoundInBuffer(outcome.mode, outcome.response, buf[..remaining], stream[got..]);
        TurnEnds(outcome.mode, outcome.response, ConnectionClosed, buf[..remaining] + stream[got..]);
        outcome := Stop(ConnectionClosed);
        break;
      }
      turns := turns + 1;
      TurnEnds(outcome.mode, outcome.response, ConnectionClosed, buf[..remaining] + stream[got..]);
      ReadMore(buf, remaining, stream, got, recvSize);
      remaining, got := remaining + recvSize, got + recvSize;
      var thisLine;
      outcome, thisLine := HandleLines(buf, remaining, outcome.mode, outcome.response, stream[got..]);
      MoveDown(buf, thisLine, remaining);
      remaining := remaining - thisLine;
    }
  }

  /** What READ_RET and the NUL put behind it do to the buffer. */
  method ReadMore(buf: array<char>, filled: nat, stream: string, got: nat, n: nat)
    requires filled + n < buf.Length && got + n <= |stream|
    modifies buf
    ensures buf[..filled + n] + stream[got + n..] == old(buf[..filled]) + stream[got..] && buf[filled + n] == '\0'
  {
    ghost var before := buf[..filled];
    forall i | 0 <= i < n {
      buf[filled + i] := stream[got + i];
    }
    buf[filled + n] := '\0';
    assert buf[..filled + n] == before + stream[got..got + n];
    assert stream[got..] == stream[got..got + n] + stream[got + n..];
  }

  /** memmove to the start of the buffer. */
  method MoveDown(buf: array<char>, from: nat, to: nat)
    requires from <= to <= buf.Length
    modifies buf
    ensures buf[..to - from] == old(buf[from..to])
  {
    forall i | 0 <= i < to - from {
      buf[i] := buf[from + i];
    }
  }

  function Least(a: nat, b: nat, c: nat): nat {
    var least := if a < b then a else b;
    if least < c then least else c
  }

  lemma InitiallyParse(stream: string)
    ensures Parse(Head, BLANK, stream) == AfterLine(Next(Head, BLANK), stream)
  {
  }

  lemma TurnEnds(mode: Mode, r: Response, error: Error, rest: string)
    ensures AfterLine(Next(mode, r), rest) == Parse(mode, r, rest)
    ensures AfterLine(Stop(error), rest) == Failure(error)
  {
  }

  lemma NoLineInNothing()
    ensures LineEnd("", 0).None?
  {
  }

  /** However the stream is cut up, the headers read are the same, and exactly the bytes behind them are
      left for the body. */
  method ReceiveTwice(stream: string, cut1: nat -> nat, cut2: nat -> nat)
    returns (outcome1: Turn, body1: string, outcome2: Turn, body2: string)
    ensures outcome1 == outcome2 && (outcome1.Last? ==> body1 == body2)
    ensures outcome1.Last? ==> Parse(Head, BLANK, stream) == Received(outcome1.response, body1)
  {
    var buf := new char[BUFFER_SIZE](_ => '\0');
    var remaining, got;
    outcome1, remaining, got := ReceiveHeaders(buf, stream, cut1);
    body1 := buf[..remaining] + stream[got..];
    outcome2, remaining, got := ReceiveHeaders(buf, stream, cut2);
    body2 := buf[..remaining] + stream[got..];
  }
}
