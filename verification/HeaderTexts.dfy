/** Response headers written out, and what is read back of them (src/libwaitress/waitress.c:755-784 and
    1073-1156). */
module HeaderTexts {
  import opened Basics
  import opened CStrings
  import opened Patterns
  import opened NumberTexts
  import opened Headers
  import Chunked

  // ---------------------------------------------------------------- one line

  /** What makes one line, that fits the buffer with what ends it. */
  predicate IsLine(line: string) {
    && |line| + 2 < BUFFER_SIZE && (forall c :: c in line ==> c != '\n' && c != '\0')
    && (line != "" ==> line[|line| - 1] != '\r')
  }

  /** A line may end in a newline, with a carriage return before it or without. */
  function Ending(crlf: bool): string {
    if crlf then "\r\n" else "\n"
  }

  lemma {:induction false} LineEndIs(text: string, i: nat, k: nat)
    requires i <= k < |text| && text[k] == '\n' && forall j :: i <= j < k ==> text[j] != '\n' && text[j] != '\0'
    ensures LineEnd(text, i) == Some(k)
    decreases k - i
  {
    if i < k {
      LineEndIs(text, i + 1, k);
    }
  }

  /** A line is handled, and then what is behind it. */
  lemma LineIsHandled(mode: Mode, r: Response, line: string, crlf: bool, rest: string)
    requires IsLine(line)
    ensures Parse(mode, r, line + Ending(crlf) + rest) == AfterLine(HandleLine(mode, r, line), rest)
  {
    var stream, end := line + Ending(crlf) + rest, |line| + |Ending(crlf)| - 1;
    LineFound(line, crlf, rest);
    hide HandleLine, AfterLine, LineEnd, Window;
    assert stream[end + 1..] == rest;
    assert Trimmed(stream[..end]) == line by {
      assert stream[..end] == if crlf then line + "\r" else line;
    }
  }

  lemma LineFound(line: string, crlf: bool, rest: string)
    requires IsLine(line)
    ensures LineEnd(Window(line + Ending(crlf) + rest), 0) == Some(|line| + |Ending(crlf)| - 1)
  {
    var stream, end := line + Ending(crlf) + rest, |line| + |Ending(crlf)| - 1;
    forall j | 0 <= j < end ensures stream[j] != '\n' && stream[j] != '\0' {
      if j < |line| {
        assert stream[j] == line[j] && line[j] in line;
      } else {
        assert stream[j] == '\r';
      }
    }
    LineEndIs(Window(stream), 0, end);
  }

  // ---------------------------------------------------------------- the status

  /** A status line, of HTTP 1.0 to 1.9. */
  function StatusLine(minor: nat, status: nat, reason: string): string
    requires minor < 10
  {
    "HTTP/1." + Digits(minor, 10) + " " + Digits(status, 10) + " " + reason
  }

  lemma {:induction false} LimitReached(s: string, i: nat, k: nat)
    requires k <= 3 && i + k <= |s| && (forall j :: i <= j < i + k ==> IsDigit(s[j])) && (i + k < |s| ==> !IsDigit(s[i + k]))
    ensures DigitsUpTo(s, i, 3) == i + k
  {
    assert DigitsUpTo(s, i + k, 3 - k) == i + k;
    assert k >= 1 ==> DigitsUpTo(s, i + k - 1, 4 - k) == i + k;
    assert k >= 2 ==> DigitsUpTo(s, i + k - 2, 5 - k) == i + k;
  }

  /** The status of a status line is read. */
  lemma StatusIsRead(minor: nat, status: nat, reason: string)
    requires minor < 10 && 100 <= status < 1000
    ensures ParseStatusline(StatusLine(minor, status, reason)) == status
  {
    var digits, line := Digits(status, 10), StatusLine(minor, status, reason);
    DigitsAre(minor, 10);
    DigitsAre(status, 10);
    assert |Digits(minor, 10)| == 1;
    assert |digits| == 3 by {
      assert Digits(status / 10, 10) == Digits(status / 100, 10) + [DigitChar(status / 10 % 10)];
    }
    hide Digits, DigitsValue;
    StatusAt(line, Digits(minor, 10), digits, reason);
    LimitReached(line, 9, 3);
  }

  lemma StatusAt(line: string, minor: string, digits: string, reason: string)
    requires line == "HTTP/1." + minor + " " + digits + " " + reason
    requires |minor| == 1 && |digits| == 3 && AllDigits(minor, 10) && AllDigits(digits, 10) && !IsSpace(digits[0])
    ensures "HTTP/1." <= line && |line| > 12 && IsDigit(line[7]) && SkipSpace(line, 8) == 9 && line[9..12] == digits
    ensures (forall j :: 9 <= j < 12 ==> IsDigit(line[j])) && line[12] == ' '
  {
    assert line[7] == minor[0] && line[8] == ' ' && line[9] == digits[0] && line[10] == digits[1] && line[11] == digits[2];
    assert SkipSpace(line, 9) == 9;
    assert line[9..12] == digits;
    assert line[..7] == "HTTP/1.";
  }

  /** What a status line comes to: it lets the headers begin, or it is an error. */
  lemma StatusDecides(minor: nat, status: nat, reason: string, r: Response)
    requires minor < 10 && 100 <= status < 1000
    ensures HandleLine(Head, r, StatusLine(minor, status, reason))
         == if status == 200 || status == 206 then Next(Lines, r)
            else if status == 400 then Stop(BadRequest) else if status == 403 then Stop(Forbidden)
            else if status == 404 then Stop(NotFound) else Stop(StatusUnknown)
  {
    StatusIsRead(minor, status, reason);
  }

  // ---------------------------------------------------------------- headers

  datatype Header = Length(n: nat) | ChunkedBody | Other(key: string, val: string)

  function Key(h: Header): string {
    match h
    case Length(_) => "Content-Length"
    case ChunkedBody => "Transfer-Encoding"
    case Other(key, _) => key
  }

  function Val(h: Header): string {
    match h
    case Length(n) => Decimal(n)
    case ChunkedBody => "chunked"
    case Other(_, val) => val
  }

  /** A header's line: keys may be written in upper or lower case, with any whitespace behind the colon. */
  ghost predicate Writes(h: Header, line: string) {
    exists key, gap :: WritesWith(h, line, key, gap)
  }

  predicate WritesWith(h: Header, line: string, key: string, gap: string) {
    && line == key + ":" + gap + Val(h) && Lower(key) == Lower(Key(h))
    && (forall c :: c in gap ==> IsSpace(c)) && (Val(h) != "" ==> !IsSpace(Val(h)[0]))
  }

  /** Headers of other kinds are of no concern. */
  predicate Known(h: Header) {
    match h
    case Length(n) => n <= LONG_MAX
    case ChunkedBody => true
    case Other(key, val) =>
      ':' !in key && Lower(key) != "content-length" && (Lower(key) != "transfer-encoding" || Lower(val) != "chunked")
  }

  /** What a header says of the response. */
  function Says(r: Response, h: Header): Response {
    match h
    case Length(n) => r.(contentLength := Some(n))
    case ChunkedBody => r.(chunked := true)
    case Other(_, _) => r
  }

  lemma NoColonInKey(key: string, h: Header)
    requires Known(h) && Lower(key) == Lower(Key(h))
    ensures ':' !in key
  {
    LowerAgrees(key, Key(h));
    assert ':' !in Key(h);
    forall i | 0 <= i < |key| ensures key[i] != ':' {
      assert SameLetter(key[i], Key(h)[i]) && Key(h)[i] in Key(h);
    }
  }

  lemma GapIsSkipped(line: string, i: nat, gap: string)
    requires i + |gap| <= |line| && line[i..i + |gap|] == gap && (forall c :: c in gap ==> IsSpace(c))
    requires i + |gap| < |line| ==> !IsSpace(line[i + |gap|])
    ensures SkipSpace(line, i) == i + |gap|
  {
    forall j | i <= j < i + |gap| ensures IsSpace(line[j]) {
      assert line[j] == gap[j - i] && gap[j - i] in gap;
    }
  }

  /** The key and the value of a written line. */
  lemma FieldParts(h: Header, line: string, key: string, gap: string)
    requires Known(h) && WritesWith(h, line, key, gap)
    ensures Find(line, ':', 0) == Some(|key|) && line[..|key|] == key
    ensures SkipSpace(line, |key| + 1) == |key| + 1 + |gap| && line[|key| + 1 + |gap|..] == Val(h)
  {
    NoColonInKey(key, h);
    FindIs(line, ':', 0, |key|);
    hide Known, Val;
    var from := |key| + 1;
    assert line[from..from + |gap|] == gap;
    assert Val(h) != "" ==> line[from + |gap|] == Val(h)[0];
    GapIsSkipped(line, from, gap);
  }

  lemma LowerKeys()
    ensures Lower("Content-Length") == "content-length" && Lower("Transfer-Encoding") == "transfer-encoding"
    ensures Lower("chunked") == "chunked"
  {
  }

  lemma HandledAs(r: Response, line: string, key: string, val: string)
    requires Find(line, ':', 0) == Some(|key|) && line[..|key|] == key
    requires line[SkipSpace(line, |key| + 1)..] == val
    ensures HandleHeader(r, line)
         == if Lower(key) == "content-length" then r.(contentLength := Some(Strtol(val, 10).value % Chunked.TWO64))
            else if Lower(key) == "transfer-encoding" && Lower(val) == "chunked" then r.(chunked := true)
            else r
  {
    hide Find, SkipSpace, Lower, Strtol;
  }

  /** What handling a field by its key and value comes to is what the header says. */
  lemma FieldSays(r: Response, h: Header, key: string)
    requires Known(h) && Lower(key) == Lower(Key(h))
    ensures Says(r, h)
         == if Lower(key) == "content-length" then r.(contentLength := Some(Strtol(Val(h), 10).value % Chunked.TWO64))
            else if Lower(key) == "transfer-encoding" && Lower(Val(h)) == "chunked" then r.(chunked := true)
            else r
  {
    LowerKeys();
    hide Lower, Strtol, Decimal;
    if h.Length? {
      ReadsDecimal(h.n, 10);
    }
  }

  /** A written header is read back as what it says. */
  lemma HeaderIsRead(r: Response, h: Header, line: string)
    requires Known(h) && Writes(h, line)
    ensures HandleHeader(r, line) == Says(r, h)
  {
    var key, gap :| WritesWith(h, line, key, gap);
    assert Lower(key) == Lower(Key(h));
    hide *;
    FieldParts(h, line, key, gap);
    HandledAs(r, line, key, Val(h));
    FieldSays(r, h, key);
  }

  // ---------------------------------------------------------------- a whole head

  /** Lines with their endings, and the empty line behind the last. */
  function HeadText(lines: seq<string>, crlf: bool): string {
    if lines == [] then Ending(crlf) else lines[0] + Ending(crlf) + HeadText(lines[1..], crlf)
  }

  ghost predicate AllWritten(headers: seq<Header>, lines: seq<string>) {
    |headers| == |lines| && forall i :: 0 <= i < |lines| ==>
      Known(headers[i]) && Writes(headers[i], lines[i]) && IsLine(lines[i])
  }

  /** The length that the last header with a length gives. */
  function LengthOf(headers: seq<Header>): Option<nat> {
    if headers == [] then None
    else
      var last := headers[|headers| - 1];
      if last.Length? then Some(last.n) else LengthOf(headers[..|headers| - 1])
  }

  lemma {:induction false} LengthAfter(h: Header, headers: seq<Header>)
    ensures LengthOf([h] + headers) == if LengthOf(headers).Some? then LengthOf(headers)
                                       else if h.Length? then Some(h.n) else None
    decreases |headers|
  {
    var all := [h] + headers;
    if headers == [] {
      assert all[..0] == [];
    } else {
      assert all[..|all| - 1] == [h] + headers[..|headers| - 1];
      LengthAfter(h, headers[..|headers| - 1]);
    }
  }

  /** What is said before and then by headers. */
  function Told(r: Response, headers: seq<Header>): Response {
    Response(if LengthOf(headers).Some? then LengthOf(headers) else r.contentLength, r.chunked || ChunkedBody in headers)
  }

  lemma {:induction false} HeadersAreRead(r: Response, headers: seq<Header>, lines: seq<string>, crlf: bool, body: string)
    requires AllWritten(headers, lines)
    ensures Parse(Lines, r, HeadText(lines, crlf) + body) == Received(Told(r, headers), body)
    decreases |headers|
  {
    if headers == [] {
      assert lines == [];
      NoHeadersAreRead(r, crlf, body);
    } else {
      var h, rest, line := headers[0], headers[1..], lines[0];
      assert headers == [h] + rest;
      FirstIsWritten(headers, lines);
      hide *;
      HeaderIsRead(r, h, line);
      FirstIsHandled(r, h, line, HeadText(lines[1..], crlf) + body, crlf);
      HeadParts(lines, crlf, body);
      HeadersAreRead(Says(r, h), rest, lines[1..], crlf, body);
      SaysFirst(r, h, rest);
    }
  }

  lemma NoHeadersAreRead(r: Response, crlf: bool, body: string)
    ensures Parse(Lines, r, HeadText([], crlf) + body) == Received(Told(r, []), body)
  {
    hide Parse;
    LineIsHandled(Lines, r, "", crlf, body);
    assert "" + Ending(crlf) + body == HeadText([], crlf) + body;
  }

  lemma FirstIsWritten(headers: seq<Header>, lines: seq<string>)
    requires AllWritten(headers, lines) && headers != []
    ensures Known(headers[0]) && Writes(headers[0], lines[0]) && IsLine(lines[0]) && AllWritten(headers[1..], lines[1..])
  {
    hide Known, Writes, IsLine;
  }

  lemma HeadParts(lines: seq<string>, crlf: bool, body: string)
    requires lines != []
    ensures HeadText(lines, crlf) + body == lines[0] + Ending(crlf) + (HeadText(lines[1..], crlf) + body)
  {
  }

  lemma FirstIsHandled(r: Response, h: Header, line: string, rest: string, crlf: bool)
    requires Writes(h, line) && IsLine(line) && HandleHeader(r, line) == Says(r, h)
    ensures Parse(Lines, r, line + Ending(crlf) + rest) == Parse(Lines, Says(r, h), rest)
  {
    WrittenNotEmpty(h, line);
    hide Writes, IsLine, Parse, HandleHeader, Says, Ending;
    LineIsHandled(Lines, r, line, crlf, rest);
  }

  lemma WrittenNotEmpty(h: Header, line: string)
    requires Writes(h, line)
    ensures line != ""
  {
  }

  lemma SaysFirst(r: Response, h: Header, rest: seq<Header>)
    ensures Told(Says(r, h), rest) == Told(r, [h] + rest)
  {
    LengthAfter(h, rest);
    assert ChunkedBody in [h] + rest <==> h == ChunkedBody || ChunkedBody in rest;
  }

  /** A head that was written, of a response that is all right, is read back: the last length that it gives,
      whether the body comes in chunks, and where the body begins. */
  lemma HeadIsRead(minor: nat, status: nat, reason: string, headers: seq<Header>, lines: seq<string>, crlf: bool, body: string)
    requires minor < 10 && (status == 200 || status == 206) && IsLine(StatusLine(minor, status, reason))
    requires AllWritten(headers, lines)
    ensures Parse(Head, BLANK, StatusLine(minor, status, reason) + Ending(crlf) + HeadText(lines, crlf) + body)
         == Received(Response(LengthOf(headers), ChunkedBody in headers), body)
  {
    var line := StatusLine(minor, status, reason);
    StatusDecides(minor, status, reason, BLANK);
    hide StatusLine, IsLine, AllWritten, HandleLine, Parse;
    LineIsHandled(Head, BLANK, line, crlf, HeadText(lines, crlf) + body);
    assert line + Ending(crlf) + HeadText(lines, crlf) + body == line + Ending(crlf) + (HeadText(lines, crlf) + body);
    HeadersAreRead(BLANK, headers, lines, crlf, body);
  }
}
