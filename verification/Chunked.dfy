/** Decoding a chunked HTTP body as it comes in (src/libwaitress/waitress.c:673-753, 1162-1204 and 1295-1298), against
    section 4.1 of RFC 7230. A body is its bytes as characters. */
module Chunked {
  import opened Basics

  const TWO64: nat := 0x1_0000_0000_0000_0000

  datatype Status = Going | Done | Failed

  /** How far decoding is: reading a chunk's size or its data, the size read or what is left of it,
      how much content was received, and that content. */
  datatype Decoder = Decoder(inData: bool, chunkSize: nat, received: nat, payload: string, status: Status)

  const START := Decoder(false, 0, 0, "", Going)

  // ---------------------------------------------------------------- what decoding comes to, byte by byte

  predicate IsHexDigit(c: char) {
    '0' <= c <= '9' || 'a' <= c <= 'f'
  }

  /** The low four bits of a digit's code, for letters of the code nine further on. */
  function HexValue(c: char): nat
    requires IsHexDigit(c)
  {
    if '0' <= c <= '9' then c as int % 16 else (c as int + 9) % 16
  }

  /** A size shifted left by four bits, within 64, with a digit in the low ones. */
  function Shifted(size: nat, digit: nat): nat {
    size * 16 % TWO64 + digit
  }

  function Step(d: Decoder, c: char): Decoder {
    if d.status != Going then d
    else if !d.inData then
      if IsHexDigit(c) then d.(chunkSize := Shifted(d.chunkSize, HexValue(c)))
      else if c == '\r' then d
      else if c == '\n' then d.(inData := true, status := if d.chunkSize == 0 then Done else Going)
      else d.(status := Failed)
    else if d.chunkSize > 0 then
      d.(chunkSize := d.chunkSize - 1, received := (d.received + 1) % TWO64, payload := d.payload + [c])
    else if c == '\n' then d.(inData := false)
    else d
  }

  function Feed(d: Decoder, data: string): Decoder
    decreases |data|
  {
    if data == [] then d else Feed(Step(d, data[0]), data[1..])
  }

  function FeedAll(d: Decoder, pieces: seq<string>): Decoder
    decreases |pieces|
  {
    if pieces == [] then d else FeedAll(Feed(d, pieces[0]), pieces[1..])
  }

  lemma {:induction false} FeedAppend(d: Decoder, data: string, more: string)
    ensures Feed(d, data + more) == Feed(Feed(d, data), more)
    decreases |data|
  {
    hide Step;
    if data == [] {
      assert data + more == more;
    } else {
      assert (data + more)[0] == data[0] && (data + more)[1..] == data[1..] + more;
      FeedAppend(Step(d, data[0]), data[1..], more);
    }
  }

  /** However a body is cut up, decoding it comes to the same. */
  lemma {:induction false} CutsDoNotMatter(d: Decoder, pieces: seq<string>)
    ensures FeedAll(d, pieces) == Feed(d, Joined(pieces))
    decreases |pieces|
  {
    hide Feed;
    if pieces == [] {
      FeedNothing(d);
    } else {
      FeedAppend(d, pieces[0], Joined(pieces[1..]));
      CutsDoNotMatter(Feed(d, pieces[0]), pieces[1..]);
    }
  }

  lemma FeedNothing(d: Decoder)
    ensures Feed(d, []) == d
  {
  }

  lemma FeedOne(d: Decoder, c: char)
    ensures Feed(d, [c]) == Step(d, c)
  {
    assert [c][1..] == [];
  }

  lemma {:induction false} FeedEnded(d: Decoder, data: string)
    requires d.status != Going
    ensures Feed(d, data) == d
    decreases |data|
  {
    if data != [] {
      FeedEnded(d, data[1..]);
    }
  }

  /** Data within a chunk is content as it stands. */
  lemma {:induction false} FeedPayload(d: Decoder, data: string)
    requires d.status == Going && d.inData && |data| <= d.chunkSize && d.received < TWO64
    ensures Feed(d, data) == d.(chunkSize := d.chunkSize - |data|, received := (d.received + |data|) % TWO64,
                                payload := d.payload + data)
    decreases |data|
  {
    if data == [] {
      assert d.payload + data == d.payload;
    } else {
      FeedPayload(Step(d, data[0]), data[1..]);
      assert d.payload + [data[0]] + data[1..] == d.payload + data;
      WrapsOnce(d.received, |data|);
    }
  }

  lemma WrapsOnce(received: nat, n: nat)
    requires n > 0
    ensures ((received + 1) % TWO64 + (n - 1)) % TWO64 == (received + n) % TWO64
  {
  }

  /** Content only ever grows. */
  lemma {:induction false} PayloadGrows(d: Decoder, data: string)
    ensures d.payload <= Feed(d, data).payload
    decreases |data|
  {
    if data != [] {
      PayloadGrows(Step(d, data[0]), data[1..]);
    }
  }

  // ---------------------------------------------------------------- and back from what was encoded

  function HexDigit(n: nat): char
    requires n < 16
  {
    if n < 10 then ('0' as int + n) as char else ('a' as int + n - 10) as char
  }

  function Hex(n: nat): string {
    if n < 16 then [HexDigit(n)] else Hex(n / 16) + [HexDigit(n % 16)]
  }

  const CRLF := "\r\n"

  function EncodedChunk(data: string): string {
    Hex(|data|) + CRLF + data + CRLF
  }

  function EncodedChunks(chunks: seq<string>): string {
    if chunks == [] then [] else EncodedChunk(chunks[0]) + EncodedChunks(chunks[1..])
  }

  /** A chunked body, up to the end of its last chunk's line. */
  function Encoded(chunks: seq<string>): string {
    EncodedChunks(chunks) + Hex(0) + CRLF
  }

  lemma HexDigitValue(n: nat)
    requires n < 16
    ensures IsHexDigit(HexDigit(n)) && HexValue(HexDigit(n)) == n
  {
  }

  lemma {:induction false} FeedHex(d: Decoder, n: nat)
    requires d.status == Going && !d.inData && d.chunkSize == 0 && n < TWO64
    ensures Feed(d, Hex(n)) == d.(chunkSize := n)
    decreases n
  {
    if n < 16 {
      HexDigitValue(n);
      FeedOne(d, HexDigit(n));
    } else {
      FeedHex(d, n / 16);
      HexDigitValue(n % 16);
      FeedAppend(d, Hex(n / 16), [HexDigit(n % 16)]);
      FeedOne(d.(chunkSize := n / 16), HexDigit(n % 16));
      assert n / 16 * 16 + n % 16 == n;
    }
  }

  lemma FeedSizeLine(d: Decoder, n: nat)
    requires d.status == Going && !d.inData && d.chunkSize == 0 && n < TWO64
    ensures Feed(d, Hex(n) + CRLF) == d.(chunkSize := n, inData := true, status := if n == 0 then Done else Going)
  {
    hide Step;
    FeedHex(d, n);
    FeedAppend(d, Hex(n), CRLF);
    FeedCrLf(d.(chunkSize := n));
  }

  lemma FeedCrLf(d: Decoder)
    requires d.status == Going
    ensures !d.inData ==> Feed(d, CRLF) == d.(inData := true, status := if d.chunkSize == 0 then Done else Going)
    ensures d.inData && d.chunkSize == 0 ==> Feed(d, CRLF) == d.(inData := false)
  {
    assert CRLF == ['\r'] + ['\n'];
    FeedAppend(d, ['\r'], ['\n']);
    FeedOne(d, '\r');
    FeedOne(Step(d, '\r'), '\n');
  }

  lemma FeedChunk(d: Decoder, data: string)
    requires d.status == Going && !d.inData && d.chunkSize == 0 && 0 < |data| < TWO64 && d.received < TWO64
    ensures Feed(d, EncodedChunk(data)) == d.(received := (d.received + |data|) % TWO64, payload := d.payload + data)
  {
    hide Feed;
    FeedSizeLine(d, |data|);
    var open := d.(chunkSize := |data|, inData := true);
    FeedAppend(d, Hex(|data|) + CRLF, data);
    FeedPayload(open, data);
    FeedAppend(d, Hex(|data|) + CRLF + data, CRLF);
    FeedCrLf(open.(chunkSize := 0, received := (d.received + |data|) % TWO64, payload := d.payload + data));
  }

  predicate Encodable(chunks: seq<string>) {
    forall c :: c in chunks ==> 0 < |c| < TWO64
  }

  lemma {:induction false} FeedChunks(d: Decoder, chunks: seq<string>)
    requires Encodable(chunks) && d.status == Going && !d.inData && d.chunkSize == 0 && d.received < TWO64
    ensures Feed(d, EncodedChunks(chunks))
         == d.(received := (d.received + |Joined(chunks)|) % TWO64, payload := d.payload + Joined(chunks))
    decreases |chunks|
  {
    if chunks == [] {
      assert d.payload + [] == d.payload;
    } else {
      var first, rest := chunks[0], chunks[1..];
      var next := d.(received := (d.received + |first|) % TWO64, payload := d.payload + first);
      FirstChunk(chunks);
      hide *;
      FeedChunk(d, first);
      FeedAppend(d, EncodedChunk(first), EncodedChunks(rest));
      FeedChunks(next, rest);
      Regroup(d.payload, first, Joined(rest));
      AddsUp(d.received, |first|, |Joined(rest)|);
    }
  }

  lemma FirstChunk(chunks: seq<string>)
    requires chunks != []
    ensures EncodedChunks(chunks) == EncodedChunk(chunks[0]) + EncodedChunks(chunks[1..])
    ensures Joined(chunks) == chunks[0] + Joined(chunks[1..])
    ensures Encodable(chunks) ==> 0 < |chunks[0]| < TWO64 && Encodable(chunks[1..])
  {
  }

  lemma Regroup(a: string, b: string, c: string)
    ensures a + b + c == a + (b + c)
  {
  }

  lemma AddsUp(a: nat, b: nat, c: nat)
    ensures ((a + b) % TWO64 + c) % TWO64 == (a + (b + c)) % TWO64
  {
  }

  /** Any chunks with anything in them come back joined, and decoding is done; what follows is left. */
  lemma DecodesEncoded(chunks: seq<string>, more: string)
    requires Encodable(chunks)
    ensures var d := Feed(START, Encoded(chunks) + more);
            d.status == Done && d.payload == Joined(chunks) && d.received == |Joined(chunks)| % TWO64
  {
    hide Feed, EncodedChunks, Joined;
    FeedChunks(START, chunks);
    var last := START.(received := |Joined(chunks)| % TWO64, payload := "" + Joined(chunks));
    FeedSizeLine(last, 0);
    FeedAppend(START, EncodedChunks(chunks), Hex(0) + CRLF);
    assert Encoded(chunks) == EncodedChunks(chunks) + (Hex(0) + CRLF);
    FeedAppend(START, Encoded(chunks), more);
    FeedEnded(Feed(START, Encoded(chunks)), more);
    assert "" + Joined(chunks) == Joined(chunks);
  }

  /** Where a size is to stand and something else does, decoding breaks off; the content before it stands. */
  lemma BreaksOff(chunks: seq<string>, n: nat, c: char, more: string)
    requires Encodable(chunks) && n < TWO64 && !IsHexDigit(c) && c != '\r' && c != '\n'
    ensures var d := Feed(START, EncodedChunks(chunks) + [c] + more);
            d.status == Failed && d.payload == Joined(chunks)
    ensures var d := Feed(START, EncodedChunks(chunks) + Hex(n) + [c] + more);
            d.status == Failed && d.payload == Joined(chunks)
  {
    var d := START.(received := |Joined(chunks)| % TWO64, payload := Joined(chunks));
    assert "" + Joined(chunks) == Joined(chunks);
    FeedChunks(START, chunks);
    FeedHex(d, n);
    hide Feed, EncodedChunks, Hex, Joined;
    FeedAppend(START, EncodedChunks(chunks), Hex(n));
    BreaksAt(d, EncodedChunks(chunks), c, more);
    BreaksAt(d.(chunkSize := n), EncodedChunks(chunks) + Hex(n), c, more);
  }

  lemma BreaksAt(d: Decoder, before: string, c: char, more: string)
    requires Feed(START, before) == d && d.status == Going && !d.inData
    requires !IsHexDigit(c) && c != '\r' && c != '\n'
    ensures Feed(START, before + [c] + more) == d.(status := Failed)
  {
    FeedAppend(START, before, [c]);
    FeedOne(d, c);
    FeedAppend(START, before + [c], more);
    FeedEnded(d.(status := Failed), more);
  }

  // ---------------------------------------------------------------- the handlers

  /** WAITRESS_HANDLER_... */
  datatype Handled = Continue | Finished | Broken | Aborted

  function HandledBy(status: Status): Handled {
    match status
    case Going => Continue
    case Done => Finished
    case Failed => Broken
  }

  /** The callback for received data: whether it takes a piece, given all it got before. */
  type Callback = (string, string) -> bool

  ghost predicate AlwaysTakes(callback: Callback) {
    forall before, data :: callback(before, data)
  }

  /** What receiving a whole body comes to for the caller: a body that just stops is no error, unless its
      length was known. */
  datatype Result = Ok | DecodingError | CallbackAborted | PartialFile

  function ResultOf(status: Status): Result {
    if status == Failed then DecodingError else Ok
  }

  /** What the bytes of a body come to, chunked or not: the content, how it counts, and whether it is right. */
  function Content(chunked: bool, data: string): string {
    if chunked then Feed(START, data).payload else data
  }

  function Counted(chunked: bool, data: string): nat {
    if chunked then Feed(START, data).received else |data| % TWO64
  }

  function Judged(chunked: bool, data: string): Result {
    if chunked then ResultOf(Feed(START, data).status) else Ok
  }

  /** Nothing is read any more once as much content came as was announced. */
  predicate Enough(chunked: bool, length: Option<nat>, data: string) {
    length.Some? && Counted(chunked, data) >= length.value
  }

  /** How many reads a body is taken from, when `k` were taken already; the first is what came with the
      headers. */
  function Used(chunked: bool, length: Option<nat>, parts: seq<string>, k: nat): (r: nat)
    requires 1 <= k <= |parts|
    ensures k <= r <= |parts|
    decreases |parts| - k
  {
    if k == |parts| || Enough(chunked, length, Joined(parts[..k])) then k else Used(chunked, length, parts, k + 1)
  }

  /** All bytes the reads bring in until no more are made. */
  function Taken(chunked: bool, length: Option<nat>, parts: seq<string>): string
    requires parts != []
  {
    Joined(parts[..Used(chunked, length, parts, 1)])
  }

  // ---------------------------------------------------------------- where reading stops

  /** It stops at the first whole number of reads that brings enough, or at the end. */
  lemma {:induction false} UsedIsFirst(chunked: bool, length: Option<nat>, parts: seq<string>, k: nat)
    requires 1 <= k <= |parts|
    ensures var r := Used(chunked, length, parts, k);
            && (r < |parts| ==> Enough(chunked, length, Joined(parts[..r])))
            && forall j :: k <= j < r ==> !Enough(chunked, length, Joined(parts[..j]))
    decreases |parts| - k
  {
    hide Enough;
    if k < |parts| && !Enough(chunked, length, Joined(parts[..k])) {
      UsedIsFirst(chunked, length, parts, k + 1);
    }
  }

  /** Reads one after another bring in ever more. */
  lemma JoinedGrows(parts: seq<string>, j: nat, k: nat)
    requires j <= k <= |parts|
    ensures Joined(parts[..j]) <= Joined(parts[..k]) && |Joined(parts[..j])| <= |Joined(parts[..k])|
  {
    JoinedRest(parts[..k], j);
    assert parts[..k][..j] == parts[..j];
  }

  /** What is taken is a beginning of the stream, and all of it where no length was announced. */
  lemma TakenIsPrefix(chunked: bool, length: Option<nat>, parts: seq<string>)
    requires parts != []
    ensures Taken(chunked, length, parts) <= Joined(parts)
    ensures length.None? ==> Taken(chunked, length, parts) == Joined(parts)
  {
    var r := Used(chunked, length, parts, 1);
    UsedIsFirst(chunked, length, parts, 1);
    JoinedGrows(parts, r, |parts|);
    assert parts[..|parts|] == parts;
  }

  /** Some read ends just where the announced length does. */
  predicate CutAt(parts: seq<string>, length: nat) {
    exists k :: 1 <= k <= |parts| && |Joined(parts[..k])| == length
  }

  /** Two beginnings of one stream. */
  lemma PrefixAt(stream: string, taken: string, length: nat)
    requires taken <= stream && length <= |taken|
    ensures stream[..length] <= taken && (taken == stream[..length] <==> |taken| == length)
  {
  }

  /** An identity body that does not bring enough is taken whole. */
  lemma IdentityShort(length: nat, parts: seq<string>)
    requires parts != [] && |Joined(parts)| < length && |Joined(parts)| < TWO64
    ensures Taken(false, Some(length), parts) == Joined(parts)
  {
    hide Joined;
    var r := Used(false, Some(length), parts, 1);
    UsedIsFirst(false, Some(length), parts, 1);
    JoinedGrows(parts, r, |parts|);
    assert parts[..|parts|] == parts;
  }

  lemma IdentityEnough(length: nat, parts: seq<string>)
    requires parts != [] && length <= |Joined(parts)| < TWO64
    ensures |Taken(false, Some(length), parts)| >= length
  {
    hide Joined;
    UsedIsFirst(false, Some(length), parts, 1);
    assert parts[..|parts|] == parts;
    var r := Used(false, Some(length), parts, 1);
    JoinedGrows(parts, r, |parts|);
  }

  /** Reading goes no further than a read that ends where the length does. */
  lemma IdentityCut(length: nat, parts: seq<string>, k: nat)
    requires |Joined(parts)| < TWO64 && 1 <= k <= |parts| && |Joined(parts[..k])| == length
    ensures |Taken(false, Some(length), parts)| <= length
  {
    hide Joined;
    var r := Used(false, Some(length), parts, 1);
    UsedIsFirst(false, Some(length), parts, 1);
    JoinedGrows(parts, k, |parts|);
    assert parts[..|parts|] == parts;
    assert r <= k;
    JoinedGrows(parts, r, k);
  }

  /** How much is taken of an identity body. */
  lemma IdentityTakes(length: nat, parts: seq<string>)
    requires parts != [] && |Joined(parts)| < TWO64
    ensures var taken := Taken(false, Some(length), parts);
            && taken <= Joined(parts)
            && (|Joined(parts)| < length ==> taken == Joined(parts))
            && (|Joined(parts)| >= length ==> |taken| >= length && (|taken| == length <==> CutAt(parts, length)))
  {
    TakenIsPrefix(false, Some(length), parts);
    var r := Used(false, Some(length), parts, 1);
    assert Taken(false, Some(length), parts) == Joined(parts[..r]);
    hide Joined, Taken;
    if |Joined(parts)| < length {
      IdentityShort(length, parts);
    } else {
      IdentityEnough(length, parts);
      if k :| 1 <= k <= |parts| && |Joined(parts[..k])| == length {
        IdentityCut(length, parts, k);
      }
    }
  }

  /** An identity body of at least the announced length is taken up to that length, and exactly if no
      read goes across it; a shorter one is taken whole. */
  lemma IdentityTakesLength(length: nat, parts: seq<string>)
    requires parts != [] && |Joined(parts)| < TWO64
    ensures var taken := Taken(false, Some(length), parts);
            if |Joined(parts)| < length then taken == Joined(parts)
            else Joined(parts)[..length] <= taken && (taken == Joined(parts)[..length] <==> CutAt(parts, length))
  {
    hide Taken, Joined, CutAt;
    IdentityTakes(length, parts);
    if |Joined(parts)| >= length {
      PrefixAt(Joined(parts), Taken(false, Some(length), parts), length);
    }
  }

  /** Whatever the reads, an identity body is taken whole exactly if it is no longer than announced. */
  lemma WholeWhateverTheCuts(length: nat, stream: string)
    requires |stream| < TWO64
    ensures (forall parts :: parts != [] && Joined(parts) == stream ==> Taken(false, Some(length), parts) == stream)
            <==> |stream| <= length
  {
    if |stream| <= length {
      forall parts | parts != [] && Joined(parts) == stream
        ensures Taken(false, Some(length), parts) == stream
      {
        hide Taken, Joined, CutAt;
        IdentityTakes(length, parts);
      }
    } else {
      var a, b := stream[..length], stream[length..];
      JoinedTwo(a, b);
      assert a + b == stream;
      hide Joined;
      assert Taken(false, Some(length), [a, b]) == a;
    }
  }

  /** The same three bytes, two announced: cut after the second, two are taken; cut after the first, all. */
  lemma CutsMatterWithLength()
    ensures Joined(["ab", "c"]) == Joined(["a", "bc"])
    ensures Taken(false, Some(2), ["ab", "c"]) == "ab" && Taken(false, Some(2), ["a", "bc"]) == "abc"
  {
    JoinedTwo("ab", "c");
    JoinedTwo("a", "bc");
    hide Joined;
    assert ["a", "bc"][..2] == ["a", "bc"];
  }

  /** Content taken of a chunked body is a beginning of all there is, and where reading stopped early it
      is at least as much as was announced. */
  lemma ChunkedTakesLength(length: Option<nat>, parts: seq<string>)
    requires parts != []
    ensures var taken := Taken(true, length, parts);
            && Content(true, taken) <= Content(true, Joined(parts))
            && (taken == Joined(parts) || (length.Some? && Counted(true, taken) >= length.value))
  {
    var r := Used(true, length, parts, 1);
    UsedIsFirst(true, length, parts, 1);
    hide Feed;
    assert parts[..|parts|] == parts;
    JoinedRest(parts, r);
    FeedAppend(START, Joined(parts[..r]), Joined(parts[r..]));
    PayloadGrows(Feed(START, Joined(parts[..r])), Joined(parts[r..]));
  }

  /** How much content is counted is how much there is, within 64 bits. */
  lemma {:induction false} ReceivedCounts(d: Decoder, data: string)
    requires d.received == |d.payload| % TWO64
    ensures Feed(d, data).received == |Feed(d, data).payload| % TWO64
    decreases |data|
  {
    if data != [] {
      CountsOneMore(|d.payload|);
      ReceivedCounts(Step(d, data[0]), data[1..]);
    }
  }

  lemma CountsOneMore(n: nat)
    ensures (n % TWO64 + 1) % TWO64 == (n + 1) % TWO64
  {
  }

  /** An honest length loses no content, whatever the encoding and the reads. */
  lemma HonestLengthTakesAll(chunked: bool, parts: seq<string>)
    requires parts != [] && |Content(chunked, Joined(parts))| < TWO64
    ensures var content := Content(chunked, Joined(parts));
            Content(chunked, Taken(chunked, Some(|content|), parts)) == content
  {
    var length := |Content(chunked, Joined(parts))|;
    hide Taken, Joined, Feed;
    if chunked {
      ChunkedTakesLength(Some(length), parts);
      ReceivedCounts(START, Taken(chunked, Some(length), parts));
    } else {
      IdentityTakes(length, parts);
    }
  }

  // ---------------------------------------------------------------- the part of a request that receives its body

  class Request {
    const callback: Callback
    const chunked: bool
    /** The length the headers announced. */
    const contentLength: Option<nat>
    var inData: bool
    var chunkSize: nat
    var contentReceived: nat
    /** What the callback was given so far, one call after another. */
    var payload: string

    constructor (callback: Callback, chunked: bool, contentLength: Option<nat>)
      ensures Now() == START && this.callback == callback && this.chunked == chunked && this.contentLength == contentLength
    {
      this.callback, this.chunked, this.contentLength := callback, chunked, contentLength;
      inData, chunkSize, contentReceived, payload := false, 0, 0, "";
    }

    function Now(): Decoder
      reads this
    {
      Decoder(inData, chunkSize, contentReceived, payload, Going)
    }

    /** WaitressHandleIdentity. What the callback refuses it was given all the same. */
    method HandleIdentity(data: string) returns (handled: Handled)
      modifies this`contentReceived, this`payload
      ensures contentReceived == (old(contentReceived) + |data|) % TWO64 && payload == old(payload) + data
      ensures handled == if callback(old(payload), data) then Continue else Aborted
    {
      contentReceived := (contentReceived + |data|) % TWO64;
      handled := if callback(payload, data) then Continue else Aborted;
      payload := payload + data;
    }

    /** One turn of the loop in the chunk handler: a byte, or as much content as there is. */
    method HandleOne(data: string) returns (handled: Handled, used: nat)
      requires data != [] && contentReceived < TWO64
      modifies this
      ensures 0 < used <= |data| && contentReceived < TWO64
      ensures handled != Aborted ==>
                && handled == HandledBy(Feed(old(Now()), data[..used]).status)
                && Now() == Feed(old(Now()), data[..used]).(status := Going)
      ensures handled == Aborted ==> !AlwaysTakes(callback) && payload == Feed(old(Now()), data[..used]).payload
    {
      used := 1;
      handled := Continue;
      assert data[..1] == [data[0]];
      FeedOne(Now(), data[0]);
      hide Feed, AlwaysTakes;
      if !inData {
        if IsHexDigit(data[0]) {
          chunkSize := Shifted(chunkSize, HexValue(data[0]));
        } else if data[0] == '\r' {
        } else if data[0] == '\n' {
          inData := true;
          if chunkSize == 0 {
            handled := Finished;
          }
        } else {
          handled := Broken;
        }
      } else if chunkSize > 0 {
        used := if |data| > chunkSize then chunkSize else |data|;
        FeedPayload(Now(), data[..used]);
        handled := HandleIdentity(data[..used]);
        if handled == Aborted {
          NotAlways(callback, old(payload), data[..used]);
        } else {
          chunkSize := chunkSize - used;
        }
      } else if data[0] == '\n' {
        inData := false;
      }
    }

    /** WaitressHandleChunked */
    method HandleChunked(buf: string) returns (handled: Handled)
      requires contentReceived < TWO64
      modifies this
      ensures contentReceived < TWO64
      ensures var d := Feed(old(Now()), buf);
              if handled == Aborted then !AlwaysTakes(callback) && payload <= d.payload
              else handled == HandledBy(d.status) && Now() == d.(status := Going)
    {
      hide Feed, Step, AlwaysTakes;
      handled := Continue;
      var pos := 0;
      FeedNothing(Now());
      while pos < |buf| && handled == Continue
        invariant pos <= |buf| && contentReceived < TWO64
        invariant var d := Feed(old(Now()), buf[..pos]);
                  if handled == Aborted then !AlwaysTakes(callback) && payload == d.payload
                  else handled == HandledBy(d.status) && Now() == d.(status := Going)
        decreases |buf| - pos
      {
        var used;
        ghost var before := pos;
        handled, used := HandleOne(buf[pos..]);
        pos := pos + used;
        assert buf[..pos] == buf[..before] + buf[before..][..used];
        FeedAppend(old(Now()), buf[..before], buf[before..][..used]);
      }
      assert buf == buf[..pos] + buf[pos..];
      FeedAppend(old(Now()), buf[..pos], buf[pos..]);
      PayloadGrows(Feed(old(Now()), buf[..pos]), buf[pos..]);
      if handled == Finished || handled == Broken {
        FeedEnded(Feed(old(Now()), buf[..pos]), buf[pos..]);
      } else if handled == Continue {
        FeedNothing(Feed(old(Now()), buf[..pos]));
      }
    }

    /** The loop of WaitressReceiveResponse over what came behind the headers and what is read then, up to the
        read that brings nothing. It is
        as if all that is taken had come at once. */
    method ReceiveBody(rest: string, pieces: seq<string>) returns (result: Result)
      requires Now() == START
      modifies this
      ensures result != CallbackAborted ==>
                var taken := Taken(chunked, contentLength, [rest] + pieces);
                && result == Judged(chunked, taken) && payload == Content(chunked, taken)
                && contentReceived == Counted(chunked, taken)
      ensures result == CallbackAborted ==> !AlwaysTakes(callback)
    {
      var recv := rest;
      var i := 0;
      ghost var all := [rest] + pieces;
      assert all[1..] == pieces && all[..0] == [];
      FeedNothing(START);
      while true
        invariant i <= |pieces| && recv == all[i] && contentReceived < TWO64
        invariant chunked ==> Now() == Feed(START, Joined(all[..i])) && Now().status == Going
        invariant !chunked ==> payload == Joined(all[..i]) && contentReceived == |payload| % TWO64
        invariant Used(chunked, contentLength, all, 1) == Used(chunked, contentLength, all, i + 1)
        decreases |pieces| - i
      {
        hide Feed, AlwaysTakes, Joined;
        JoinedMore(all, i);
        var handled := HandlePiece(recv, Joined(all[..i]));
        if handled == Aborted {
          return CallbackAborted;
        }
        if handled == Finished || handled == Broken {
          EndedTaken(contentLength, all, i + 1);
          return if handled == Finished then Ok else DecodingError;
        }
        if contentLength.Some? && contentReceived >= contentLength.value {
          break;
        }
        if i == |pieces| {
          break;
        }
        recv := pieces[i];
        i := i + 1;
      }
      return Ok;
    }

    /** The end of WaitressFetchCall: a body that is right but shorter than announced is a partial file. */
    method FetchBody(rest: string, pieces: seq<string>) returns (result: Result)
      requires Now() == START
      modifies this
      ensures result != CallbackAborted ==>
                var taken := Taken(chunked, contentLength, [rest] + pieces);
                && payload == Content(chunked, taken)
                && (result == Ok <==> Judged(chunked, taken) == Ok
                                      && (contentLength.Some? ==> Enough(chunked, contentLength, taken)))
                && (result == DecodingError <==> Judged(chunked, taken) == DecodingError)
      ensures result == CallbackAborted ==> !AlwaysTakes(callback)
    {
      hide Taken, AlwaysTakes, Content;
      result := ReceiveBody(rest, pieces);
      if result == Ok && contentLength.Some? && contentReceived < contentLength.value {
        result := PartialFile;
      }
    }

    /** The data handler that the headers asked for, on the piece behind what came so far. */
    method HandlePiece(recv: string, ghost sofar: string) returns (handled: Handled)
      requires contentReceived < TWO64
      requires chunked ==> Now() == Feed(START, sofar)
      requires !chunked ==> payload == sofar && contentReceived == |payload| % TWO64
      modifies this
      ensures contentReceived < TWO64
      ensures handled == Aborted ==> !AlwaysTakes(callback)
      ensures chunked && handled != Aborted ==>
                var d := Feed(START, sofar + recv);
                handled == HandledBy(d.status) && Now() == d.(status := Going)
      ensures !chunked && handled != Aborted ==>
                handled == Continue && payload == sofar + recv && contentReceived == |payload| % TWO64
    {
      hide Feed, AlwaysTakes;
      if chunked {
        FeedAppend(START, sofar, recv);
        handled := HandleChunked(recv);
      } else {
        handled := HandleIdentity(recv);
        if handled == Aborted {
          NotAlways(callback, sofar, recv);
        }
      }
    }
  }

  /** Nothing changes any more once decoding has ended. */
  lemma {:induction false} EndedTaken(length: Option<nat>, parts: seq<string>, k: nat)
    requires 1 <= k <= |parts| && Feed(START, Joined(parts[..k])).status != Going
    ensures Feed(START, Joined(parts[..Used(true, length, parts, k)])) == Feed(START, Joined(parts[..k]))
  {
    var r := Used(true, length, parts, k);
    JoinedRest(parts[..r], k);
    assert parts[..r][..k] == parts[..k];
    FeedAppend(START, Joined(parts[..k]), Joined(parts[..r][k..]));
    FeedEnded(Feed(START, Joined(parts[..k])), Joined(parts[..r][k..]));
  }

  lemma NotAlways(callback: Callback, before: string, data: string)
    requires !callback(before, data)
    ensures !AlwaysTakes(callback)
  {
  }
}
