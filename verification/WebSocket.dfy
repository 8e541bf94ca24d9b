/** Lines of text as WebSocket frames: the header fb_websocket_encode writes, and the frames a client
    reads by section 5.2 of RFC 6455 (src/libfootball/fb_http.c:642-721). */
module WebSocket {
  import opened Basics
  import opened Messages

  const NEWLINE: byte := 10

  // ---------------------------------------------------------------- writing frames

  /** The base-256 digit of `n` worth `unit`. */
  function Digit(n: nat, unit: nat): byte
    requires unit > 0
  {
    (n / unit % 256) as byte
  }

  /** The payload length as the encoder writes it: only 32 bits of the 64-bit form are filled in. */
  function LengthField(n: nat): seq<byte> {
    if n <= 125 then [n as byte]
    else if n <= 0xffff then [126, Digit(n, 256), Digit(n, 1)]
    else [127, 0, 0, 0, 0, Digit(n, 0x100_0000), Digit(n, 0x1_0000), Digit(n, 256), Digit(n, 1)]
  }

  /** A final, unmasked text frame. */
  function Frame(payload: seq<byte>): seq<byte> {
    [0x81] + LengthField(|payload|) + payload
  }

  function Frames(payloads: seq<seq<byte>>): seq<byte> {
    if payloads == [] then [] else Frame(payloads[0]) + Frames(payloads[1..])
  }

  lemma {:induction false} FramesAppend(a: seq<seq<byte>>, b: seq<seq<byte>>)
    ensures Frames(a + b) == Frames(a) + Frames(b)
  {
    if a == [] {
      assert a + b == b;
    } else {
      assert (a + b)[1..] == a[1..] + b;
      FramesAppend(a[1..], b);
    }
  }

  // ---------------------------------------------------------------- reading frames, by the RFC

  datatype Parsed = Parsed(payload: seq<byte>, rest: seq<byte>) | Malformed

  function BigEndian(digits: seq<byte>): nat {
    if digits == [] then 0 else BigEndian(digits[..|digits| - 1]) * 256 + digits[|digits| - 1] as nat
  }

  /** How many bytes the extended payload length takes, by the 7-bit length. */
  function ExtendedBytes(length7: byte): nat {
    if length7 == 126 then 2 else if length7 == 127 then 8 else 0
  }

  /** One unmasked, final text frame off the front. The length must be in its shortest form, and the
      64-bit form must have its top bit clear. */
  function Unframe(s: seq<byte>): Parsed {
    if |s| < 2 || s[0] != 0x81 || s[1] >= 128 then Malformed
    else
      var ext := ExtendedBytes(s[1]);
      if |s| < 2 + ext then Malformed
      else
        var length := if ext == 0 then s[1] as nat else BigEndian(s[2..2 + ext]);
        if || (ext == 2 && length < 126) || (ext == 8 && (length < 0x1_0000 || s[2] >= 128))
           || |s| < 2 + ext + length then Malformed
        else Parsed(s[2 + ext..2 + ext + length], s[2 + ext + length..])
  }

  /** All the payloads of a byte stream that is whole frames. */
  function UnframeAll(s: seq<byte>): Option<seq<seq<byte>>>
    decreases |s|
  {
    if s == [] then Some([])
    else
      match Unframe(s)
      case Malformed => None
      case Parsed(payload, rest) =>
        if |rest| >= |s| then None
        else
          match UnframeAll(rest)
          case None => None
          case Some(payloads) => Some([payload] + payloads)
  }

  lemma BigEndian2(a: byte, b: byte)
    ensures BigEndian([a, b]) == a as nat * 256 + b as nat
  {
    assert [a, b][..1] == [a] && [a][..0] == [];
    assert BigEndian([a]) == a as nat;
  }

  lemma BigEndian8(d: seq<byte>)
    requires |d| == 8 && d[..4] == [0, 0, 0, 0]
    ensures BigEndian(d) == ((d[4] as nat * 256 + d[5] as nat) * 256 + d[6] as nat) * 256 + d[7] as nat
  {
    assert d[..4][..3] == [0, 0, 0] && [0, 0, 0 as byte][..2] == [0, 0] && [0, 0 as byte][..1] == [0] && [0 as byte][..0] == [];
    assert BigEndian([0]) == 0 && BigEndian([0, 0]) == 0 && BigEndian([0, 0, 0]) == 0 && BigEndian(d[..4]) == 0;
    assert d[..8] == d && d[..7][..6] == d[..6] && d[..6][..5] == d[..5] && d[..5][..4] == d[..4];
    assert BigEndian(d[..5]) == d[4] as nat;
    assert BigEndian(d[..6]) == d[4] as nat * 256 + d[5] as nat;
    assert BigEndian(d[..7]) == (d[4] as nat * 256 + d[5] as nat) * 256 + d[6] as nat;
  }

  lemma Digits32(n: nat)
    ensures ((Digit(n, 0x100_0000) as nat * 256 + Digit(n, 0x1_0000) as nat) * 256 + Digit(n, 256) as nat) * 256
            + Digit(n, 1) as nat == n % 0x1_0000_0000
  {
    var a := n / 256;
    var b := n / 0x1_0000;
    var c := n / 0x100_0000;
    assert a / 256 == b && b / 256 == c;
    assert n == 256 * a + n % 256 && a == 256 * b + a % 256 && b == 256 * c + b % 256;
    assert c == 256 * (c / 256) + c % 256;
    assert c / 256 == n / 0x1_0000_0000;
  }

  lemma ShortFrameReads(payload: seq<byte>, rest: seq<byte>)
    requires |payload| <= 125
    ensures Unframe(Frame(payload) + rest) == Parsed(payload, rest)
  {
    var s := Frame(payload) + rest;
    assert s[2..2 + |payload|] == payload && s[2 + |payload|..] == rest;
  }

  lemma MediumFrameReads(payload: seq<byte>, rest: seq<byte>)
    requires 126 <= |payload| <= 0xffff
    ensures Unframe(Frame(payload) + rest) == Parsed(payload, rest)
  {
    var s := Frame(payload) + rest;
    var n := |payload|;
    BigEndian2(Digit(n, 256), Digit(n, 1));
    assert s[2..4] == [Digit(n, 256), Digit(n, 1)];
    assert BigEndian(s[2..4]) == n;
    assert s[4..4 + n] == payload && s[4 + n..] == rest;
  }

  function LongLength(n: nat): seq<byte> {
    [0, 0, 0, 0, Digit(n, 0x100_0000), Digit(n, 0x1_0000), Digit(n, 256), Digit(n, 1)]
  }

  lemma LongLengthReads(n: nat)
    ensures |LongLength(n)| == 8 && BigEndian(LongLength(n)) == n % 0x1_0000_0000
  {
    BigEndian8(LongLength(n));
    Digits32(n);
  }

  lemma LongFrameReads(payload: seq<byte>, rest: seq<byte>)
    requires 0x1_0000 <= |payload| < 0x1_0000_0000
    ensures Unframe(Frame(payload) + rest) == Parsed(payload, rest)
  {
    hide BigEndian;
    var s := Frame(payload) + rest;
    var n := |payload|;
    LongLengthReads(n);
    assert s[2..10] == LongLength(n);
    assert s[10..10 + n] == payload && s[10 + n..] == rest;
  }

  /** A frame followed by anything reads back as its payload, if the length fits in the 32 bits the
      encoder writes. */
  lemma FrameReads(payload: seq<byte>, rest: seq<byte>)
    requires |payload| < 0x1_0000_0000
    ensures Unframe(Frame(payload) + rest) == Parsed(payload, rest)
  {
    if |payload| <= 125 {
      ShortFrameReads(payload, rest);
    } else if |payload| <= 0xffff {
      MediumFrameReads(payload, rest);
    } else {
      LongFrameReads(payload, rest);
    }
  }

  /** A longer payload does not read back: what is read, if anything, is shorter. */
  lemma HugeFrameMisreads(payload: seq<byte>, rest: seq<byte>)
    requires |payload| >= 0x1_0000_0000
    ensures Unframe(Frame(payload) + rest).Parsed? ==> |Unframe(Frame(payload) + rest).payload| < |payload|
  {
    hide BigEndian;
    var s := Frame(payload) + rest;
    LongLengthReads(|payload|);
    assert s[2..10] == LongLength(|payload|);
  }

  /** A list of frames reads back as their payloads exactly when every payload is below 2^32 bytes. */
  lemma {:induction false} FramesReadBack(payloads: seq<seq<byte>>)
    ensures UnframeAll(Frames(payloads)) == Some(payloads) <==> forall p :: p in payloads ==> |p| < 0x1_0000_0000
  {
    if payloads != [] {
      hide Unframe, LengthField;
      var p, others := payloads[0], payloads[1..];
      var s := Frames(payloads);
      assert payloads == [p] + others;
      FramesReadBack(others);
      if |p| < 0x1_0000_0000 {
        FrameReads(p, Frames(others));
        var r := UnframeAll(Frames(others));
        if r.Some? {
          assert UnframeAll(s) == Some([p] + r.value);
          assert ([p] + r.value)[1..] == r.value;
        }
      } else {
        HugeFrameMisreads(p, Frames(others));
        assert UnframeAll(s).Some? ==> UnframeAll(s).value[0] == Unframe(s).payload;
      }
    }
  }

  // ---------------------------------------------------------------- lines

  /** The index of the first newline, or the length of the text. */
  function LineEnd(text: seq<byte>): (r: nat)
    ensures r <= |text|
    ensures NEWLINE !in text[..r]
    ensures r < |text| ==> text[r] == NEWLINE
  {
    if text == [] || text[0] == NEWLINE then 0 else
      var r := 1 + LineEnd(text[1..]);
      assert text[..r] == [text[0]] + text[1..][..r - 1];
      r
  }

  /** The lines of a text that end in a newline, without it. */
  function Lines(text: seq<byte>): seq<seq<byte>>
    decreases |text|
  {
    var end := LineEnd(text);
    if end == |text| then [] else [text[..end]] + Lines(text[end + 1..])
  }

  /** What comes after the last newline. */
  function Tail(text: seq<byte>): (r: seq<byte>)
    ensures NEWLINE !in r && |r| <= |text|
    decreases |text|
  {
    var end := LineEnd(text);
    if end == |text| then text else Tail(text[end + 1..])
  }

  lemma LineEndIs(text: seq<byte>, end: nat)
    requires end <= |text| && NEWLINE !in text[..end] && (end < |text| ==> text[end] == NEWLINE)
    ensures LineEnd(text) == end
  {
    var r := LineEnd(text);
    assert forall i :: 0 <= i < end ==> text[..end][i] == text[i];
    assert forall i :: 0 <= i < r ==> text[..r][i] == text[i];
  }

  /** The first line apart from the rest. */
  lemma FirstLine(text: seq<byte>)
    ensures var end := LineEnd(text);
            if end == |text| then Lines(text) == [] && Tail(text) == text
            else Lines(text) == [text[..end]] + Lines(text[end + 1..]) && Tail(text) == Tail(text[end + 1..])
  {
    hide LineEnd;
    FirstOfLines(text);
    hide Lines;
  }

  lemma FirstOfLines(text: seq<byte>)
    ensures var end := LineEnd(text);
            Lines(text) == if end == |text| then [] else [text[..end]] + Lines(text[end + 1..])
  {
    hide LineEnd, Tail;
  }

  /** More text only adds to the unfinished line. */
  lemma {:induction false} LinesAppend(text: seq<byte>, more: seq<byte>)
    ensures Lines(text + more) == Lines(text) + Lines(Tail(text) + more)
    ensures Tail(text + more) == Tail(Tail(text) + more)
    decreases |text|
  {
    hide Lines, Tail;
    var end := LineEnd(text);
    FirstLine(text);
    if end == |text| {
      assert [] + Lines(text + more) == Lines(text + more);
    } else {
      var all := text + more;
      FirstLine(all);
      assert all[..end] == text[..end];
      LineEndIs(all, end);
      assert all[end + 1..] == text[end + 1..] + more;
      LinesAppend(text[end + 1..], more);
    }
  }

  /** A text is its lines, each with a newline, and its tail. */
  function Unlines(lines: seq<seq<byte>>): seq<byte> {
    if lines == [] then [] else lines[0] + [NEWLINE] + Unlines(lines[1..])
  }

  lemma {:induction false} LinesPartition(text: seq<byte>)
    ensures Unlines(Lines(text)) + Tail(text) == text
    ensures forall l :: l in Lines(text) ==> NEWLINE !in l
    decreases |text|
  {
    var end := LineEnd(text);
    if end < |text| {
      LinesPartition(text[end + 1..]);
      assert text == text[..end] + [NEWLINE] + text[end + 1..];
    }
  }
}
