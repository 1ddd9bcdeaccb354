/** The pure parts of the companion server (backend_server.py): the WAV header written in
    front of each upload, the /upload request handling around the speech and language
    services, the compact JSON of its reply, the reply framing, and the filter for known
    speech-recognition hallucinations. The services themselves are inputs. Texts are the
    UTF-8 bytes of the Python strings. */
module Server {
  import opened Bytes

  // ---------------------------------------------------------------------------------------
  // struct.pack("<I") and ("<H")

  function Pow256(n: nat): (p: nat)
    ensures p > 0
  {
    if n == 0 then 1 else 256 * Pow256(n - 1)
  }

  /** v in n little-endian bytes; struct.pack raises for a value outside 0 .. 256^n - 1. */
  function LittleEndian(v: nat, n: nat): (r: seq<byte>)
    requires v < Pow256(n)
    ensures |r| == n
  {
    if n == 0 then [] else [v % 256] + LittleEndian(v / 256, n - 1)
  }

  function FromLittleEndian(s: seq<byte>): nat
  {
    if s == [] then 0 else s[0] + 256 * FromLittleEndian(s[1..])
  }

  lemma {:induction false} LittleEndianRoundTrip(v: nat, n: nat)
    requires v < Pow256(n)
    ensures FromLittleEndian(LittleEndian(v, n)) == v
  {
    if n > 0 {
      var r := LittleEndian(v, n);
      assert r[1..] == LittleEndian(v / 256, n - 1);
      LittleEndianRoundTrip(v / 256, n - 1);
    }
  }

  predicate FitsU32(v: int) { 0 <= v < 0x1_0000_0000 }
  predicate FitsU16(v: int) { 0 <= v < 0x1_0000 }

  function U32(v: int): (r: seq<byte>)
    requires FitsU32(v)
    ensures |r| == 4
  {
    assert Pow256(4) == 0x1_0000_0000;
    LittleEndian(v, 4)
  }

  function U16(v: int): (r: seq<byte>)
    requires FitsU16(v)
    ensures |r| == 2
  {
    assert Pow256(2) == 0x1_0000;
    LittleEndian(v, 2)
  }

  // ---------------------------------------------------------------------------------------
  // make_wav_header

  /** The header fields are all representable; otherwise struct.pack raises. */
  predicate WavFieldsFit(sampleRate: int, channels: int, numSamples: int)
  {
    var byteRate := sampleRate * channels * 2;
    var dataSize := numSamples * channels * 2;
    FitsU32(36 + dataSize) && FitsU32(sampleRate) && FitsU16(channels) && FitsU32(byteRate)
    && FitsU16(channels * 2) && FitsU32(dataSize)
  }

  /** The RIFF chunk header: tag, the size of what follows, and the WAVE form type. */
  function RiffHeader(riffSize: int): (r: seq<byte>)
    requires FitsU32(riffSize)
    ensures |r| == 12
  {
    Ascii("RIFF") + U32(riffSize) + Ascii("WAVE")
  }

  /** The "fmt " chunk: PCM format tag 1, channels, rate, byte rate, block align, 16 bits. */
  function FmtChunk(channels: int, sampleRate: int, byteRate: int, blockAlign: int): (r: seq<byte>)
    requires FitsU16(channels) && FitsU32(sampleRate) && FitsU32(byteRate) && FitsU16(blockAlign)
    ensures |r| == 24
  {
    (Ascii("fmt ") + U32(16) + U16(1) + U16(channels)) + (U32(sampleRate) + U32(byteRate) + U16(blockAlign) + U16(16))
  }

  /** The "data" chunk header. */
  function DataHeader(dataSize: int): (r: seq<byte>)
    requires FitsU32(dataSize)
    ensures |r| == 8
  {
    Ascii("data") + U32(dataSize)
  }

  /** make_wav_header: a 44-byte RIFF/WAVE header for 16-bit PCM; None when struct.pack
      would raise. */
  function WavHeader(sampleRate: int, channels: int, numSamples: int): (h: Option<seq<byte>>)
    ensures h.Some? <==> WavFieldsFit(sampleRate, channels, numSamples)
    ensures h.Some? ==> |h.value| == 44
  {
    var byteRate := sampleRate * channels * 2;
    var dataSize := numSamples * channels * 2;
    if !WavFieldsFit(sampleRate, channels, numSamples) then None
    else Some(RiffHeader(36 + dataSize) + FmtChunk(channels, sampleRate, byteRate, channels * 2) + DataHeader(dataSize))
  }

  lemma RiffHeaderLayout(riffSize: int)
    requires FitsU32(riffSize)
    ensures var r := RiffHeader(riffSize);
      r[0..4] == Ascii("RIFF") && r[4..8] == U32(riffSize) && r[8..12] == Ascii("WAVE")
  {
  }

  lemma FmtChunkLayout(channels: int, sampleRate: int, byteRate: int, blockAlign: int)
    requires FitsU16(channels) && FitsU32(sampleRate) && FitsU32(byteRate) && FitsU16(blockAlign)
    ensures var r := FmtChunk(channels, sampleRate, byteRate, blockAlign);
      && r[0..4] == Ascii("fmt ") && r[4..8] == U32(16) && r[8..10] == U16(1) && r[10..12] == U16(channels)
      && r[12..16] == U32(sampleRate) && r[16..20] == U32(byteRate) && r[20..22] == U16(blockAlign)
      && r[22..24] == U16(16)
  {
    var p := Ascii("fmt ") + U32(16) + U16(1) + U16(channels);
    var q := U32(sampleRate) + U32(byteRate) + U16(blockAlign) + U16(16);
    var r := p + q;
    assert r[0..12] == p && r[12..24] == q;
  }

  lemma DataHeaderLayout(dataSize: int)
    requires FitsU32(dataSize)
    ensures var r := DataHeader(dataSize);
      r[0..4] == Ascii("data") && r[4..8] == U32(dataSize)
  {
  }

  lemma U32RoundTrip(v: int)
    requires FitsU32(v)
    ensures FromLittleEndian(U32(v)) == v
  {
    assert Pow256(4) == 0x1_0000_0000;
    LittleEndianRoundTrip(v, 4);
  }

  lemma U16RoundTrip(v: int)
    requires FitsU16(v)
    ensures FromLittleEndian(U16(v)) == v
  {
    assert Pow256(2) == 0x1_0000;
    LittleEndianRoundTrip(v, 2);
  }

  /** Where each field sits in the three chunk headers laid end to end. */
  lemma HeaderSlices(riffSize: int, channels: int, sampleRate: int, byteRate: int, blockAlign: int, dataSize: int)
    requires FitsU32(riffSize) && FitsU16(channels) && FitsU32(sampleRate) && FitsU32(byteRate)
    requires FitsU16(blockAlign) && FitsU32(dataSize)
    ensures var h := RiffHeader(riffSize) + FmtChunk(channels, sampleRate, byteRate, blockAlign) + DataHeader(dataSize);
      && h[0..4] == Ascii("RIFF") && h[4..8] == U32(riffSize) && h[8..12] == Ascii("WAVE")
      && h[12..16] == Ascii("fmt ") && h[16..20] == U32(16) && h[20..22] == U16(1)
      && h[22..24] == U16(channels) && h[24..28] == U32(sampleRate)
      && h[28..32] == U32(byteRate) && h[32..34] == U16(blockAlign) && h[34..36] == U16(16)
      && h[36..40] == Ascii("data") && h[40..44] == U32(dataSize)
  {
    var riff := RiffHeader(riffSize);
    var fmt := FmtChunk(channels, sampleRate, byteRate, blockAlign);
    var data := DataHeader(dataSize);
    var h := riff + fmt + data;
    RiffHeaderLayout(riffSize);
    FmtChunkLayout(channels, sampleRate, byteRate, blockAlign);
    DataHeaderLayout(dataSize);
    assert h[0..4] == riff[0..4] && h[4..8] == riff[4..8] && h[8..12] == riff[8..12];
    assert h[12..16] == fmt[0..4] && h[16..20] == fmt[4..8] && h[20..22] == fmt[8..10];
    assert h[22..24] == fmt[10..12] && h[24..28] == fmt[12..16] && h[28..32] == fmt[16..20];
    assert h[32..34] == fmt[20..22] && h[34..36] == fmt[22..24];
    assert h[36..40] == data[0..4] && h[40..44] == data[4..8];
  }

  /** The field values of the three chunk headers laid end to end. */
  lemma HeaderFields(riffSize: int, channels: int, sampleRate: int, byteRate: int, blockAlign: int, dataSize: int)
    requires FitsU32(riffSize) && FitsU16(channels) && FitsU32(sampleRate) && FitsU32(byteRate)
    requires FitsU16(blockAlign) && FitsU32(dataSize)
    ensures var h := RiffHeader(riffSize) + FmtChunk(channels, sampleRate, byteRate, blockAlign) + DataHeader(dataSize);
      && h[0..4] == Ascii("RIFF") && FromLittleEndian(h[4..8]) == riffSize && h[8..12] == Ascii("WAVE")
      && h[12..16] == Ascii("fmt ") && FromLittleEndian(h[16..20]) == 16 && FromLittleEndian(h[20..22]) == 1
      && FromLittleEndian(h[22..24]) == channels && FromLittleEndian(h[24..28]) == sampleRate
      && FromLittleEndian(h[28..32]) == byteRate && FromLittleEndian(h[32..34]) == blockAlign
      && FromLittleEndian(h[34..36]) == 16
      && h[36..40] == Ascii("data") && FromLittleEndian(h[40..44]) == dataSize
  {
    HeaderSlices(riffSize, channels, sampleRate, byteRate, blockAlign, dataSize);
    U32RoundTrip(riffSize);
    U32RoundTrip(16);
    U16RoundTrip(1);
    U16RoundTrip(channels);
    U32RoundTrip(sampleRate);
    U32RoundTrip(byteRate);
    U16RoundTrip(blockAlign);
    U16RoundTrip(16);
    U32RoundTrip(dataSize);
  }

  /** Reading the header back field by field gives the PCM format it describes. */
  lemma WavHeaderLayout(sampleRate: int, channels: int, numSamples: int)
    requires WavFieldsFit(sampleRate, channels, numSamples)
    ensures var h := WavHeader(sampleRate, channels, numSamples).value;
      && h[0..4] == Ascii("RIFF")
      && FromLittleEndian(h[4..8]) == 36 + numSamples * channels * 2
      && h[8..12] == Ascii("WAVE")
      && h[12..16] == Ascii("fmt ")
      && FromLittleEndian(h[16..20]) == 16
      && FromLittleEndian(h[20..22]) == 1
      && FromLittleEndian(h[22..24]) == channels
      && FromLittleEndian(h[24..28]) == sampleRate
      && FromLittleEndian(h[28..32]) == sampleRate * channels * 2
      && FromLittleEndian(h[32..34]) == channels * 2
      && FromLittleEndian(h[34..36]) == 16
      && h[36..40] == Ascii("data")
      && FromLittleEndian(h[40..44]) == numSamples * channels * 2
  {
    HeaderFields(36 + numSamples * channels * 2, channels, sampleRate, sampleRate * channels * 2, channels * 2,
                 numSamples * channels * 2);
  }

  // ---------------------------------------------------------------------------------------
  // json.dumps(..., separators=(",", ":"), ensure_ascii=False) for strings

  /** Lower-case hexadecimal digit. */
  function HexDigit(v: nat): (b: byte)
    requires v < 16
  {
    if v < 10 then 48 + v else 87 + v
  }

  predicate IsHexDigit(b: byte) { 48 <= b <= 57 || 97 <= b <= 102 }

  function HexValue(b: byte): (v: nat)
    requires IsHexDigit(b)
    ensures v < 16 && HexDigit(v) == b
  {
    if b <= 57 then b - 48 else b - 87
  }

  /** The letter of a two-character escape, for the bytes that have one. */
  function ShortEscape(b: byte): Option<byte>
  {
    if b == QUOTE then Some(QUOTE)
    else if b == BACKSLASH then Some(BACKSLASH)
    else if b == 8 then Some(98)
    else if b == 12 then Some(102)
    else if b == LF then Some(110)
    else if b == CR then Some(114)
    else if b == 9 then Some(116)
    else None
  }

  /** The byte a two-character escape stands for. */
  function ShortUnescape(c: byte): Option<byte>
  {
    if c == QUOTE then Some(QUOTE)
    else if c == BACKSLASH then Some(BACKSLASH)
    else if c == 98 then Some(8)
    else if c == 102 then Some(12)
    else if c == 110 then Some(LF)
    else if c == 114 then Some(CR)
    else if c == 116 then Some(9)
    else None
  }

  /** One byte of a string value: quote, backslash and the usual control characters get a
      two-character escape, other control characters \u00xx, everything else is kept. */
  function EscapeByte(b: byte): (r: seq<byte>)
    ensures forall i :: 0 <= i < |r| ==> r[i] >= 32
  {
    match ShortEscape(b)
    case Some(c) => [BACKSLASH, c]
    case None =>
      if b < 32 then [BACKSLASH, 117, 48, 48, HexDigit(b / 16), HexDigit(b % 16)]
      else [b]
  }

  function JsonEscape(t: seq<byte>): seq<byte>
  {
    if t == [] then [] else EscapeByte(t[0]) + JsonEscape(t[1..])
  }

  predicate NoControl(s: seq<byte>)
  {
    forall i :: 0 <= i < |s| ==> s[i] >= 32
  }

  /** An escaped string holds no control byte, so in particular no line break and no NUL. */
  lemma {:induction false} JsonEscapeNoControl(t: seq<byte>)
    ensures NoControl(JsonEscape(t))
  {
    if t != [] {
      JsonEscapeNoControl(t[1..]);
      var e := EscapeByte(t[0]);
      var rest := JsonEscape(t[1..]);
      assert forall i :: |e| <= i < |e| + |rest| ==> (e + rest)[i] == rest[i - |e|];
    }
  }

  function Prepend(b: byte, o: Option<seq<byte>>): Option<seq<byte>>
  {
    match o
    case None => None
    case Some(s) => Some([b] + s)
  }

  /** Decoder for the body of a JSON string, for the escapes the encoder emits; None for a
      raw quote or control byte, or an escape it does not know. */
  function JsonUnescape(s: seq<byte>): Option<seq<byte>>
    decreases |s|
  {
    if s == [] then Some([])
    else if s[0] == QUOTE || s[0] < 32 then None
    else if s[0] != BACKSLASH then Prepend(s[0], JsonUnescape(s[1..]))
    else if |s| < 2 then None
    else if s[1] == 117 then
      if |s| >= 6 && s[2] == 48 && s[3] == 48 && IsHexDigit(s[4]) && IsHexDigit(s[5])
      then Prepend(HexValue(s[4]) * 16 + HexValue(s[5]), JsonUnescape(s[6..]))
      else None
    else
      match ShortUnescape(s[1])
      case None => None
      case Some(b) => Prepend(b, JsonUnescape(s[2..]))
  }

  lemma UnescapeEscapedByte(b: byte, rest: seq<byte>)
    ensures JsonUnescape(EscapeByte(b) + rest) == Prepend(b, JsonUnescape(rest))
  {
    var e := EscapeByte(b);
    var s := e + rest;
    if ShortEscape(b).Some? {
      assert s[2..] == rest;
    } else if b < 32 {
      assert HexValue(HexDigit(b / 16)) == b / 16;
      assert HexValue(HexDigit(b % 16)) == b % 16;
      assert s[6..] == rest;
    } else {
      assert s[1..] == rest;
    }
  }

  /** Decoding undoes the encoder, for every string. */
  lemma {:induction false} JsonEscapeRoundTrip(t: seq<byte>)
    ensures JsonUnescape(JsonEscape(t)) == Some(t)
  {
    if t != [] {
      UnescapeEscapedByte(t[0], JsonEscape(t[1..]));
      JsonEscapeRoundTrip(t[1..]);
      assert [t[0]] + t[1..] == t;
    }
  }

  /** Compact JSON of a string value. */
  function JsonString(t: seq<byte>): seq<byte>
  {
    [QUOTE] + JsonEscape(t) + [QUOTE]
  }

  const REPLY_SAMPLE_RATE_HZ: nat := 24000

  /** The reply object, keys in insertion order: ok, user_text, reply_text, sample_rate. */
  function ReplyJson(userText: seq<byte>, replyText: seq<byte>): seq<byte>
  {
    REPLY_OPEN + JsonString(userText) + REPLY_MIDDLE + JsonString(replyText) + REPLY_CLOSE
  }

  /** The fixed parts of the reply object. */
  const REPLY_OPEN: seq<byte> := Ascii("{\"ok\":true,\"user_text\":")
  const REPLY_MIDDLE: seq<byte> := Ascii(",\"reply_text\":")
  const REPLY_CLOSE: seq<byte> := Ascii(",\"sample_rate\":24000}")

  lemma JsonStringNoControl(t: seq<byte>)
    ensures NoControl(JsonString(t))
  {
    JsonEscapeNoControl(t);
    ConcatNoControl([QUOTE], JsonEscape(t));
    ConcatNoControl([QUOTE] + JsonEscape(t), [QUOTE]);
  }

  lemma LiteralsNoControl()
    ensures NoControl(REPLY_OPEN) && NoControl(REPLY_MIDDLE) && NoControl(REPLY_CLOSE)
  {
  }

  /** The reply JSON holds no control byte, whatever the texts. */
  lemma ReplyJsonNoControl(userText: seq<byte>, replyText: seq<byte>)
    ensures NoControl(ReplyJson(userText, replyText))
  {
    var u := JsonString(userText);
    var r := JsonString(replyText);
    JsonStringNoControl(userText);
    JsonStringNoControl(replyText);
    LiteralsNoControl();
    ConcatNoControl(REPLY_OPEN, u);
    ConcatNoControl(REPLY_OPEN + u, REPLY_MIDDLE);
    ConcatNoControl(REPLY_OPEN + u + REPLY_MIDDLE, r);
    ConcatNoControl(REPLY_OPEN + u + REPLY_MIDDLE + r, REPLY_CLOSE);
  }

  lemma ConcatNoControl(a: seq<byte>, b: seq<byte>)
    requires NoControl(a) && NoControl(b)
    ensures NoControl(a + b)
  {
    assert forall i :: |a| <= i < |a| + |b| ==> (a + b)[i] == b[i - |a|];
  }

  // ---------------------------------------------------------------------------------------
  // /upload

  /** An integer request header: absent, an int() the handler can parse, or one it cannot. */
  datatype IntHeader = Missing | Parsed(v: int) | Unparsable

  /** The handler's outcome: an exception (Flask answers 500), the 400 reply to an empty
      body, or the WAV file it writes and the reply body with its Content-Length. */
  datatype Response =
    | ServerError
    | EmptyBody
    | Reply(wavFile: seq<byte>, body: seq<byte>, contentLength: nat)

  function HeaderOr(h: IntHeader, default: int): Option<int>
  {
    match h
    case Missing => Some(default)
    case Parsed(v) => Some(v)
    case Unparsable => None
  }

  /** Python's `//`, which rounds toward negative infinity. */
  function FloorDiv(a: int, b: int): (q: int)
    requires b != 0
    ensures b > 0 ==> q * b <= a < q * b + b
    ensures b < 0 ==> q * b >= a > q * b + b
  {
    if b > 0 then a / b else (-a) / (-b)
  }

  /** The sample count the handler derives from the body: whole frames of 16-bit samples. */
  function SampleCount(rawLen: nat, channels: int): int
    requires channels != 0
  {
    FloorDiv(rawLen, 2 * channels)
  }

  /** upload(): the header defaults are 48000 Hz and one channel, the format header is only
      logged, and the reply is the compact JSON, a line feed and the speech PCM. `userText`,
      `replyText` and `replyPcm` are what the recogniser, the language model and the speech
      synthesiser return. */
  function HandleUpload(raw: seq<byte>, rateHeader: IntHeader, channelsHeader: IntHeader, format: string,
                        userText: seq<byte>, replyText: seq<byte>, replyPcm: seq<byte>): Response
  {
    var rate := HeaderOr(rateHeader, 48000);
    var channels := HeaderOr(channelsHeader, 1);
    if rate.None? || channels.None? || channels.value == 0 then ServerError
    else
      var n := SampleCount(|raw|, channels.value);
      if n == 0 then EmptyBody
      else
        match WavHeader(rate.value, channels.value, n)
        case None => ServerError
        case Some(h) =>
          // the duration is num_samples / (sample_rate * channels)
          if rate.value == 0 then ServerError
          else
            var body := ReplyJson(userText, replyText) + [LF] + replyPcm;
            Reply(h + raw, body, |body|)
  }

  /** The outcome classes of the handler, the framing of its reply, and that the format
      header plays no part. */
  lemma HandleUploadSpec(raw: seq<byte>, rateHeader: IntHeader, channelsHeader: IntHeader, format: string,
                         format': string, userText: seq<byte>, replyText: seq<byte>, replyPcm: seq<byte>)
    ensures var r := HandleUpload(raw, rateHeader, channelsHeader, format, userText, replyText, replyPcm);
      && r == HandleUpload(raw, rateHeader, channelsHeader, format', userText, replyText, replyPcm)
      && (rateHeader.Unparsable? || channelsHeader.Unparsable? || channelsHeader == Parsed(0) ==> r.ServerError?)
      && (r.EmptyBody? <==>
            !rateHeader.Unparsable? && HeaderOr(channelsHeader, 1).Some? && HeaderOr(channelsHeader, 1).value != 0
            && SampleCount(|raw|, HeaderOr(channelsHeader, 1).value) == 0)
      && (r.Reply? ==>
            var json := ReplyJson(userText, replyText);
            && r.contentLength == |r.body|
            && Find(r.body, [LF]) == Some(|json|)
            && r.body[..|json|] == json && r.body[|json| + 1..] == replyPcm
            && |r.wavFile| == 44 + |raw| && r.wavFile[44..] == raw)
  {
    var r := HandleUpload(raw, rateHeader, channelsHeader, format, userText, replyText, replyPcm);
    if r.Reply? {
      var json := ReplyJson(userText, replyText);
      ReplyJsonNoControl(userText, replyText);
      FirstLineBreak(json, replyPcm);
      assert r.body[..|json|] == json;
      assert r.body[|json| + 1..] == replyPcm;
    }
  }

  /** In json ++ "\n" ++ pcm with a control-free JSON, the first line feed ends the JSON. */
  lemma FirstLineBreak(json: seq<byte>, pcm: seq<byte>)
    requires NoControl(json)
    ensures Find(json + [LF] + pcm, [LF]) == Some(|json|)
  {
    var body := json + [LF] + pcm;
    assert OccursAt(body, [LF], |json|) by {
      assert body[|json|..|json| + 1] == [LF];
    }
    forall j | 0 <= j < |json|
      ensures !OccursAt(body, [LF], j)
    {
      assert body[j] == json[j];
    }
  }

  /** With one channel the handler counts exactly the 16-bit samples the device sent, and the
      WAV header's data size covers them. */
  lemma MonoSampleCount(samples: nat)
    ensures SampleCount(2 * samples, 1) == samples
    ensures samples > 0 && samples * 2 + 36 < 0x1_0000_0000 ==>
      WavHeader(16000, 1, samples).Some? && FromLittleEndian(WavHeader(16000, 1, samples).value[40..44]) == 2 * samples
  {
    if samples > 0 && samples * 2 + 36 < 0x1_0000_0000 {
      WavHeaderLayout(16000, 1, samples);
    }
  }

  // ---------------------------------------------------------------------------------------
  // The hallucination filter

  const STT_HALLUCINATION_PHRASES: seq<string> := [
    "subs by",
    "zeoranger",
    "thank you for watching",
    "subscribe",
    "you can't ask me that",
    "hey, you can't ask me that",
    "i can't help with that",
    "as an ai",
    "as a language model"
  ]

  function AsciiLowerChar(c: char): char
  {
    if 'A' <= c <= 'Z' then (c as int + 32) as char else c
  }

  function AsciiLower(s: string): (r: string)
    ensures |r| == |s|
    ensures forall i :: 0 <= i < |s| ==> r[i] == AsciiLowerChar(s[i])
  {
    seq(|s|, i requires 0 <= i < |s| => AsciiLowerChar(s[i]))
  }

  /** any(phrase in lower for phrase in phrases). */
  function AnyPhraseIn(phrases: seq<string>, lower: string): bool
  {
    if phrases == [] then false
    else Contains(lower, phrases[0]) || AnyPhraseIn(phrases[1..], lower)
  }

  predicate Hallucinated(text: string)
  {
    exists i :: 0 <= i < |STT_HALLUCINATION_PHRASES| && Contains(AsciiLower(text), STT_HALLUCINATION_PHRASES[i])
  }

  lemma {:induction false} AnyPhraseInSpec(phrases: seq<string>, lower: string)
    ensures AnyPhraseIn(phrases, lower) <==> exists i :: 0 <= i < |phrases| && Contains(lower, phrases[i])
  {
    if phrases != [] {
      AnyPhraseInSpec(phrases[1..], lower);
      if exists i :: 0 <= i < |phrases| && Contains(lower, phrases[i]) {
        var i :| 0 <= i < |phrases| && Contains(lower, phrases[i]);
        if i > 0 {
          assert phrases[1..][i - 1] == phrases[i];
        }
      }
      if AnyPhraseIn(phrases[1..], lower) {
        var i :| 0 <= i < |phrases[1..]| && Contains(lower, phrases[1..][i]);
        assert phrases[i + 1] == phrases[1..][i];
      }
    }
  }

  /** The recogniser's text, or the empty string when it contains a listed phrase. */
  function SttFilter(text: string): (r: string)
  {
    if AnyPhraseIn(STT_HALLUCINATION_PHRASES, AsciiLower(text)) then "" else text
  }

  /** The filter empties exactly the texts that contain a listed phrase, ignoring case, and
      applying it twice changes nothing. */
  lemma SttFilterSpec(text: string)
    ensures Hallucinated(text) ==> SttFilter(text) == ""
    ensures !Hallucinated(text) ==> SttFilter(text) == text
    ensures SttFilter(SttFilter(text)) == SttFilter(text)
  {
    AnyPhraseInSpec(STT_HALLUCINATION_PHRASES, AsciiLower(text));
    if Hallucinated(text) {
      AnyPhraseInSpec(STT_HALLUCINATION_PHRASES, AsciiLower(""));
      assert AsciiLower("") == "";
    }
  }
}
