/** The device side of the /upload exchange (main/backend.c): the reply splitter and its
    substring-based field extraction, the bounded body read loop, backend_send_pcm, the
    reply getters and the response logger of the health-check request. */
module Backend {
  import opened Bytes

  const UPLOAD_BODY_BUF_SIZE: nat := 262144
  /** Only this many leading bytes are searched for the line terminator. */
  const SPLIT_WINDOW: nat := 4096
  const REPLY_TEXT_MAX: nat := 192
  const DEFAULT_REPLY_RATE_HZ: nat := 16000
  const RESP_BUF_SIZE: nat := 256
  const UPLOAD_URL_MAX: nat := 128
  const MAX_EMPTY_READ_RETRIES: nat := 5
  /** Zero-length reads are retried only while the body is shorter than this. */
  const SMALL_BODY_BYTES: nat := 512

  const USER_TEXT_KEY: seq<byte> := Ascii("\"user_text\":\"")
  const TEXT_KEY: seq<byte> := Ascii("\"text\":\"")
  const REPLY_TEXT_KEY: seq<byte> := Ascii("\"reply_text\":\"")
  const SAMPLE_RATE_KEY: seq<byte> := Ascii("\"sample_rate\":")

  /** The offsets the parser adds to a key's position before copying its value. For the three
      text keys this is one more than the key's length, so the value's first byte is skipped. */
  const USER_TEXT_SKIP: nat := 14
  const TEXT_SKIP: nat := 9
  const REPLY_TEXT_SKIP: nat := 15
  const SAMPLE_RATE_SKIP: nat := 14

  // ---------------------------------------------------------------------------------------
  // Splitting the body into a JSON prefix and trailing PCM

  /** Index of the first '\n' or '\r' in buf[from..limit], or limit when there is none. */
  function TerminatorFrom(buf: seq<byte>, from: nat, limit: nat): (i: nat)
    requires from <= limit <= |buf|
    ensures from <= i <= limit
    ensures forall j :: from <= j < i ==> buf[j] != LF && buf[j] != CR
    ensures i < limit ==> buf[i] == LF || buf[i] == CR
    decreases limit - from
  {
    if from == limit || buf[from] == LF || buf[from] == CR then from
    else TerminatorFrom(buf, from + 1, limit)
  }

  function SearchLimit(len: nat): nat { Min(len, SPLIT_WINDOW) }

  /** Where the JSON ends: the first line terminator inside the search window, or the limit. */
  function SplitIndex(buf: seq<byte>, len: nat): nat
    requires len <= |buf|
  {
    TerminatorFrom(buf, 0, SearchLimit(len))
  }

  predicate HasTerminator(buf: seq<byte>, len: nat)
    requires len <= |buf|
  {
    SplitIndex(buf, len) < SearchLimit(len)
  }

  /** First byte of the reply PCM: after "\n", "\r" or "\r\n"; len when there is no terminator. */
  function PcmStart(buf: seq<byte>, len: nat): (p: nat)
    requires len <= |buf|
    ensures p <= len
  {
    var i := SplitIndex(buf, len);
    if i < SearchLimit(len) then
      if buf[i] == CR && i + 1 < len && buf[i + 1] == LF then i + 2 else i + 1
    else len
  }

  /** Where the parser writes the terminating NUL of the JSON text. */
  function NulIndex(buf: seq<byte>, len: nat): (k: nat)
    requires |buf| == UPLOAD_BODY_BUF_SIZE && len <= |buf|
    ensures k < |buf|
  {
    var i := SplitIndex(buf, len);
    if i < SearchLimit(len) then i
    else if len < UPLOAD_BODY_BUF_SIZE then len
    else UPLOAD_BODY_BUF_SIZE - 1
  }

  /** The body buffer once the NUL is written in place. */
  function Terminated(buf: seq<byte>, len: nat): seq<byte>
    requires |buf| == UPLOAD_BODY_BUF_SIZE && len <= |buf|
  {
    buf[NulIndex(buf, len) := NUL]
  }

  /** The JSON text the parser searches: the C string at the start of the terminated buffer. */
  function JsonText(buf: seq<byte>, len: nat): seq<byte>
    requires |buf| == UPLOAD_BODY_BUF_SIZE && len <= |buf|
  {
    CStr(Terminated(buf, len))
  }

  /** The JSON text never extends past the terminator, nor past the received bytes. */
  lemma JsonTextBounds(buf: seq<byte>, len: nat)
    requires |buf| == UPLOAD_BODY_BUF_SIZE && 0 < len <= |buf|
    ensures |JsonText(buf, len)| <= NulIndex(buf, len)
    ensures JsonText(buf, len) == CStr(buf[..NulIndex(buf, len)])
    ensures HasTerminator(buf, len) ==> |JsonText(buf, len)| <= SplitIndex(buf, len) < PcmStart(buf, len)
  {
    var t := Terminated(buf, len);
    var k := NulIndex(buf, len);
    StrLenBound(t, k);
    CStrOfPrefix(t, k);
    assert t[..k] == buf[..k];
  }

  // ---------------------------------------------------------------------------------------
  // Field extraction

  /** The copy loop for a quoted value: from index q at most `room` bytes are produced;
      backslash-quote becomes a quote, and copying stops at an unescaped quote or at a NUL.
      Reading past the end of the buffer reads a NUL. */
  function Unescape(buf: seq<byte>, q: nat, room: nat): (r: seq<byte>)
    ensures |r| <= room
    ensures NoNul(r)
    decreases room
  {
    if room == 0 || At(buf, q) == NUL then []
    else if At(buf, q) == BACKSLASH && At(buf, q + 1) == QUOTE then [QUOTE] + Unescape(buf, q + 2, room - 1)
    else if At(buf, q) == QUOTE then []
    else [At(buf, q)] + Unescape(buf, q + 1, room - 1)
  }

  /** A text value as the fixed 192-byte reply slots receive it. */
  function ExtractValue(buf: seq<byte>, q: nat): seq<byte>
  {
    Unescape(buf, q, REPLY_TEXT_MAX - 1)
  }

  /** The quoting the device undoes: every quote preceded by a backslash. */
  function QuoteEscaped(t: seq<byte>): seq<byte>
  {
    if t == [] then []
    else if t[0] == QUOTE then [BACKSLASH, QUOTE] + QuoteEscaped(t[1..])
    else [t[0]] + QuoteEscaped(t[1..])
  }

  predicate NoBackslash(t: seq<byte>)
  {
    forall i :: 0 <= i < |t| ==> t[i] != BACKSLASH
  }

  /** A value quoted with QuoteEscaped and closed by a quote is recovered by the copy loop,
      cut to the room available. */
  lemma {:induction false} UnescapeQuoted(t: seq<byte>, pre: seq<byte>, rest: seq<byte>, room: nat)
    requires NoNul(t) && NoBackslash(t)
    ensures Unescape(pre + QuoteEscaped(t) + [QUOTE] + rest, |pre|, room) == t[..Min(|t|, room)]
  {
    var buf := pre + QuoteEscaped(t) + [QUOTE] + rest;
    if t == [] {
      assert At(buf, |pre|) == QUOTE;
    } else if room == 0 {
    } else {
      var head := if t[0] == QUOTE then [BACKSLASH, QUOTE] else [t[0]];
      var pre' := pre + head;
      assert QuoteEscaped(t) == head + QuoteEscaped(t[1..]);
      assert buf == pre' + QuoteEscaped(t[1..]) + [QUOTE] + rest by {
        AppendAssoc(pre, head, QuoteEscaped(t[1..]));
      }
      assert buf[|pre|] == head[0] && (t[0] == QUOTE ==> buf[|pre| + 1] == QUOTE);
      assert Unescape(buf, |pre|, room) == [t[0]] + Unescape(buf, |pre'|, room - 1);
      UnescapeQuoted(t[1..], pre', rest, room - 1);
      assert t[..Min(|t|, room)] == [t[0]] + t[1..][..Min(|t| - 1, room - 1)];
    }
  }

  /** strstr for "user_text":"; failing that, for "text":". The position is where copying starts. */
  function UserTextStart(js: seq<byte>): (r: Option<nat>)
    ensures r.Some? ==> r.value <= |js| + 1
  {
    match Find(js, USER_TEXT_KEY)
    case Some(k) => Some(k + USER_TEXT_SKIP)
    case None =>
      match Find(js, TEXT_KEY)
      case Some(k) => Some(k + TEXT_SKIP)
      case None => None
  }

  function ReplyTextStart(js: seq<byte>): (r: Option<nat>)
    ensures r.Some? ==> r.value <= |js| + 1
  {
    match Find(js, REPLY_TEXT_KEY)
    case Some(k) => Some(k + REPLY_TEXT_SKIP)
    case None => None
  }

  /** The sample rate the reply announces, or the default when the key or the number is missing. */
  function AnnouncedRate(js: seq<byte>): (r: nat)
    ensures r < UINT32_LIMIT
  {
    match Find(js, SAMPLE_RATE_KEY)
    case None => DEFAULT_REPLY_RATE_HZ
    case Some(k) =>
      match ScanUnsigned(js[k + SAMPLE_RATE_SKIP..])
      case None => DEFAULT_REPLY_RATE_HZ
      case Some(v) => v
  }

  /** The success test: three substrings anywhere in the JSON text. */
  predicate ResponseOk(js: seq<byte>)
  {
    Contains(js, Ascii("ok")) && Contains(js, Ascii("true")) && Contains(js, Ascii("reply_text"))
  }

  /** What parse_upload_response_body makes of a received body. The texts are None when their
      key is missing, in which case the slot keeps its previous content. */
  datatype Reply = Reply(ok: bool, pcm: Option<nat>, samples: nat, rateHz: nat,
                         userText: Option<seq<byte>>, replyText: Option<seq<byte>>)

  function Parse(buf: seq<byte>, len: nat): Reply
    requires |buf| == UPLOAD_BODY_BUF_SIZE && len <= |buf|
  {
    var t := Terminated(buf, len);
    var js := CStr(t);
    var start := PcmStart(buf, len);
    var pcm := if start < len then Some(start) else None;
    var ut := UserTextStart(js);
    var rt := ReplyTextStart(js);
    Reply(ResponseOk(js),
          pcm,
          if start < len then (len - start) / 2 else 0,
          if pcm.Some? then AnnouncedRate(js) else DEFAULT_REPLY_RATE_HZ,
          if ut.Some? then Some(ExtractValue(t, ut.value)) else None,
          if rt.Some? then Some(ExtractValue(t, rt.value)) else None)
  }

  /** The reply PCM, when present, lies inside the received bytes, after the JSON; it is absent
      exactly when no terminator was found in the window or nothing follows it. */
  lemma ParseSplitsBody(buf: seq<byte>, len: nat)
    requires |buf| == UPLOAD_BODY_BUF_SIZE && 0 < len <= |buf|
    ensures var r := Parse(buf, len);
      && (r.pcm.Some? <==> HasTerminator(buf, len) && PcmStart(buf, len) < len)
      && (r.pcm.Some? ==> |JsonText(buf, len)| < r.pcm.value && r.pcm.value + 2 * r.samples <= len)
      && (r.pcm.None? ==> r.samples == 0 && r.rateHz == DEFAULT_REPLY_RATE_HZ)
  {
    JsonTextBounds(buf, len);
  }

  // ---------------------------------------------------------------------------------------
  // The body read loop

  /** One esp_http_client_read result: the bytes delivered (none for a zero return) or an error. */
  datatype ReadResult = Got(data: seq<byte>) | ReadFailed

  /** The HTTP client as an oracle of read results; once they run out, reads return 0. */
  function ReadAt(results: seq<ReadResult>, k: nat): ReadResult
  {
    if k < |results| then results[k] else Got([])
  }

  /** The bytes the read loop accumulates: positive reads append (never past the buffer),
      a zero read is retried while 0 < received < 512 and fewer than five retries in a row
      were spent, anything else ends the body. */
  function Receive(results: seq<ReadResult>, k: nat, got: seq<byte>, retries: nat): (r: seq<byte>)
    requires |got| <= UPLOAD_BODY_BUF_SIZE && retries <= MAX_EMPTY_READ_RETRIES
    ensures got <= r && |r| <= UPLOAD_BODY_BUF_SIZE
    decreases UPLOAD_BODY_BUF_SIZE - |got|, MAX_EMPTY_READ_RETRIES - retries
  {
    if |got| == UPLOAD_BODY_BUF_SIZE then got
    else
      match ReadAt(results, k)
      case Got(data) =>
        if |data| > 0 then
          Receive(results, k + 1, got + data[..Min(|data|, UPLOAD_BODY_BUF_SIZE - |got|)], 0)
        else if 0 < |got| < SMALL_BODY_BYTES && retries < MAX_EMPTY_READ_RETRIES then
          Receive(results, k + 1, got, retries + 1)
        else got
      case ReadFailed => got
  }

  function Concat(results: seq<ReadResult>): seq<byte>
  {
    if results == [] then []
    else (if results[0].Got? then results[0].data else []) + Concat(results[1..])
  }

  predicate AllNonEmpty(results: seq<ReadResult>)
  {
    forall i :: 0 <= i < |results| ==> results[i].Got? && |results[i].data| > 0
  }

  /** A body that arrives in non-empty pieces and fits the buffer is received whole. */
  lemma {:induction false} ReceiveWhole(results: seq<ReadResult>, k: nat, got: seq<byte>)
    requires k <= |results| && AllNonEmpty(results)
    requires |got| + |Concat(results[k..])| <= UPLOAD_BODY_BUF_SIZE
    ensures |got| + |Concat(results[k..])| < UPLOAD_BODY_BUF_SIZE ==>
              Receive(results, k, got, 0) == Receive(results, |results|, got + Concat(results[k..]), 0)
    ensures |got| + |Concat(results[k..])| == UPLOAD_BODY_BUF_SIZE ==>
              Receive(results, k, got, 0) == got + Concat(results[k..])
    decreases |results| - k
  {
    if k == |results| {
      assert got + Concat(results[k..]) == got;
    } else {
      var d := results[k].data;
      assert results[k..] == [results[k]] + results[k + 1..];
      assert Concat(results[k..]) == d + Concat(results[k + 1..]);
      assert d[..Min(|d|, UPLOAD_BODY_BUF_SIZE - |got|)] == d;
      ReceiveWhole(results, k + 1, got + d);
      assert got + d + Concat(results[k + 1..]) == got + Concat(results[k..]);
    }
  }

  /** Six zero-length reads in a row end the body, whatever follows them. */
  lemma SixEmptyReadsEndBody(results: seq<ReadResult>, k: nat, got: seq<byte>)
    requires |got| <= UPLOAD_BODY_BUF_SIZE
    requires forall j :: k <= j < k + 6 ==> ReadAt(results, j) == Got([])
    ensures Receive(results, k, got, 0) == got
  {
    if 0 < |got| < SMALL_BODY_BYTES {
      assert ReadAt(results, k + 5) == Got([]);
      assert Receive(results, k + 5, got, 5) == got;
      assert ReadAt(results, k + 4) == Got([]);
      assert Receive(results, k + 4, got, 4) == got;
      assert ReadAt(results, k + 3) == Got([]);
      assert Receive(results, k + 3, got, 3) == got;
      assert ReadAt(results, k + 2) == Got([]);
      assert Receive(results, k + 2, got, 2) == got;
      assert ReadAt(results, k + 1) == Got([]);
      assert Receive(results, k + 1, got, 1) == got;
    }
    assert ReadAt(results, k) == Got([]);
  }

  /** Five zero-length reads in a row are tolerated on a short non-empty body. */
  lemma FiveEmptyReadsTolerated(results: seq<ReadResult>, k: nat, got: seq<byte>)
    requires 0 < |got| < SMALL_BODY_BYTES
    requires forall j :: k <= j < k + 5 ==> ReadAt(results, j) == Got([])
    ensures Receive(results, k, got, 0) == Receive(results, k + 5, got, 5)
  {
    assert ReadAt(results, k + 4) == Got([]);
    assert Receive(results, k + 4, got, 4) == Receive(results, k + 5, got, 5);
    assert ReadAt(results, k + 3) == Got([]);
    assert Receive(results, k + 3, got, 3) == Receive(results, k + 4, got, 4);
    assert ReadAt(results, k + 2) == Got([]);
    assert Receive(results, k + 2, got, 2) == Receive(results, k + 3, got, 3);
    assert ReadAt(results, k + 1) == Got([]);
    assert Receive(results, k + 1, got, 1) == Receive(results, k + 2, got, 2);
    assert ReadAt(results, k) == Got([]);
  }

  /** An empty or already long body is never waited for. */
  lemma EmptyReadEndsUnlessShort(results: seq<ReadResult>, k: nat, got: seq<byte>, retries: nat)
    requires |got| <= UPLOAD_BODY_BUF_SIZE && retries <= MAX_EMPTY_READ_RETRIES
    requires ReadAt(results, k) == Got([])
    requires |got| == 0 || |got| >= SMALL_BODY_BYTES
    ensures Receive(results, k, got, retries) == got
  {
  }

  // ---------------------------------------------------------------------------------------
  // The request

  /** The upload URL: a trailing "/chat" of the configured URL is replaced by "/upload",
      otherwise "/upload" is appended; snprintf keeps at most 127 bytes. */
  function UploadUrl(base: seq<byte>): (url: seq<byte>)
    ensures |url| < UPLOAD_URL_MAX
  {
    var full := if |base| >= 5 && base[|base| - 5..] == Ascii("/chat")
                then base[..|base| - 5] + Ascii("/upload")
                else base + Ascii("/upload");
    full[..Min(|full|, UPLOAD_URL_MAX - 1)]
  }

  const DEFAULT_BACKEND_URL: seq<byte> := Ascii("http://192.168.4.1:5000/chat")

  lemma DefaultUploadUrl()
    ensures UploadUrl(DEFAULT_BACKEND_URL) == Ascii("http://192.168.4.1:5000/upload")
  {
    var base := DEFAULT_BACKEND_URL;
    assert base[|base| - 5..] == Ascii("/chat");
    assert base[..|base| - 5] + Ascii("/upload") == Ascii("http://192.168.4.1:5000/upload");
  }

  datatype Header = Header(name: seq<byte>, value: seq<byte>)

  datatype UploadRequest = UploadRequest(url: seq<byte>, headers: seq<Header>, body: seq<byte>)

  function UploadHeaders(rateHz: nat): seq<Header>
  {
    [Header(Ascii("Content-Type"), Ascii("application/octet-stream")),
     Header(Ascii("X-Sample-Rate"), Decimal(rateHz)),
     Header(Ascii("X-Channels"), Ascii("1")),
     Header(Ascii("X-Format"), Ascii("pcm16"))]
  }

  /** What the HTTP client reports at each step of the exchange. */
  datatype HttpOracle = HttpOracle(initOk: bool, openOk: bool, written: int, headersOk: bool,
                                   status: int, results: seq<ReadResult>)

  /** The transport succeeded: the request went out whole and the headers came back, or
      fetching them failed after a 200 status. */
  predicate TransportOk(http: HttpOracle, bodyBytes: nat)
  {
    http.initOk && http.openOk && http.written == bodyBytes && (http.headersOk || http.status == 200)
  }

  /** A reply text slot truncated to a caller buffer of `size` bytes, NUL included. */
  function Bounded(s: seq<byte>, size: nat): (r: seq<byte>)
    requires size > 0
    ensures |r| < size && r <= s
    ensures |s| < size ==> r == s
  {
    s[..Min(|s|, size - 1)]
  }

  lemma CStrAt(s: seq<byte>, n: nat)
    requires n < |s| && NoNul(s[..n]) && s[n] == NUL
    ensures CStr(s) == s[..n]
  {
    StrLenUnique(s, n);
  }

  /** backend_get_reply_text and backend_get_reply_reply_text: copy a NUL-terminated slot into
      the caller's buffer, at most size - 1 bytes and always terminated; nothing happens for a
      missing buffer or a zero size. */
  method CopyCString(src: array<byte>, dst: array?<byte>, size: nat)
    requires StrLen(src[..]) < src.Length
    requires dst != null ==> size <= dst.Length && dst != src
    modifies dst
    ensures dst == null || size == 0 ==> dst == null || dst[..] == old(dst[..])
    ensures dst != null && size > 0 ==>
      var t := Bounded(CStr(src[..]), size);
      && CStr(dst[..]) == t
      && forall i :: |t| < i < dst.Length ==> dst[i] == old(dst[i])
  {
    if dst == null || size == 0 {
      return;
    }
    ghost var s := CStr(src[..]);
    var n := 0;
    while src[n] != NUL && n < size - 1
      invariant n <= StrLen(src[..]) && n <= size - 1
      decreases size - n
      invariant dst[..n] == src[..n]
      invariant forall i :: n <= i < dst.Length ==> dst[i] == old(dst[i])
    {
      dst[n] := src[n];
      n := n + 1;
    }
    dst[n] := NUL;
    assert n == |Bounded(s, size)|;
    assert dst[..n] == Bounded(s, size);
    CStrAt(dst[..], n);
  }

  /** Copy loop of parse_upload_response_body into a 192-byte reply slot. */
  method CopyJsonString(src: array<byte>, q0: nat, dst: array<byte>)
    requires dst.Length == REPLY_TEXT_MAX && src != dst
    modifies dst
    ensures CStr(dst[..]) == ExtractValue(src[..], q0)
    ensures StrLen(dst[..]) < REPLY_TEXT_MAX
  {
    ghost var whole := ExtractValue(src[..], q0);
    ghost var text := src[..];
    var q: nat := q0;
    var n: nat := 0;
    while n < REPLY_TEXT_MAX - 1 && ByteAt(src, q) != NUL
      invariant n <= REPLY_TEXT_MAX - 1
      invariant src[..] == text
      invariant dst[..n] + Unescape(text, q, REPLY_TEXT_MAX - 1 - n) == whole
    {
      ghost var done := dst[..n];
      ghost var room := REPLY_TEXT_MAX - 1 - n;
      if ByteAt(src, q) == BACKSLASH && ByteAt(src, q + 1) == QUOTE {
        assert Unescape(text, q, room) == [QUOTE] + Unescape(text, q + 2, room - 1);
        dst[n] := QUOTE;
        assert dst[..n + 1] == done + [QUOTE];
        AppendAssoc(done, [QUOTE], Unescape(text, q + 2, room - 1));
        n := n + 1;
        q := q + 2;
        continue;
      }
      if ByteAt(src, q) == QUOTE {
        break;
      }
      assert Unescape(text, q, room) == [src[q]] + Unescape(text, q + 1, room - 1);
      dst[n] := src[q];
      assert dst[..n + 1] == done + [text[q]];
      AppendAssoc(done, [text[q]], Unescape(text, q + 1, room - 1));
      n := n + 1;
      q := q + 1;
    }
    dst[n] := NUL;
    assert dst[..n] == whole;
    CStrAt(dst[..], n);
  }

  function ByteAt(a: array<byte>, i: nat): (b: byte)
    reads a
    ensures b == At(a[..], i)
  {
    if i < a.Length then a[i] else NUL
  }

  /** The splitting step of parse_upload_response_body: find the first line terminator in
      the window, note where the PCM starts and write the NUL that ends the JSON text. */
  method SplitBody(body: array<byte>, len: nat) returns (pcmStart: nat)
    requires body.Length == UPLOAD_BODY_BUF_SIZE && len <= body.Length
    modifies body
    ensures body[..] == Terminated(old(body[..]), len)
    ensures pcmStart == PcmStart(old(body[..]), len)
  {
    ghost var buf := body[..];
    var limit := Min(len, SPLIT_WINDOW);
    var i := 0;
    while i < limit && body[i] != LF && body[i] != CR
      invariant i <= limit
      invariant forall j :: 0 <= j < i ==> body[j] != LF && body[j] != CR
    {
      i := i + 1;
    }
    assert i == SplitIndex(buf, len);
    pcmStart := len;
    if i < limit {
      pcmStart := i + 1;
      if body[i] == CR && i + 1 < len && body[i + 1] == LF {
        pcmStart := i + 2;
      }
      body[i] := NUL;
    } else if len < UPLOAD_BODY_BUF_SIZE {
      body[len] := NUL;
    } else {
      body[UPLOAD_BODY_BUF_SIZE - 1] := NUL;
    }
  }

  // ---------------------------------------------------------------------------------------
  // The exchange state

  class Exchange {
    /** s_upload_body_buf: allocated on the first upload, then reused. */
    var body: array?<byte>
    var bodyLen: nat
    var responseOk: bool
    /** s_reply_pcm as a byte offset into the body buffer; None is the NULL pointer. */
    var replyPcm: Option<nat>
    var replyPcmSamples: nat
    var replySampleRateHz: nat
    /** s_reply_text (the transcript) and s_reply_reply_text (the reply). */
    const replyText: array<byte>
    const replyReplyText: array<byte>

    ghost predicate Valid()
      reads this, replyText, replyReplyText
    {
      && replyText.Length == REPLY_TEXT_MAX && replyReplyText.Length == REPLY_TEXT_MAX
      && replyText != replyReplyText
      && StrLen(replyText[..]) < REPLY_TEXT_MAX && StrLen(replyReplyText[..]) < REPLY_TEXT_MAX
      && bodyLen <= UPLOAD_BODY_BUF_SIZE
      && (body != null ==> body.Length == UPLOAD_BODY_BUF_SIZE && body != replyText && body != replyReplyText)
      && (replyPcm.Some? ==> replyPcm.value + 2 * replyPcmSamples <= bodyLen)
      && replySampleRateHz < UINT32_LIMIT
    }

    /** The reply state that backend_send_pcm clears before each request. */
    ghost predicate ReplyCleared()
      reads this, replyText, replyReplyText
    {
      && replyPcm.None? && replyPcmSamples == 0 && replySampleRateHz == 0
      && CStr(replyText[..]) == [] && CStr(replyReplyText[..]) == [] && !responseOk
    }

    constructor ()
      ensures Valid() && body == null && bodyLen == 0 && ReplyCleared()
      ensures fresh(replyText) && fresh(replyReplyText)
    {
      body := null;
      bodyLen := 0;
      responseOk := false;
      replyPcm := None;
      replyPcmSamples := 0;
      replySampleRateHz := 0;
      replyText := new byte[REPLY_TEXT_MAX](_ => NUL);
      replyReplyText := new byte[REPLY_TEXT_MAX](_ => NUL);
      new;
      assert replyText[0] == NUL && replyReplyText[0] == NUL;
    }

    /** parse_upload_response_body: split the received body in place and set the reply state
        from it; nothing changes for an empty body, and a failed success test sets only the
        flag. */
    method ParseUploadResponseBody()
      requires Valid()
      modifies body, replyText, replyReplyText, this`responseOk, this`replyPcm,
               this`replyPcmSamples, this`replySampleRateHz
      ensures Valid()
      ensures old(bodyLen == 0 || body == null) ==>
        && responseOk == old(responseOk) && replyPcm == old(replyPcm)
        && replyPcmSamples == old(replyPcmSamples) && replySampleRateHz == old(replySampleRateHz)
        && replyText[..] == old(replyText[..]) && replyReplyText[..] == old(replyReplyText[..])
        && (body != null ==> body[..] == old(body[..]))
      ensures old(bodyLen > 0 && body != null) ==>
        var r := Parse(old(body[..]), bodyLen);
        && body[..] == Terminated(old(body[..]), bodyLen)
        && responseOk == r.ok
        && (r.ok ==> replyPcm == r.pcm && replyPcmSamples == r.samples && replySampleRateHz == r.rateHz)
        && (!r.ok ==> replyPcm == old(replyPcm) && replyPcmSamples == old(replyPcmSamples)
                      && replySampleRateHz == old(replySampleRateHz))
        && (r.ok && r.userText.Some? ==> CStr(replyText[..]) == r.userText.value)
        && (!(r.ok && r.userText.Some?) ==> replyText[..] == old(replyText[..]))
        && (r.ok && r.replyText.Some? ==> CStr(replyReplyText[..]) == r.replyText.value)
        && (!(r.ok && r.replyText.Some?) ==> replyReplyText[..] == old(replyReplyText[..]))
    {
      if bodyLen == 0 || body == null {
        return;
      }
      ghost var buf := body[..];
      var len := bodyLen;
      var pcmStart := SplitBody(body, len);
      var js := CStr(body[..]);
      assert body[..] == Terminated(buf, len);
      responseOk := ResponseOk(js);
      if !responseOk {
        return;
      }
      SetReplyAudio(js, pcmStart, len);
      ghost var t := body[..];
      StoreTexts(js);
      assert body[..] == t;
    }

    /** The audio fields of a successful reply: the PCM after the terminator, the whole
        16-bit samples that follow it, and the announced rate when there is PCM. */
    method SetReplyAudio(js: seq<byte>, pcmStart: nat, len: nat)
      requires Valid() && pcmStart <= len == bodyLen
      modifies this`replyPcm, this`replyPcmSamples, this`replySampleRateHz
      ensures Valid()
      ensures replyPcm == if pcmStart < len then Some(pcmStart) else None
      ensures replyPcmSamples == if pcmStart < len then (len - pcmStart) / 2 else 0
      ensures replySampleRateHz == if pcmStart < len then AnnouncedRate(js) else DEFAULT_REPLY_RATE_HZ
    {
      replyPcm := if pcmStart < len then Some(pcmStart) else None;
      replyPcmSamples := if pcmStart < len then (len - pcmStart) / 2 else 0;
      replySampleRateHz := DEFAULT_REPLY_RATE_HZ;
      if replyPcm.Some? {
        var sr := Find(js, SAMPLE_RATE_KEY);
        if sr.Some? {
          var v := ScanUnsigned(js[sr.value + SAMPLE_RATE_SKIP..]);
          if v.Some? {
            replySampleRateHz := v.value;
          }
        }
      }
    }

    /** The text fields of a successful reply; a slot whose key is missing keeps its content. */
    method StoreTexts(js: seq<byte>)
      requires Valid() && body != null
      modifies replyText, replyReplyText
      ensures Valid()
      ensures body[..] == old(body[..])
      ensures UserTextStart(js).Some? ==> CStr(replyText[..]) == ExtractValue(body[..], UserTextStart(js).value)
      ensures UserTextStart(js).None? ==> replyText[..] == old(replyText[..])
      ensures ReplyTextStart(js).Some? ==> CStr(replyReplyText[..]) == ExtractValue(body[..], ReplyTextStart(js).value)
      ensures ReplyTextStart(js).None? ==> replyReplyText[..] == old(replyReplyText[..])
    {
      var ut := UserTextStart(js);
      if ut.Some? {
        ghost var other := replyReplyText[..];
        CopyJsonString(body, ut.value, replyText);
        assert replyReplyText[..] == other;
      }
      ghost var mid := replyText[..];
      var rt := ReplyTextStart(js);
      if rt.Some? {
        CopyJsonString(body, rt.value, replyReplyText);
        assert replyText[..] == mid;
      }
    }

    /** The read loop of backend_send_pcm, filling the body buffer from offset 0. */
    method ReadBody(results: seq<ReadResult>)
      requires Valid() && body != null && bodyLen == 0
      modifies this`bodyLen, body
      ensures Valid()
      ensures body[..bodyLen] == Receive(results, 0, [], 0)
      ensures forall i :: bodyLen <= i < body.Length ==> body[i] == old(body[i])
    {
      var k := 0;
      var retries := 0;
      while bodyLen < UPLOAD_BODY_BUF_SIZE
        invariant body == old(body) && body != null
        invariant replyText[..] == old(replyText[..]) && replyReplyText[..] == old(replyReplyText[..])
        invariant Valid()
        invariant retries <= MAX_EMPTY_READ_RETRIES
        invariant Receive(results, k, body[..bodyLen], retries) == Receive(results, 0, [], 0)
        invariant forall i :: bodyLen <= i < body.Length ==> body[i] == old(body[i])
        decreases UPLOAD_BODY_BUF_SIZE - bodyLen, MAX_EMPTY_READ_RETRIES - retries
      {
        ghost var before := body[..bodyLen];
        ghost var k0 := k;
        var r := ReadAt(results, k);
        k := k + 1;
        if r.Got? && |r.data| > 0 {
          var n := Min(|r.data|, UPLOAD_BODY_BUF_SIZE - bodyLen);
          assert Receive(results, k0, before, retries) == Receive(results, k, before + r.data[..n], 0);
          AppendToBody(r.data[..n]);
          retries := 0;
          continue;
        }
        if r.Got? && bodyLen > 0 && bodyLen < SMALL_BODY_BYTES && retries < MAX_EMPTY_READ_RETRIES {
          assert Receive(results, k0, before, retries) == Receive(results, k, before, retries + 1);
          retries := retries + 1;
          continue;
        }
        assert Receive(results, k0, before, retries) == before;
        break;
      }
    }

    /** One positive read: its bytes copied to the end of the body. */
    method AppendToBody(data: seq<byte>)
      requires Valid() && body != null && bodyLen + |data| <= UPLOAD_BODY_BUF_SIZE
      modifies this`bodyLen, body
      ensures Valid() && body != null
      ensures bodyLen == old(bodyLen) + |data|
      ensures body[..bodyLen] == old(body[..bodyLen]) + data
      ensures forall i :: bodyLen <= i < body.Length ==> body[i] == old(body[i])
    {
      ghost var before := body[..bodyLen];
      ghost var text, replyTextCopy := replyText[..], replyReplyText[..];
      forall j | 0 <= j < |data| {
        body[bodyLen + j] := data[j];
      }
      assert body[..bodyLen + |data|] == before + data;
      assert replyText[..] == text && replyReplyText[..] == replyTextCopy;
      bodyLen := bodyLen + |data|;
    }

    /** The reset backend_send_pcm does before each request: no reply audio, both text slots
        empty, no response and no body. */
    method ClearReply()
      requires Valid()
      modifies this`replyPcm, this`replyPcmSamples, this`replySampleRateHz, this`responseOk,
               this`bodyLen, replyText, replyReplyText
      ensures Valid() && ReplyCleared() && bodyLen == 0
    {
      replyPcm := None;
      replyPcmSamples := 0;
      replySampleRateHz := 0;
      replyText[0] := NUL;
      replyReplyText[0] := NUL;
      responseOk := false;
      bodyLen := 0;
      assert CStr(replyText[..]) == [] && CStr(replyReplyText[..]) == [];
    }

    /** backend_send_pcm. The guards return false before anything changes; past them the reply
        state is cleared, the request is sent, and on transport success the body is read and
        parsed. The result is transport success and the parser's success test. `rawBody` is the
        buffer as the parser found it. */
    method SendPcm(wifiConnected: bool, allocOk: bool, baseUrl: seq<byte>, pcm: Option<seq<byte>>,
                   samples: nat, rateHz: nat, http: HttpOracle)
      returns (ok: bool, request: Option<UploadRequest>, ghost rawBody: seq<byte>)
      requires Valid()
      requires pcm.Some? ==> 2 * samples <= |pcm.value|
      modifies this, body, replyText, replyReplyText
      ensures Valid()
      ensures !wifiConnected || pcm.None? || samples == 0 || (old(body) == null && !allocOk) ==>
        && !ok && request.None?
        && body == old(body) && bodyLen == old(bodyLen) && responseOk == old(responseOk)
        && replyPcm == old(replyPcm) && replyPcmSamples == old(replyPcmSamples)
        && replySampleRateHz == old(replySampleRateHz)
        && replyText[..] == old(replyText[..]) && replyReplyText[..] == old(replyReplyText[..])
        && (body != null ==> body[..] == old(body[..]))
      ensures wifiConnected && pcm.Some? && samples > 0 && (old(body) != null || allocOk) ==>
        && body != null && (old(body) != null ==> body == old(body))
        && (request.Some? <==> http.initOk)
        && (http.initOk ==> request == Some(UploadRequest(UploadUrl(baseUrl), UploadHeaders(rateHz),
                                                           pcm.value[..2 * samples])))
        && (!TransportOk(http, 2 * samples) ==> !ok && bodyLen == 0 && ReplyCleared())
        && (TransportOk(http, 2 * samples) ==>
              && |rawBody| == UPLOAD_BODY_BUF_SIZE
              && rawBody[..bodyLen] == Receive(http.results, 0, [], 0)
              && (bodyLen == 0 ==> !ok && ReplyCleared())
              && (bodyLen > 0 ==>
                    var r := Parse(rawBody, bodyLen);
                    && ok == r.ok
                    && (ok ==> replyPcm == r.pcm && replyPcmSamples == r.samples
                               && replySampleRateHz == r.rateHz)
                    && (!ok ==> ReplyCleared())
                    && (ok ==> CStr(replyText[..]) == if r.userText.Some? then r.userText.value else [])
                    && (ok ==> CStr(replyReplyText[..]) == if r.replyText.Some? then r.replyText.value else [])))
    {
      request := None;
      rawBody := [];
      if !wifiConnected {
        return false, request, rawBody;
      }
      if pcm.None? || samples == 0 {
        return false, request, rawBody;
      }
      if body == null {
        if !allocOk {
          return false, request, rawBody;
        }
        body := new byte[UPLOAD_BODY_BUF_SIZE];
      }
      ok, request, rawBody := Upload(baseUrl, pcm.value[..2 * samples], rateHz, http);
    }

    /** backend_send_pcm past its guards, with the body buffer in place: clear the reply
        state, set up the client, send the request and take in the reply. */
    method Upload(baseUrl: seq<byte>, pcm: seq<byte>, rateHz: nat, http: HttpOracle)
      returns (ok: bool, request: Option<UploadRequest>, ghost rawBody: seq<byte>)
      requires Valid() && body != null
      modifies this`bodyLen, body, replyText, replyReplyText, this`responseOk, this`replyPcm,
               this`replyPcmSamples, this`replySampleRateHz
      ensures Valid()
      ensures request.Some? <==> http.initOk
      ensures http.initOk ==> request == Some(UploadRequest(UploadUrl(baseUrl), UploadHeaders(rateHz), pcm))
      ensures !TransportOk(http, |pcm|) ==> !ok && bodyLen == 0 && ReplyCleared()
      ensures TransportOk(http, |pcm|) ==>
        && |rawBody| == UPLOAD_BODY_BUF_SIZE
        && rawBody[..bodyLen] == Receive(http.results, 0, [], 0)
        && (bodyLen == 0 ==> !ok && ReplyCleared())
        && (bodyLen > 0 ==>
              var r := Parse(rawBody, bodyLen);
              && ok == r.ok
              && (ok ==> replyPcm == r.pcm && replyPcmSamples == r.samples && replySampleRateHz == r.rateHz)
              && (!ok ==> ReplyCleared())
              && (ok ==> CStr(replyText[..]) == if r.userText.Some? then r.userText.value else [])
              && (ok ==> CStr(replyReplyText[..]) == if r.replyText.Some? then r.replyText.value else []))
    {
      var url := UploadUrl(baseUrl);
      request := None;
      rawBody := [];
      ClearReply();
      if !http.initOk {
        return false, request, rawBody;
      }
      request := Some(UploadRequest(url, UploadHeaders(rateHz), pcm));
      ok, rawBody := ReceiveAndParse(http, |pcm|);
    }

    /** The part of backend_send_pcm after the client is set up: check the transport steps,
        then read and parse the body. */
    method ReceiveAndParse(http: HttpOracle, bodyBytes: nat) returns (ok: bool, ghost rawBody: seq<byte>)
      requires Valid() && body != null && bodyLen == 0 && ReplyCleared() && http.initOk
      modifies this`bodyLen, body, replyText, replyReplyText, this`responseOk, this`replyPcm,
               this`replyPcmSamples, this`replySampleRateHz
      ensures Valid()
      ensures !TransportOk(http, bodyBytes) ==> !ok && bodyLen == 0 && ReplyCleared()
      ensures TransportOk(http, bodyBytes) ==>
        && |rawBody| == UPLOAD_BODY_BUF_SIZE
        && rawBody[..bodyLen] == Receive(http.results, 0, [], 0)
        && (bodyLen == 0 ==> !ok && ReplyCleared())
        && (bodyLen > 0 ==>
              var r := Parse(rawBody, bodyLen);
              && ok == r.ok
              && (ok ==> replyPcm == r.pcm && replyPcmSamples == r.samples && replySampleRateHz == r.rateHz)
              && (!ok ==> ReplyCleared())
              && (ok ==> CStr(replyText[..]) == if r.userText.Some? then r.userText.value else [])
              && (ok ==> CStr(replyReplyText[..]) == if r.replyText.Some? then r.replyText.value else []))
    {
      rawBody := [];
      ok := http.openOk;
      if ok && http.written != bodyBytes {
        ok := false;
      }
      if ok {
        ok := http.headersOk || http.status == 200;
      }
      if ok {
        ReadBody(http.results);
        rawBody := body[..];
        ParseUploadResponseBody();
      }
      ok := ok && responseOk;
    }

    /** backend_get_reply_audio. */
    method GetReplyAudio() returns (pcm: Option<nat>, samples: nat, rateHz: nat)
      requires Valid()
      ensures pcm == replyPcm && samples == replyPcmSamples && rateHz == replySampleRateHz
      ensures pcm.Some? ==> pcm.value + 2 * samples <= bodyLen
    {
      return replyPcm, replyPcmSamples, replySampleRateHz;
    }

    /** backend_get_reply_text: the transcript slot into the caller's buffer. */
    method GetReplyText(dst: array?<byte>, size: nat)
      requires Valid()
      requires dst != null ==> size <= dst.Length && dst != replyText
      modifies dst
      ensures dst != null && size > 0 ==> CStr(dst[..]) == Bounded(CStr(replyText[..]), size)
      ensures dst == null || size == 0 ==> dst == null || dst[..] == old(dst[..])
    {
      CopyCString(replyText, dst, size);
    }

    /** backend_get_reply_reply_text: the reply slot into the caller's buffer. */
    method GetReplyReplyText(dst: array?<byte>, size: nat)
      requires Valid()
      requires dst != null ==> size <= dst.Length && dst != replyReplyText
      modifies dst
      ensures dst != null && size > 0 ==> CStr(dst[..]) == Bounded(CStr(replyReplyText[..]), size)
      ensures dst == null || size == 0 ==> dst == null || dst[..] == old(dst[..])
    {
      CopyCString(replyReplyText, dst, size);
    }
  }

  // ---------------------------------------------------------------------------------------
  // Response logger of the health-check request (on_client_data)

  datatype HttpEvent = Connected | Data(bytes: seq<byte>) | Finished | OtherEvent

  class ResponseLog {
    const buf: array<byte>
    var len: nat

    ghost predicate Valid()
      reads this
    {
      buf.Length == RESP_BUF_SIZE && len < RESP_BUF_SIZE
    }

    ghost function Contents(): seq<byte>
      reads this, buf
      requires Valid()
    {
      buf[..len]
    }

    constructor ()
      ensures Valid() && Contents() == []
    {
      buf := new byte[RESP_BUF_SIZE];
      len := 0;
    }

    /** One client event: data is appended while it fits in 255 bytes, the rest is dropped;
        the finish event logs the accumulated text (up to its first NUL) and starts over. */
    method OnEvent(ev: HttpEvent) returns (logged: Option<seq<byte>>)
      requires Valid()
      modifies this, buf
      ensures Valid()
      ensures ev.Connected? ==> Contents() == [] && logged.None?
      ensures ev.Data? ==>
        && Contents() == old(Contents()) + ev.bytes[..Min(|ev.bytes|, RESP_BUF_SIZE - 1 - old(len))]
        && logged.None?
      ensures ev.Finished? ==>
        && Contents() == []
        && logged == if old(len) > 0 then Some(CStr(old(Contents()))) else None
      ensures ev.OtherEvent? ==> Contents() == old(Contents()) && logged.None?
    {
      logged := None;
      match ev
      case Connected =>
        len := 0;
      case Data(bytes) =>
        if |bytes| > 0 && len < RESP_BUF_SIZE - 1 {
          var copy := Min(|bytes|, RESP_BUF_SIZE - 1 - len);
          forall j | 0 <= j < copy {
            buf[len + j] := bytes[j];
          }
          assert buf[..len + copy] == old(buf[..len]) + bytes[..copy];
          len := len + copy;
        }
      case Finished =>
        ghost var text := buf[..len];
        buf[len] := NUL;
        if len > 0 {
          assert buf[..len] == text;
          logged := Some(CStr(buf[..len]));
        }
        len := 0;
      case OtherEvent =>
    }
  }
}
