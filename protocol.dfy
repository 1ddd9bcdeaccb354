/** The upload exchange end to end: what the device's parser makes of the body the server
    frames, and the value copy's start offset measured against the key it follows. */
module Protocol {
  import opened Bytes
  import opened Backend
  import Server

  /** No byte the splitter or strlen would stop at. */
  predicate NoBreakOrNul(json: seq<byte>)
  {
    forall i :: 0 <= i < |json| ==> json[i] != LF && json[i] != CR && json[i] != NUL
  }

  /** A JSON shorter than the search window and free of line breaks and NULs, followed by a
      line feed and the PCM, is split back into exactly that JSON and that PCM, with
      |pcm| / 2 samples and no PCM when nothing follows the line feed. */
  lemma {:induction false} DeviceSplitsFramedBody(buf: seq<byte>, json: seq<byte>, pcm: seq<byte>)
    requires |buf| == UPLOAD_BODY_BUF_SIZE
    requires NoBreakOrNul(json) && |json| < SPLIT_WINDOW
    requires |json| + 1 + |pcm| <= UPLOAD_BODY_BUF_SIZE
    requires buf[..|json| + 1 + |pcm|] == json + [LF] + pcm
    ensures var len := |json| + 1 + |pcm|;
      && SplitIndex(buf, len) == |json| && HasTerminator(buf, len)
      && JsonText(buf, len) == json
      && PcmStart(buf, len) == |json| + 1
      && Terminated(buf, len)[|json| + 1..len] == pcm
      && Parse(buf, len).pcm == (if pcm == [] then None else Some(|json| + 1))
      && Parse(buf, len).samples == |pcm| / 2
  {
    var len := |json| + 1 + |pcm|;
    assert buf[|json|] == (json + [LF] + pcm)[|json|];
    forall j | 0 <= j < |json|
      ensures buf[j] == json[j]
    {
      assert buf[j] == (json + [LF] + pcm)[j];
    }
    var i := SplitIndex(buf, len);
    assert i == |json|;
    var t := Terminated(buf, len);
    assert NulIndex(buf, len) == |json|;
    assert t[..|json|] == json;
    CStrAt(t, |json|);
    assert t[|json| + 1..len] == buf[|json| + 1..len];
    assert buf[|json| + 1..len] == (json + [LF] + pcm)[|json| + 1..len];
  }

  /** The server's reply, received whole, parses as a success carrying the PCM that follows
      the JSON, as long as the JSON fits the search window. */
  lemma ServerReplyParses(buf: seq<byte>, userText: seq<byte>, replyText: seq<byte>, json: seq<byte>,
                          pcm: seq<byte>)
    requires json == Server.ReplyJson(userText, replyText)
    requires |buf| == UPLOAD_BODY_BUF_SIZE
    requires |json| < SPLIT_WINDOW && |json| + 1 + |pcm| <= UPLOAD_BODY_BUF_SIZE
    requires buf[..|json| + 1 + |pcm|] == json + [LF] + pcm
    ensures var r := Parse(buf, |json| + 1 + |pcm|);
      && r.ok
      && r.pcm == (if pcm == [] then None else Some(|json| + 1))
      && r.samples == |pcm| / 2
  {
    Server.ReplyJsonNoControl(userText, replyText);
    ControlFreeHasNoBreak(json);
    ReplyJsonIsOk(userText, replyText);
    OkJsonParses(buf, json, pcm);
  }

  lemma ControlFreeHasNoBreak(s: seq<byte>)
    requires Server.NoControl(s)
    ensures NoBreakOrNul(s)
  {
  }

  /** A framed JSON that passes the success test parses as a success. */
  lemma OkJsonParses(buf: seq<byte>, json: seq<byte>, pcm: seq<byte>)
    requires |buf| == UPLOAD_BODY_BUF_SIZE
    requires NoBreakOrNul(json) && |json| < SPLIT_WINDOW && ResponseOk(json)
    requires |json| + 1 + |pcm| <= UPLOAD_BODY_BUF_SIZE
    requires buf[..|json| + 1 + |pcm|] == json + [LF] + pcm
    ensures var r := Parse(buf, |json| + 1 + |pcm|);
      && r.ok
      && r.pcm == (if pcm == [] then None else Some(|json| + 1))
      && r.samples == |pcm| / 2
  {
    DeviceSplitsFramedBody(buf, json, pcm);
  }

  /** The substrings of the success test all occur in the server's reply JSON. */
  lemma ReplyJsonIsOk(userText: seq<byte>, replyText: seq<byte>)
    ensures ResponseOk(Server.ReplyJson(userText, replyText))
  {
    var json := Server.ReplyJson(userText, replyText);
    var open := Server.REPLY_OPEN;
    var middle := Server.REPLY_MIDDLE;
    var m := |open| + |Server.JsonString(userText)|;
    assert json[..|open|] == open;
    assert json[m..m + |middle|] == middle;
    OkTrueInOpening(json);
    ReplyKeyInMiddle(json, m);
  }

  lemma OkTrueInOpening(json: seq<byte>)
    requires |Server.REPLY_OPEN| <= |json| && json[..|Server.REPLY_OPEN|] == Server.REPLY_OPEN
    ensures Contains(json, Ascii("ok")) && Contains(json, Ascii("true"))
  {
    var open := Server.REPLY_OPEN;
    AsciiSlice("{\"ok\":true,\"user_text\":", 2, 4);
    AsciiSlice("{\"ok\":true,\"user_text\":", 6, 10);
    assert "{\"ok\":true,\"user_text\":"[2..4] == "ok";
    assert "{\"ok\":true,\"user_text\":"[6..10] == "true";
    assert json[2..4] == open[2..4] && json[6..10] == open[6..10];
    ContainsWhenOccurs(json, Ascii("ok"), 2);
    ContainsWhenOccurs(json, Ascii("true"), 6);
  }

  lemma ReplyKeyInMiddle(json: seq<byte>, m: nat)
    requires m + |Server.REPLY_MIDDLE| <= |json| && json[m..m + |Server.REPLY_MIDDLE|] == Server.REPLY_MIDDLE
    ensures Contains(json, Ascii("reply_text"))
  {
    AsciiSlice(",\"reply_text\":", 2, 12);
    assert ",\"reply_text\":"[2..12] == "reply_text";
    assert |Server.REPLY_MIDDLE| == 14;
    assert json[m + 2..m + 12] == json[m..m + 14][2..12];
    ContainsWhenOccurs(json, Ascii("reply_text"), m + 2);
  }

  /** A JSON longer than the search window, without line breaks, leaves the device with no
      reply PCM at all: the PCM bytes are taken for part of the JSON. */
  lemma LongJsonLosesPcm(buf: seq<byte>, json: seq<byte>, pcm: seq<byte>)
    requires |buf| == UPLOAD_BODY_BUF_SIZE
    requires NoBreakOrNul(json) && |json| >= SPLIT_WINDOW
    requires |json| + 1 + |pcm| <= UPLOAD_BODY_BUF_SIZE
    requires buf[..|json| + 1 + |pcm|] == json + [LF] + pcm
    ensures var len := |json| + 1 + |pcm|;
      && !HasTerminator(buf, len)
      && Parse(buf, len).pcm.None? && Parse(buf, len).samples == 0
  {
    var len := |json| + 1 + |pcm|;
    forall j | 0 <= j < |json|
      ensures buf[j] == json[j]
    {
      assert buf[j] == (json + [LF] + pcm)[j];
    }
  }

  // ---------------------------------------------------------------------------------------
  // Where the value copy starts

  /** The copy as the key lengths call for: from the byte right after the opening quote. */
  function IntendedReplyText(js: seq<byte>): (r: Option<seq<byte>>)
    ensures r.Some? <==> ReplyTextStart(js).Some?
  {
    match Find(js, REPLY_TEXT_KEY)
    case Some(k) => Some(Unescape(js, k + |REPLY_TEXT_KEY|, REPLY_TEXT_MAX - 1))
    case None => None
  }

  /** The key is 14 bytes long, but copying begins 15 bytes after it. */
  lemma ReplyKeyLength()
    ensures |REPLY_TEXT_KEY| == 14 && REPLY_TEXT_SKIP == |REPLY_TEXT_KEY| + 1
    ensures |USER_TEXT_KEY| == 13 && USER_TEXT_SKIP == |USER_TEXT_KEY| + 1
    ensures |TEXT_KEY| == 8 && TEXT_SKIP == |TEXT_KEY| + 1
  {
  }

  /** The transcript copy as the key lengths call for: from the byte right after the opening
      quote of "user_text", or failing that of "text". */
  function IntendedUserText(js: seq<byte>): (r: Option<seq<byte>>)
    ensures r.Some? <==> UserTextStart(js).Some?
  {
    match Find(js, USER_TEXT_KEY)
    case Some(k) => Some(Unescape(js, k + |USER_TEXT_KEY|, REPLY_TEXT_MAX - 1))
    case None =>
      match Find(js, TEXT_KEY)
      case Some(k) => Some(Unescape(js, k + |TEXT_KEY|, REPLY_TEXT_MAX - 1))
      case None => None
  }

  /** After any key ending in a quote, a value written with its quotes escaped is copied back
      whole (up to 191 bytes) from the byte after the key, and without its first byte from
      one byte further on. */
  lemma {:induction false} ValueCopy(pre: seq<byte>, key: seq<byte>, t: seq<byte>, rest: seq<byte>)
    requires NoNul(t) && NoBackslash(t) && t != [] && t[0] != QUOTE
    ensures var js := pre + key + QuoteEscaped(t) + [QUOTE] + rest;
      && Unescape(js, |pre| + |key|, REPLY_TEXT_MAX - 1) == t[..Min(|t|, REPLY_TEXT_MAX - 1)]
      && ExtractValue(js, |pre| + |key| + 1) == t[1..][..Min(|t| - 1, REPLY_TEXT_MAX - 1)]
  {
    var pk := pre + key;
    var js := pk + QuoteEscaped(t) + [QUOTE] + rest;
    UnescapeQuoted(t, pk, rest, REPLY_TEXT_MAX - 1);
    var pre' := pk + [t[0]];
    assert QuoteEscaped(t) == [t[0]] + QuoteEscaped(t[1..]);
    assert pk + QuoteEscaped(t) == pre' + QuoteEscaped(t[1..]) by {
      AppendAssoc(pk, [t[0]], QuoteEscaped(t[1..]));
    }
    assert NoBackslash(t[1..]) && NoNul(t[1..]) by {
      assert forall i :: 0 <= i < |t[1..]| ==> t[1..][i] == t[i + 1];
    }
    UnescapeQuoted(t[1..], pre', rest, REPLY_TEXT_MAX - 1);
  }

  /** For a reply text written with its quotes escaped, the intended copy gives it back whole
      (up to 191 bytes), while the copy as written loses its first byte. */
  lemma ReplyTextCopy(pre: seq<byte>, t: seq<byte>, rest: seq<byte>)
    requires NoNul(t) && NoBackslash(t) && t != [] && t[0] != QUOTE
    requires Find(pre + REPLY_TEXT_KEY + QuoteEscaped(t) + [QUOTE] + rest, REPLY_TEXT_KEY) == Some(|pre|)
    ensures var js := pre + REPLY_TEXT_KEY + QuoteEscaped(t) + [QUOTE] + rest;
      && IntendedReplyText(js) == Some(t[..Min(|t|, REPLY_TEXT_MAX - 1)])
      && ReplyTextStart(js) == Some(|pre| + REPLY_TEXT_SKIP)
      && ExtractValue(js, |pre| + REPLY_TEXT_SKIP) == t[1..][..Min(|t| - 1, REPLY_TEXT_MAX - 1)]
  {
    ValueCopy(pre, REPLY_TEXT_KEY, t, rest);
  }

  /** The same for the transcript under "user_text": kept whole by the intended copy, less
      its first byte by the copy as written. */
  lemma UserTextCopy(pre: seq<byte>, t: seq<byte>, rest: seq<byte>)
    requires NoNul(t) && NoBackslash(t) && t != [] && t[0] != QUOTE
    requires Find(pre + USER_TEXT_KEY + QuoteEscaped(t) + [QUOTE] + rest, USER_TEXT_KEY) == Some(|pre|)
    ensures var js := pre + USER_TEXT_KEY + QuoteEscaped(t) + [QUOTE] + rest;
      && IntendedUserText(js) == Some(t[..Min(|t|, REPLY_TEXT_MAX - 1)])
      && UserTextStart(js) == Some(|pre| + USER_TEXT_SKIP)
      && ExtractValue(js, |pre| + USER_TEXT_SKIP) == t[1..][..Min(|t| - 1, REPLY_TEXT_MAX - 1)]
  {
    ValueCopy(pre, USER_TEXT_KEY, t, rest);
  }

  /** The same for the fallback key "text", when no "user_text" key is present. */
  lemma FallbackTextCopy(pre: seq<byte>, t: seq<byte>, rest: seq<byte>)
    requires NoNul(t) && NoBackslash(t) && t != [] && t[0] != QUOTE
    requires Find(pre + TEXT_KEY + QuoteEscaped(t) + [QUOTE] + rest, USER_TEXT_KEY) == None
    requires Find(pre + TEXT_KEY + QuoteEscaped(t) + [QUOTE] + rest, TEXT_KEY) == Some(|pre|)
    ensures var js := pre + TEXT_KEY + QuoteEscaped(t) + [QUOTE] + rest;
      && IntendedUserText(js) == Some(t[..Min(|t|, REPLY_TEXT_MAX - 1)])
      && UserTextStart(js) == Some(|pre| + TEXT_SKIP)
      && ExtractValue(js, |pre| + TEXT_SKIP) == t[1..][..Min(|t| - 1, REPLY_TEXT_MAX - 1)]
  {
    ValueCopy(pre, TEXT_KEY, t, rest);
  }

  /** The reply of the example exchange: a two-letter reply text, a sample rate and two
      samples of PCM. */
  const EXAMPLE_JSON: seq<byte> := Ascii(EXAMPLE_TEXT)

  /** On the example JSON the device keeps "i" of the reply text "hi"; the intended copy
      keeps "hi". */
  lemma ExampleReplyText()
    ensures ReplyTextStart(EXAMPLE_JSON) == Some(11 + REPLY_TEXT_SKIP)
    ensures ExtractValue(EXAMPLE_JSON, 11 + REPLY_TEXT_SKIP) == Ascii("i")
    ensures IntendedReplyText(EXAMPLE_JSON) == Some(Ascii("hi"))
  {
    var pre := Ascii("{\"ok\":true,");
    var t := Ascii("hi");
    var rest := Ascii(",\"sample_rate\":16000}");
    ExampleLayout();
    ExampleKeyFirstAt11();
    ReplyTextCopy(pre, t, rest);
    assert t[..Min(|t|, REPLY_TEXT_MAX - 1)] == t;
    assert t[1..][..Min(|t| - 1, REPLY_TEXT_MAX - 1)] == t[1..] == Ascii("i");
  }

  const EXAMPLE_TEXT: string := "{\"ok\":true," + "\"reply_text\":\"" + "hi" + "\"" + ",\"sample_rate\":16000}"

  lemma ExampleLayout()
    ensures EXAMPLE_JSON == Ascii("{\"ok\":true,") + REPLY_TEXT_KEY + QuoteEscaped(Ascii("hi")) + [QUOTE]
                            + Ascii(",\"sample_rate\":16000}")
  {
    HiNeedsNoEscape();
    AsciiFivePieces("{\"ok\":true,", "\"reply_text\":\"", "hi", "\"", ",\"sample_rate\":16000}");
    assert Ascii("\"") == [QUOTE];
  }

  lemma HiNeedsNoEscape()
    ensures QuoteEscaped(Ascii("hi")) == Ascii("hi")
  {
    var t := Ascii("hi");
    assert t[0] == 104 && t[1] == 105;
    assert QuoteEscaped(t[1..][1..]) == [];
    assert QuoteEscaped(t[1..]) == t[1..];
  }

  lemma AsciiFivePieces(a: string, b: string, c: string, d: string, e: string)
    ensures Ascii(a + b + c + d + e) == Ascii(a) + Ascii(b) + Ascii(c) + Ascii(d) + Ascii(e)
  {
    AsciiAppend(a + b + c + d, e);
    AsciiAppend(a + b + c, d);
    AsciiAppend(a + b, c);
    AsciiAppend(a, b);
  }

  lemma ExamplePrefixBytes()
    ensures Ascii("{\"ok\":true,") == [123, 34, 111, 107, 34, 58, 116, 114, 117, 101, 44]
  {
  }

  /** No occurrence of a key starts where the two bytes it opens with do not appear. */
  lemma NoKeyWhereOpeningDiffers(js: seq<byte>, key: seq<byte>, n: nat)
    requires |key| >= 2 && n + 1 <= |js|
    requires forall j :: 0 <= j < n ==> js[j] != key[0] || js[j + 1] != key[1]
    ensures forall j :: 0 <= j < n ==> !OccursAt(js, key, j)
  {
    forall j | 0 <= j < n
      ensures !OccursAt(js, key, j)
    {
      if j + |key| <= |js| {
        assert js[j..j + |key|][0] == js[j] && js[j..j + |key|][1] == js[j + 1];
      }
    }
  }

  lemma ExampleHead()
    ensures |EXAMPLE_JSON| >= 25
    ensures EXAMPLE_JSON[..12] == [123, 34, 111, 107, 34, 58, 116, 114, 117, 101, 44, 34]
    ensures EXAMPLE_JSON[11..25] == REPLY_TEXT_KEY
  {
    var pre := Ascii("{\"ok\":true,");
    var rest := QuoteEscaped(Ascii("hi")) + [QUOTE] + Ascii(",\"sample_rate\":16000}");
    var key := REPLY_TEXT_KEY;
    ExampleLayout();
    ExamplePrefixBytes();
    assert EXAMPLE_JSON == (pre + key) + rest by {
      AppendAssoc(pre, key, QuoteEscaped(Ascii("hi")));
      AppendAssoc(pre, key + QuoteEscaped(Ascii("hi")), [QUOTE]);
      AppendAssoc(pre + key, QuoteEscaped(Ascii("hi")), [QUOTE]);
      AppendAssoc(pre + key, QuoteEscaped(Ascii("hi")) + [QUOTE], Ascii(",\"sample_rate\":16000}"));
    }
    assert |pre| == 11 && |key| == 14 && key[0] == 34;
    PrefixOfConcat(pre + key, rest);
    PrefixOfConcat(pre, key);
    assert EXAMPLE_JSON[11..25] == (pre + key)[11..25];
    assert EXAMPLE_JSON[..12] == (pre + key)[..12];
    assert (pre + key)[..12] == pre + [key[0]];
  }

  lemma PrefixOfConcat<T>(a: seq<T>, b: seq<T>)
    ensures (a + b)[..|a|] == a && (a + b)[|a|..] == b
  {
  }

  lemma ExampleKeyFirstAt11()
    ensures Find(EXAMPLE_JSON, REPLY_TEXT_KEY) == Some(11)
  {
    var js := EXAMPLE_JSON;
    var key := REPLY_TEXT_KEY;
    ExampleHead();
    var opening := js[..12];
    assert forall j :: 0 <= j < 12 ==> js[j] == opening[j];
    assert key[0] == 34 && key[1] == 114;
    NoKeyWhereOpeningDiffers(js, key, 11);
    assert OccursAt(js, key, 11);
  }
}
