/** `generate_wss_url` (src/main.rs): from an API key, an API secret, an
    optional session uuid and the wall clock, build the signed WebSocket URL
    of the Coincall options stream.

    The wall clock enters as `nowNanos`, the current time in nanoseconds
    relative to the Unix epoch (negative before it). HMAC-SHA256 enters as a
    parameter `hmac`: any function from key bytes and message bytes to a
    32-byte tag stands for it. */
module WssUrl {
  import opened Types
  import Decimal
  import Base16
  import Utf8

  /** Size in bytes of an HMAC-SHA256 tag: the SHA-256 digest size. */
  const MacLength := 32

  /** HMAC-SHA256 (RFC 2104 over the SHA-256 of FIPS 180-4), with the key and
      the message as bytes. It accepts keys of any length and never fails. */
  type HmacSha256 = f: (seq<byte>, seq<byte>) -> seq<byte> | forall key, msg :: |f(key, msg)| == MacLength
    witness (key: seq<byte>, msg: seq<byte>) => seq(MacLength, _ => 0)

  const Code := "10"
  const Verb := "GET"
  const Uri := "/users/self/verify"
  const Endpoint := "wss://ws.coincall.com/options"

  /** The fixed head of every canonical message. */
  const SignedPrefix := Verb + Uri + "?uuid="

  /** The fixed head of both URL templates, up to the parameter after `code`. */
  const UrlHead := Endpoint + "?code=" + Code + "&"

  const NanosPerMilli := 1_000_000

  /** The error of `SystemTime::duration_since` when the clock reads before
      the epoch; it carries how far before. */
  datatype ClockError = BeforeEpoch(gapNanos: nat)

  /** `SystemTime::now().duration_since(UNIX_EPOCH)?.as_millis().to_string()`:
      whole milliseconds since the epoch, in decimal. Reading exactly at the
      epoch is not an error. */
  function Timestamp(nowNanos: int): (r: Result<string, ClockError>)
    ensures r.Err? <==> nowNanos < 0
    ensures r.Err? ==> r.error.gapNanos == -nowNanos
    ensures r.Ok? ==> Decimal.IsCanonical(r.value) && Decimal.Value(r.value) == nowNanos / NanosPerMilli
  {
    if nowNanos < 0 then Err(BeforeEpoch(-nowNanos))
    else
      Decimal.ValueOfToDecimal(nowNanos / NanosPerMilli);
      Ok(Decimal.ToDecimal(nowNanos / NanosPerMilli))
  }

  /** A query string: `name=value` pairs joined by '&', with nothing escaped. */
  function Query(params: seq<(string, string)>): string {
    if params == [] then ""
    else if |params| == 1 then params[0].0 + "=" + params[0].1
    else params[0].0 + "=" + params[0].1 + "&" + Query(params[1..])
  }

  /** A query with more than one pair is its first pair, '&', and the rest. */
  lemma QueryCons(name: string, value: string, rest: seq<(string, string)>)
    requires rest != []
    ensures Query([(name, value)] + rest) == name + "=" + value + "&" + Query(rest)
  {
  }

  /** The string that is signed: verb, resource path and a query whose `uuid`
      field carries the API key (not the session uuid) and whose `ts` field
      carries the timestamp. */
  function CanonicalMessage(apiKey: string, ts: string): (m: string)
    ensures m == Verb + Uri + "?" + Query([("uuid", apiKey), ("ts", ts)])
  {
    SignedPrefix + apiKey + "&ts=" + ts
  }

  /** The signature: the MAC of the canonical message under the secret,
      both taken as UTF-8 bytes, written with `hex::encode` and upper-cased. */
  function Sign(hmac: HmacSha256, apiSecret: string, message: string): (sign: string)
    ensures |sign| == 2 * MacLength
    ensures Base16.IsUpperHex(sign)
    ensures Base16.Decode(sign) == Some(hmac(Utf8.Encode(apiSecret), Utf8.Encode(message)))
  {
    var tag := hmac(Utf8.Encode(apiSecret), Utf8.Encode(message));
    Base16.UpperOfEncodeLower(tag);
    Base16.DecodeEncode(tag);
    Base16.ToUpperAscii(Base16.EncodeLower(tag))
  }

  /** The URL's query parameters in order; `uuid` only when a session uuid is given. */
  function QueryParams(uuid: Option<string>, ts: string, sign: string, apiKey: string): (params: seq<(string, string)>)
    ensures uuid.None? ==> |params| == 4 && forall i :: 0 <= i < |params| ==> params[i].0 != "uuid"
    ensures uuid.Some? ==> |params| == 5 && params[1] == ("uuid", uuid.value)
    ensures params[0] == ("code", Code)
    ensures params[|params| - 3..] == [("ts", ts), ("sign", sign), ("apiKey", apiKey)]
  {
    [("code", Code)]
    + (if uuid.Some? then [("uuid", uuid.value)] else [])
    + [("ts", ts), ("sign", sign), ("apiKey", apiKey)]
  }

  /** The three parameters both templates end with. */
  lemma QueryOfTail(ts: string, sign: string, apiKey: string)
    ensures Query([("ts", ts), ("sign", sign), ("apiKey", apiKey)]) == "ts=" + ts + "&sign=" + sign + "&apiKey=" + apiKey
  {
    var last := [("apiKey", apiKey)];
    QueryCons("sign", sign, last);
    QueryCons("ts", ts, [("sign", sign)] + last);
    assert [("ts", ts), ("sign", sign), ("apiKey", apiKey)] == [("ts", ts)] + ([("sign", sign)] + last);
  }

  lemma QueryOfNone(ts: string, sign: string, apiKey: string)
    ensures Query(QueryParams(None, ts, sign, apiKey))
         == "code=" + Code + "&" + ("ts=" + ts + "&sign=" + sign + "&apiKey=" + apiKey)
  {
    var tail := [("ts", ts), ("sign", sign), ("apiKey", apiKey)];
    QueryOfTail(ts, sign, apiKey);
    assert QueryParams(None, ts, sign, apiKey) == [("code", Code)] + tail;
    QueryCons("code", Code, tail);
  }

  lemma QueryOfSome(u: string, ts: string, sign: string, apiKey: string)
    ensures Query(QueryParams(Some(u), ts, sign, apiKey))
         == "code=" + Code + "&" + ("uuid=" + u + "&" + ("ts=" + ts + "&sign=" + sign + "&apiKey=" + apiKey))
  {
    var tail := [("ts", ts), ("sign", sign), ("apiKey", apiKey)];
    QueryOfTail(ts, sign, apiKey);
    assert QueryParams(Some(u), ts, sign, apiKey) == [("code", Code)] + ([("uuid", u)] + tail);
    QueryCons("uuid", u, tail);
    QueryCons("code", Code, [("uuid", u)] + tail);
  }

  /** `UrlHead` followed by more parameters is the endpoint and a query
      that starts with `code`. */
  lemma UrlHeadIsQuery(more: string)
    ensures UrlHead + more == Endpoint + "?" + ("code=" + Code + "&" + more)
  {
    assert UrlHead == Endpoint + "?" + ("code=" + Code + "&");
  }

  /** The `None` template, regrouped after `code=10&`. */
  lemma TemplateNone(ts: string, sign: string, apiKey: string)
    ensures Endpoint + "?code=" + Code + "&ts=" + ts + "&sign=" + sign + "&apiKey=" + apiKey
         == UrlHead + ("ts=" + ts + "&sign=" + sign + "&apiKey=" + apiKey)
  {
    var rest := "ts=" + ts + "&sign=" + sign + "&apiKey=" + apiKey;
    assert "&ts=" + ts + "&sign=" + sign + "&apiKey=" + apiKey == "&" + rest;
  }

  /** The `Some` template, regrouped after `code=10&`. */
  lemma TemplateSome(u: string, ts: string, sign: string, apiKey: string)
    ensures Endpoint + "?code=" + Code + "&uuid=" + u + "&ts=" + ts + "&sign=" + sign + "&apiKey=" + apiKey
         == UrlHead + ("uuid=" + u + "&" + ("ts=" + ts + "&sign=" + sign + "&apiKey=" + apiKey))
  {
    var rest := "ts=" + ts + "&sign=" + sign + "&apiKey=" + apiKey;
    assert "&ts=" + ts + "&sign=" + sign + "&apiKey=" + apiKey == "&" + rest;
    assert "&uuid=" + u + "&ts=" + ts + "&sign=" + sign + "&apiKey=" + apiKey == "&" + ("uuid=" + u + "&" + rest);
  }

  /** The two `format!` templates of the URL. Each is the endpoint, '?', and
      the query of its parameters: `code`, then `uuid` if a session uuid is
      given, then `ts`, `sign` and `apiKey`. */
  function Url(uuid: Option<string>, ts: string, sign: string, apiKey: string): (url: string)
    ensures url == Endpoint + "?" + Query(QueryParams(uuid, ts, sign, apiKey))
  {
    var rest := "ts=" + ts + "&sign=" + sign + "&apiKey=" + apiKey;
    match uuid
    case Some(u) =>
      TemplateSome(u, ts, sign, apiKey);
      QueryOfSome(u, ts, sign, apiKey);
      UrlHeadIsQuery("uuid=" + u + "&" + rest);
      Endpoint + "?code=" + Code + "&uuid=" + u + "&ts=" + ts + "&sign=" + sign + "&apiKey=" + apiKey
    case None =>
      TemplateNone(ts, sign, apiKey);
      QueryOfNone(ts, sign, apiKey);
      UrlHeadIsQuery(rest);
      Endpoint + "?code=" + Code + "&ts=" + ts + "&sign=" + sign + "&apiKey=" + apiKey
  }

  /** `generate_wss_url`: the clock read is the only step that can fail. */
  function GenerateWssUrl(hmac: HmacSha256, apiKey: string, apiSecret: string, uuid: Option<string>, nowNanos: int)
    : (r: Result<string, ClockError>)
    ensures r.Err? <==> nowNanos < 0
    ensures r.Err? ==> r.error == BeforeEpoch(-nowNanos)
  {
    match Timestamp(nowNanos)
    case Err(e) => Err(e)
    case Ok(ts) =>
      var auth := CanonicalMessage(apiKey, ts);
      var sign := Sign(hmac, apiSecret, auth);
      Ok(Url(uuid, ts, sign, apiKey))
  }

  /** The `None` template, regrouped around its three trailing parameters. */
  lemma UrlNoneShape(ts: string, sign: string, apiKey: string)
    ensures Url(None, ts, sign, apiKey) == UrlHead + ("ts=" + ts + "&sign=" + sign + "&apiKey=" + apiKey)
  {
    TemplateNone(ts, sign, apiKey);
  }

  /** The `Some` template, regrouped around its three trailing parameters. */
  lemma UrlSomeShape(u: string, ts: string, sign: string, apiKey: string)
    ensures Url(Some(u), ts, sign, apiKey)
         == UrlHead + ("uuid=" + u + "&" + ("ts=" + ts + "&sign=" + sign + "&apiKey=" + apiKey))
  {
    TemplateSome(u, ts, sign, apiKey);
  }

  /** The URL with a session uuid is the URL without one, with `uuid=<uuid>&`
      inserted right after `code=10&`. */
  lemma UrlSessionInsertion(u: string, ts: string, sign: string, apiKey: string)
    ensures var none := Url(None, ts, sign, apiKey);
      && |UrlHead| <= |none| && none[..|UrlHead|] == UrlHead
      && Url(Some(u), ts, sign, apiKey) == UrlHead + "uuid=" + u + "&" + none[|UrlHead|..]
  {
    var rest := "ts=" + ts + "&sign=" + sign + "&apiKey=" + apiKey;
    UrlNoneShape(ts, sign, apiKey);
    UrlSomeShape(u, ts, sign, apiKey);
    assert (UrlHead + rest)[..|UrlHead|] == UrlHead && (UrlHead + rest)[|UrlHead|..] == rest;
  }

  /** The API key closes the URL verbatim, right after `&apiKey=`. */
  lemma UrlEndsWithApiKey(uuid: Option<string>, ts: string, sign: string, apiKey: string)
    ensures var url := Url(uuid, ts, sign, apiKey);
      |url| >= |apiKey| + 8 && url[|url| - |apiKey| - 8..] == "&apiKey=" + apiKey
  {
    var params := "ts=" + ts + "&sign=" + sign;
    var front := match uuid
      case Some(u) => UrlHead + ("uuid=" + u + "&" + params)
      case None => UrlHead + params;
    match uuid
    case Some(u) => UrlSomeShape(u, ts, sign, apiKey);
    case None => UrlNoneShape(ts, sign, apiKey);
    assert Url(uuid, ts, sign, apiKey) == front + ("&apiKey=" + apiKey);
  }

  /** Without a session uuid no `uuid=` appears in the URL except inside the
      API key's own text: nothing before the key is even a 'u'. */
  lemma NoUuidWithoutSession(ts: string, sign: string, apiKey: string)
    requires Decimal.AllDigits(ts) && Base16.IsUpperHex(sign)
    ensures var url := Url(None, ts, sign, apiKey);
      forall i :: 0 <= i < |url| - |apiKey| ==> url[i] != 'u'
  {
  }

  /** Both templates start with `wss://ws.coincall.com/options?code=10&`;
      with a session uuid, `uuid=` follows it immediately. */
  lemma UuidAfterCode(u: string, ts: string, sign: string, apiKey: string)
    ensures UrlHead == "wss://ws.coincall.com/options?code=10&"
    ensures var none := Url(None, ts, sign, apiKey);
      |none| >= |UrlHead| && none[..|UrlHead|] == UrlHead
    ensures var url := Url(Some(u), ts, sign, apiKey);
      |url| >= |UrlHead| + 5 && url[..|UrlHead| + 5] == UrlHead + "uuid="
  {
    UrlNoneShape(ts, sign, apiKey);
    UrlSomeShape(u, ts, sign, apiKey);
  }

  /** The number of digits that end `s`. */
  function TrailingDigits(s: string): (n: nat)
    ensures n <= |s|
    ensures Decimal.AllDigits(s[|s| - n..])
    ensures n < |s| ==> !Decimal.IsDigit(s[|s| - n - 1])
  {
    if s == [] || !Decimal.IsDigit(s[|s| - 1]) then 0
    else
      var n := TrailingDigits(s[..|s| - 1]);
      assert s[|s| - (n + 1)..] == s[..|s| - 1][|s| - 1 - n..] + [s[|s| - 1]];
      n + 1
  }

  /** Digits appended to a string that ends in a non-digit are exactly its
      trailing digits. */
  lemma {:induction false} TrailingDigitsOfAppend(h: string, d: string)
    requires |h| > 0 && !Decimal.IsDigit(h[|h| - 1]) && Decimal.AllDigits(d)
    ensures TrailingDigits(h + d) == |d|
  {
    if d != [] {
      assert (h + d)[..|h + d| - 1] == h + d[..|d| - 1];
      TrailingDigitsOfAppend(h, d[..|d| - 1]);
    } else {
      assert h + d == h;
    }
  }

  /** Splits a canonical message back into the API key and the timestamp:
      the timestamp is the run of digits at the end, preceded by `&ts=`. */
  function ParseCanonical(m: string): Option<(string, string)> {
    if |m| < |SignedPrefix| || m[..|SignedPrefix|] != SignedPrefix then None
    else
      var rest := m[|SignedPrefix|..];
      var n := TrailingDigits(rest);
      var head := rest[..|rest| - n];
      var ts := rest[|rest| - n..];
      if |head| >= 4 && head[|head| - 4..] == "&ts=" && Decimal.IsCanonical(ts) then
        Some((head[..|head| - 4], ts))
      else None
  }

  lemma CanonicalMessageShape(apiKey: string, ts: string)
    ensures SignedPrefix == "GET/users/self/verify?uuid="
    ensures CanonicalMessage(apiKey, ts) == SignedPrefix + (apiKey + "&ts=" + ts)
  {
  }

  /** A canonical message determines the API key and the timestamp it was
      built from. */
  lemma ParseCanonicalMessage(apiKey: string, ts: string)
    requires Decimal.IsCanonical(ts)
    ensures ParseCanonical(CanonicalMessage(apiKey, ts)) == Some((apiKey, ts))
  {
    var m := CanonicalMessage(apiKey, ts);
    var h := apiKey + "&ts=";
    CanonicalMessageShape(apiKey, ts);
    assert m[..|SignedPrefix|] == SignedPrefix;
    assert m[|SignedPrefix|..] == h + ts;
    TrailingDigitsOfAppend(h, ts);
    assert (h + ts)[..|h|] == h && (h + ts)[|h|..] == ts;
    assert h[..|h| - 4] == apiKey;
  }

  /** The parser accepts only canonical messages with canonical timestamps. */
  lemma ParseCanonicalSound(m: string)
    requires ParseCanonical(m).Some?
    ensures var (apiKey, ts) := ParseCanonical(m).value;
      Decimal.IsCanonical(ts) && m == CanonicalMessage(apiKey, ts)
  {
    var (apiKey, ts) := ParseCanonical(m).value;
    var rest := m[|SignedPrefix|..];
    var n := TrailingDigits(rest);
    var head := rest[..|rest| - n];
    assert head == head[..|head| - 4] + head[|head| - 4..];
    assert head == apiKey + "&ts=";
    assert rest == rest[..|rest| - n] + rest[|rest| - n..];
    assert m == m[..|SignedPrefix|] + rest;
    CanonicalMessageShape(apiKey, ts);
  }

  /** Different API keys or timestamps give different canonical messages. */
  lemma CanonicalMessageInjective(k1: string, t1: string, k2: string, t2: string)
    requires Decimal.IsCanonical(t1) && Decimal.IsCanonical(t2)
    ensures CanonicalMessage(k1, t1) == CanonicalMessage(k2, t2) <==> k1 == k2 && t1 == t2
  {
    if CanonicalMessage(k1, t1) == CanonicalMessage(k2, t2) {
      ParseCanonicalMessage(k1, t1);
      ParseCanonicalMessage(k2, t2);
    }
  }

  lemma EncodeFourParts(head: string, text: string, sep: string, tail: string)
    ensures Utf8.Encode(head + text + sep + tail)
         == Utf8.Encode(head) + Utf8.Encode(text) + Utf8.Encode(sep) + Utf8.Encode(tail)
  {
    Utf8.EncodeAppend(head, text);
    Utf8.EncodeAppend(head + text, sep);
    Utf8.EncodeAppend(head + text + sep, tail);
  }

  /** The UTF-8 bytes of an ASCII head, some text, an ASCII separator and an
      ASCII tail: the text's bytes framed by one code per ASCII character. */
  lemma FramedBytes(head: string, text: string, sep: string, tail: string)
    requires Utf8.IsAscii(head) && Utf8.IsAscii(sep) && Utf8.IsAscii(tail)
    ensures Utf8.Encode(head + text + sep + tail)
         == Utf8.AsciiCodes(head) + Utf8.Encode(text) + Utf8.AsciiCodes(sep) + Utf8.AsciiCodes(tail)
  {
    EncodeFourParts(head, text, sep, tail);
    Utf8.EncodeAscii(head);
    Utf8.EncodeAscii(sep);
    Utf8.EncodeAscii(tail);
  }

  /** The bytes the MAC reads: the ASCII codes of `GET/users/self/verify?uuid=`,
      the API key's UTF-8 bytes, the ASCII codes of `&ts=` and one ASCII code
      per timestamp digit. */
  lemma SignedBytes(apiKey: string, ts: string)
    requires Decimal.AllDigits(ts)
    ensures Utf8.Encode(CanonicalMessage(apiKey, ts))
         == Utf8.AsciiCodes(SignedPrefix) + Utf8.Encode(apiKey) + Utf8.AsciiCodes("&ts=") + Utf8.AsciiCodes(ts)
  {
    CanonicalMessageShape(apiKey, ts);
    assert SignedPrefix + (apiKey + "&ts=" + ts) == SignedPrefix + apiKey + "&ts=" + ts;
    FramedBytes(SignedPrefix, apiKey, "&ts=", ts);
  }

  /** Two signatures agree exactly when the MAC tags agree. */
  lemma SignInjective(hmac: HmacSha256, secret1: string, msg1: string, secret2: string, msg2: string)
    ensures Sign(hmac, secret1, msg1) == Sign(hmac, secret2, msg2)
        <==> hmac(Utf8.Encode(secret1), Utf8.Encode(msg1)) == hmac(Utf8.Encode(secret2), Utf8.Encode(msg2))
  {
  }

  /** On a clock at or after the epoch, the URL is one of the two templates,
      filled with one timestamp (the decimal milliseconds) that is also the
      one in the signed message, and with the signature of that message. */
  lemma GenerateWssUrlLayout(hmac: HmacSha256, apiKey: string, apiSecret: string, uuid: Option<string>,
                             nowNanos: int, ts: string)
    requires nowNanos >= 0
    requires Decimal.IsCanonical(ts) && Decimal.Value(ts) == nowNanos / NanosPerMilli
    ensures var sign := Sign(hmac, apiSecret, SignedPrefix + apiKey + "&ts=" + ts);
      var rest := "ts=" + ts + "&sign=" + sign + "&apiKey=" + apiKey;
      GenerateWssUrl(hmac, apiKey, apiSecret, uuid, nowNanos)
      == Ok(match uuid
            case Some(u) => UrlHead + ("uuid=" + u + "&" + rest)
            case None => UrlHead + rest)
  {
    Decimal.ToDecimalOfValue(ts);
    assert Timestamp(nowNanos) == Ok(ts);
    var sign := Sign(hmac, apiSecret, CanonicalMessage(apiKey, ts));
    match uuid
    case Some(u) => UrlSomeShape(u, ts, sign, apiKey);
    case None => UrlNoneShape(ts, sign, apiKey);
  }

  /** The session uuid is not signed: supplying one only inserts
      `uuid=<uuid>&` after `code=10&`; timestamp, signature and key are those
      of the URL without it. */
  lemma SessionUuidNotSigned(hmac: HmacSha256, apiKey: string, apiSecret: string, u: string, nowNanos: int)
    requires nowNanos >= 0
    ensures var none := GenerateWssUrl(hmac, apiKey, apiSecret, None, nowNanos).value;
      && |UrlHead| <= |none| && none[..|UrlHead|] == UrlHead
      && GenerateWssUrl(hmac, apiKey, apiSecret, Some(u), nowNanos).value == UrlHead + "uuid=" + u + "&" + none[|UrlHead|..]
  {
    var ts := Timestamp(nowNanos).value;
    var sign := Sign(hmac, apiSecret, CanonicalMessage(apiKey, ts));
    UrlSessionInsertion(u, ts, sign, apiKey);
  }

  /** The decimal rendering of the example's millisecond count. */
  lemma GoldenTimestamp()
    ensures Decimal.ToDecimal(1_700_000_000_000) == "1700000000000"
  {
    assert Decimal.ToDecimal(1) == "1";
    assert Decimal.ToDecimal(17) == "17";
    assert Decimal.ToDecimal(170) == "170";
    assert Decimal.ToDecimal(1700) == "1700";
    assert Decimal.ToDecimal(17000) == "17000";
    assert Decimal.ToDecimal(170000) == "170000";
    assert Decimal.ToDecimal(1700000) == "1700000";
    assert Decimal.ToDecimal(17000000) == "17000000";
    assert Decimal.ToDecimal(170000000) == "170000000";
    assert Decimal.ToDecimal(1700000000) == "1700000000";
    assert Decimal.ToDecimal(17000000000) == "17000000000";
    assert Decimal.ToDecimal(170000000000) == "170000000000";
  }

  /** The canonical message of the example. */
  lemma GoldenMessage()
    ensures CanonicalMessage("ABC", "1700000000000") == "GET/users/self/verify?uuid=ABC&ts=1700000000000"
  {
    assert Verb + Uri == "GET/users/self/verify";
    assert Verb + Uri + "?uuid=" == "GET/users/self/verify?uuid=";
    assert Verb + Uri + "?uuid=" + "ABC" == "GET/users/self/verify?uuid=ABC";
    assert Verb + Uri + "?uuid=" + "ABC" + "&ts=" == "GET/users/self/verify?uuid=ABC&ts=";
  }

  /** The URL of the example, for whatever its signature is. */
  lemma GoldenUrl(sign: string)
    ensures Url(None, "1700000000000", sign, "ABC")
         == "wss://ws.coincall.com/options?code=10&ts=1700000000000&sign=" + sign + "&apiKey=ABC"
  {
    assert Endpoint + "?code=" + Code == "wss://ws.coincall.com/options?code=10";
    assert "wss://ws.coincall.com/options?code=10" + "&ts=" == "wss://ws.coincall.com/options?code=10&ts=";
    assert "wss://ws.coincall.com/options?code=10&ts=" + "1700000000000"
        == "wss://ws.coincall.com/options?code=10&ts=1700000000000";
    assert "wss://ws.coincall.com/options?code=10&ts=1700000000000" + "&sign="
        == "wss://ws.coincall.com/options?code=10&ts=1700000000000&sign=";
  }

  /** The example of a fixed clock at 1700000000000 ms, key "ABC", secret
      "secret" and no session uuid. */
  lemma GoldenVector(hmac: HmacSha256)
    ensures GenerateWssUrl(hmac, "ABC", "secret", None, 1_700_000_000_000 * NanosPerMilli)
         == Ok("wss://ws.coincall.com/options?code=10&ts=1700000000000&sign="
               + Sign(hmac, "secret", "GET/users/self/verify?uuid=ABC&ts=1700000000000")
               + "&apiKey=ABC")
  {
    GoldenTimestamp();
    assert Timestamp(1_700_000_000_000 * NanosPerMilli) == Ok("1700000000000");
    GoldenMessage();
    GoldenUrl(Sign(hmac, "secret", "GET/users/self/verify?uuid=ABC&ts=1700000000000"));
  }
}
