/**
 * Signed requests to the OKX v5 REST API: the pre-hash string
 * `timestamp + method + requestPath + body`, its HMAC-SHA256 under the API
 * secret in Base64, and the affiliate-invitee lookup request that carries it.
 */
module OkxSigning {
  import opened Optional
  import opened Timestamp

  newtype byte = x: int | 0 <= x < 256

  /**
   * The foreign primitives the signature is built from (Python's `str.encode`,
   * `hmac.new(..., hashlib.sha256).digest()` and `base64.b64encode`), taken as
   * given functions about which nothing is assumed.
   */
  datatype Crypto = Crypto(utf8: string -> seq<byte>,
                           hmacSha256: (seq<byte>, seq<byte>) -> seq<byte>,
                           base64: seq<byte> -> string)

  /** `OKX_API_KEY`, `OKX_API_SECRET` and `OKX_API_PASSPHRASE` from the environment. */
  datatype Credentials = Credentials(apiKey: string, secret: string, passphrase: string)

  const HOST := "https://www.okx.com"
  const DETAIL_PATH := "/api/v5/affiliate/invitee/detail?uid="

  const KEY_HEADER := "OK-ACCESS-KEY"
  const SIGN_HEADER := "OK-ACCESS-SIGN"
  const TIMESTAMP_HEADER := "OK-ACCESS-TIMESTAMP"
  const PASSPHRASE_HEADER := "OK-ACCESS-PASSPHRASE"

  /** Base64 of the HMAC-SHA256 of `message` keyed with `secret`. */
  function Signature(c: Crypto, secret: string, message: string): string {
    c.base64(c.hmacSha256(c.utf8(secret), c.utf8(message)))
  }

  /** The string OKX signs: `timestamp + method + requestPath + body`. */
  function PreHash(timestamp: string, httpMethod: string, path: string, body: string): string {
    timestamp + httpMethod + path + body
  }

  /** A 24-character timestamp can be split back off the front of the pre-hash string. */
  lemma PreHashSplits(timestamp: string, httpMethod: string, path: string, body: string)
    requires |timestamp| == 24
    ensures var message := PreHash(timestamp, httpMethod, path, body);
            message[..24] == timestamp && message[24..] == httpMethod + path + body
  {
    var rest := httpMethod + path + body;
    assert PreHash(timestamp, httpMethod, path, body) == timestamp + rest;
  }

  /** What `sign_okx` returns: the timestamp it used and the signature. */
  datatype Signed = Signed(timestamp: string, signature: string)

  /**
   * `sign_okx(method, path, body)` with `httpMethod` for `method`: fetch the timestamp (the exchange's clock,
   * or `clockUs` when its reply is unusable) and sign
   * `timestamp + httpMethod + path + body` with it.
   */
  function SignOkx(c: Crypto, secret: string, time: TimeReply, clockUs: int,
                   httpMethod: string, path: string, body: string): (r: Signed)
    requires InRange(clockUs)
    // The timestamp is 24 characters and reads back as the exchange's clock, or the local one.
    ensures |r.timestamp| == 24
    ensures var ms := ServerMillis(time);
            ParseIso(r.timestamp) == if ms.Some? && InRange(ms.value * 1000) then ms else Some(clockUs / 1000)
    // The signed message starts with that same timestamp, followed by method, path and body.
    ensures exists message :: r.signature == Signature(c, secret, message)
              && |message| >= 24 && message[..24] == r.timestamp
              && message[24..] == httpMethod + path + body
  {
    var timestamp := ServerTimeIso(time, clockUs);
    ServerTimeMeaning(time, clockUs);
    var message := PreHash(timestamp, httpMethod, path, body);
    PreHashSplits(timestamp, httpMethod, path, body);
    Signed(timestamp, Signature(c, secret, message))
  }

  /** An outgoing HTTP request: method, full URL and headers in insertion order. */
  datatype Request = Request(httpMethod: string, url: string, headers: seq<(string, string)>)

  /** The value of the first header called `name`. */
  function Header(headers: seq<(string, string)>, name: string): Option<string>
  {
    if headers == [] then None
    else if headers[0].0 == name then Some(headers[0].1)
    else Header(headers[1..], name)
  }

  /** The header at `i` is what `Header` finds when no earlier header has its name. */
  lemma {:induction false} HeaderAt(headers: seq<(string, string)>, i: nat)
    requires i < |headers|
    requires forall j :: 0 <= j < i ==> headers[j].0 != headers[i].0
    ensures Header(headers, headers[i].0) == Some(headers[i].1)
  {
    if i > 0 {
      HeaderAt(headers[1..], i - 1);
    }
  }

  /**
   * The exchange's side of the protocol: the key and passphrase are the
   * account's, the timestamp header is a well-formed timestamp, and the
   * signature header is the signature of that timestamp, the method, the
   * request path with its query (the URL after the host) and an empty body.
   */
  predicate Authenticates(c: Crypto, creds: Credentials, req: Request) {
    && |HOST| <= |req.url| && req.url[..|HOST|] == HOST
    && Header(req.headers, KEY_HEADER) == Some(creds.apiKey)
    && Header(req.headers, PASSPHRASE_HEADER) == Some(creds.passphrase)
    && var ts := Header(req.headers, TIMESTAMP_HEADER);
    && ts.Some? && ParseIso(ts.value).Some?
    && Header(req.headers, SIGN_HEADER)
         == Some(Signature(c, creds.secret, PreHash(ts.value, req.httpMethod, req.url[|HOST|..], "")))
  }

  /** The `uid` an invitee-detail URL asks about, or `None` for any other URL. */
  function RequestedUid(url: string): Option<string> {
    var prefix := HOST + DETAIL_PATH;
    if |prefix| <= |url| && url[..|prefix|] == prefix then Some(url[|prefix|..]) else None
  }

  /** The headers `okx_affiliate_detail` sends, in the order it builds them. */
  function SignedHeaders(creds: Credentials, signed: Signed): (headers: seq<(string, string)>)
    ensures Header(headers, KEY_HEADER) == Some(creds.apiKey)
    ensures Header(headers, SIGN_HEADER) == Some(signed.signature)
    ensures Header(headers, TIMESTAMP_HEADER) == Some(signed.timestamp)
    ensures Header(headers, PASSPHRASE_HEADER) == Some(creds.passphrase)
  {
    var headers := [(KEY_HEADER, creds.apiKey),
                    (SIGN_HEADER, signed.signature),
                    (TIMESTAMP_HEADER, signed.timestamp),
                    (PASSPHRASE_HEADER, creds.passphrase),
                    ("Content-Type", "application/json")];
    assert |KEY_HEADER| == 13 && |SIGN_HEADER| == 14;
    assert |TIMESTAMP_HEADER| == 19 && |PASSPHRASE_HEADER| == 20;
    HeaderAt(headers, 0);
    HeaderAt(headers, 1);
    HeaderAt(headers, 2);
    HeaderAt(headers, 3);
    headers
  }

  /** The invitee-detail URL for `uid` is the host followed by the signed path, and names `uid`. */
  lemma DetailUrl(uid: string)
    ensures var url := HOST + (DETAIL_PATH + uid);
            |HOST| <= |url| && url[..|HOST|] == HOST && url[|HOST|..] == DETAIL_PATH + uid
            && RequestedUid(url) == Some(uid)
  {
    var url := HOST + (DETAIL_PATH + uid);
    assert (HOST + DETAIL_PATH) + uid == url;
  }

  /** `okx_affiliate_detail(uid)` up to the point where the request is sent. */
  function DetailRequest(c: Crypto, creds: Credentials, time: TimeReply, clockUs: int,
                         uid: string): (req: Request)
    requires InRange(clockUs)
    ensures req.httpMethod == "GET" && RequestedUid(req.url) == Some(uid)
    ensures Authenticates(c, creds, req)
    ensures Header(req.headers, TIMESTAMP_HEADER) == Some(ServerTimeIso(time, clockUs))
  {
    ServerTimeMeaning(time, clockUs);
    var path := DETAIL_PATH + uid;
    DetailUrl(uid);
    var signed := SignOkx(c, creds.secret, time, clockUs, "GET", path, "");
    Request("GET", HOST + path, SignedHeaders(creds, signed))
  }
}
