/** The API client's two interceptors: the request transform that attaches the bearer token
    and the CSRF header to every outgoing request, and the response observer that forgets the
    stored token when the server answers 401 or 403. The browser's `localStorage` is the
    client's `storage` field; `document.cookie` is a parameter of each request. */
module ApiClient {
  import opened JsStrings
  import Cookies

  datatype Option<T> = None | Some(value: T)

  /** The `localStorage` key under which the session token is kept. */
  const TokenKey: string := "token"

  /** The header carrying the session token, in the form `Bearer <token>` of section 2.1 of RFC 6750. */
  const AuthorizationHeader: string := "Authorization"
  const BearerPrefix: string := "Bearer "

  /** The header echoing the CSRF cookie back to the server. */
  const CsrfHeader: string := "X-CSRFToken"

  /** The two statuses that end the session: 401 Unauthorized and 403 Forbidden
      (sections 15.5.2 and 15.5.4 of RFC 9110). */
  const Unauthorized: int := 401
  const Forbidden: int := 403

  type Headers = map<string, string>

  /** The part of an outgoing request the interceptor sees; only the headers are ever changed. */
  datatype RequestConfig = RequestConfig(verb: string, url: string, body: string, headers: Headers)

  /** A server answer; its body is opaque to the interceptors. */
  datatype Response = Response(status: int, body: string)

  /** A failed request: `response` is absent when no answer arrived (a network failure). */
  datatype RequestError = RequestError(response: Option<Response>, message: string)

  /** How a promise in the pipeline settles. */
  datatype Settled<T> = Fulfilled(value: T) | Rejected(error: RequestError)

  /** `error.response?.status === 401 || error.response?.status === 403`. */
  predicate IsAuthFailure(error: RequestError) {
    error.response.Some? &&
    (error.response.value.status == Unauthorized || error.response.value.status == Forbidden)
  }

  /** The headers the request interceptor leaves behind, given the stored token and the CSRF
      value read from the cookies. A truthy token sets `Authorization` to `Bearer <token>`, a
      truthy CSRF value sets `X-CSRFToken` to it; a falsy one (null, undefined or empty)
      leaves that header as it was, and no other header is touched. */
  function SessionHeaders(headers: Headers, token: JsValue, csrf: JsValue): (out: Headers)
    ensures Truthy(token) ==>
      AuthorizationHeader in out && out[AuthorizationHeader] == BearerPrefix + token.s
    ensures !Truthy(token) ==>
      && (AuthorizationHeader in out <==> AuthorizationHeader in headers)
      && (AuthorizationHeader in headers ==> out[AuthorizationHeader] == headers[AuthorizationHeader])
    ensures Truthy(csrf) ==> CsrfHeader in out && out[CsrfHeader] == csrf.s
    ensures !Truthy(csrf) ==>
      && (CsrfHeader in out <==> CsrfHeader in headers)
      && (CsrfHeader in headers ==> out[CsrfHeader] == headers[CsrfHeader])
    ensures out - {AuthorizationHeader, CsrfHeader} == headers - {AuthorizationHeader, CsrfHeader}
  {
    var signed := if Truthy(token) then headers[AuthorizationHeader := BearerPrefix + token.s] else headers;
    if Truthy(csrf) then signed[CsrfHeader := csrf.s] else signed
  }

  /** Passing a request through the interceptor a second time, with the same token and
      cookies, changes nothing more. */
  lemma SessionHeadersIdempotent(headers: Headers, token: JsValue, csrf: JsValue)
    ensures SessionHeaders(SessionHeaders(headers, token, csrf), token, csrf)
         == SessionHeaders(headers, token, csrf)
  {
  }

  /** The API client, seen through the browser storage its interceptors read and clear. */
  class Client {
    /** The contents of `localStorage`. */
    var storage: map<string, string>

    constructor (storage: map<string, string>)
      ensures this.storage == storage
    {
      this.storage := storage;
    }

    /** `localStorage.getItem('token')`: the stored string, or `null`. */
    function StoredToken(): JsValue
      reads this
    {
      if TokenKey in storage then Str(storage[TokenKey]) else Null
    }

    /** The request interceptor: reads the token and the CSRF cookie afresh, writes the two
        headers when they are truthy (the CSRF header twice, as the source does), and returns
        the same configuration otherwise unchanged. It changes no stored state. */
    method OnRequest(config: RequestConfig, cookie: string) returns (out: RequestConfig)
      ensures out == config.(headers := SessionHeaders(config.headers, StoredToken(), Cookies.CsrfToken(cookie)))
    {
      var token := StoredToken();
      var csrfToken := Cookies.GetCSRFToken(cookie);
      var headers := config.headers;
      if Truthy(token) {
        headers := headers[AuthorizationHeader := BearerPrefix + token.s];
      }
      if Truthy(csrfToken) {
        headers := headers[CsrfHeader := csrfToken.s];
        headers := headers[CsrfHeader := csrfToken.s];
      }
      out := config.(headers := headers);
    }

    /** The request interceptor as registered: a configuration passes through `OnRequest`,
        an earlier failure is rejected again as the very same error. */
    method InterceptRequest(outcome: Settled<RequestConfig>, cookie: string) returns (r: Settled<RequestConfig>)
      ensures outcome.Rejected? ==> r == outcome
      ensures outcome.Fulfilled? ==>
        && r.Fulfilled?
        && r.value == outcome.value.(headers := SessionHeaders(outcome.value.headers, StoredToken(), Cookies.CsrfToken(cookie)))
    {
      match outcome
      case Fulfilled(config) =>
        var sent := OnRequest(config, cookie);
        r := Fulfilled(sent);
      case Rejected(error) =>
        r := Rejected(error);
    }

    /** The response interceptor's error branch: on 401 or 403 the token is removed from storage
        (and only the token); the error is rejected again unchanged in every case. */
    method OnResponseError(error: RequestError) returns (r: Settled<Response>)
      modifies this
      ensures r == Rejected(error)
      ensures IsAuthFailure(error) ==> StoredToken() == Null
      ensures !IsAuthFailure(error) ==> storage == old(storage)
      ensures storage - {TokenKey} == old(storage) - {TokenKey}
      ensures old(StoredToken()) == Null ==> storage == old(storage)
    {
      if IsAuthFailure(error) {
        storage := storage - {TokenKey};
      }
      r := Rejected(error);
    }

    /** The response interceptor as registered: a success passes through untouched and leaves
        storage alone; a failure goes through `OnResponseError`. The caller always receives
        what the server produced. */
    method InterceptResponse(outcome: Settled<Response>) returns (r: Settled<Response>)
      modifies this
      ensures r == outcome
      ensures storage ==
        if outcome.Rejected? && IsAuthFailure(outcome.error) then old(storage) - {TokenKey} else old(storage)
    {
      match outcome
      case Fulfilled(response) =>
        r := Fulfilled(response);
      case Rejected(error) =>
        r := OnResponseError(error);
    }
  }

  /** A signed-in user with a CSRF cookie `csrftoken=<csrf>`: `POST fund/wallet` leaves
      with `Authorization: Bearer <token>` and `X-CSRFToken: <csrf>`. */
  method SignedInRequest(token: string, csrf: string)
    requires token != "" && csrf != ""
    requires ';' !in csrf && '=' !in csrf && !IsWhiteSpace(csrf[|csrf| - 1])
  {
    var client := new Client(map[TokenKey := token]);
    var config := RequestConfig("post", "fund/wallet", "{\"amount\":100}", map[]);
    var cookie := Cookies.CsrfCookieName + "=" + csrf;
    Cookies.SinglePair(Cookies.CsrfCookieName, csrf);
    var sent := client.OnRequest(config, cookie);
    assert sent.headers[AuthorizationHeader] == BearerPrefix + token;
    assert sent.headers[CsrfHeader] == csrf;
  }

  /** Without a session: `GET wallet/details` leaves without `Authorization`, the server
      answers 401, the session stays absent and the caller receives the 401. */
  method SignedOutRequest(cookie: string) {
    var client := new Client(map[]);
    var config := RequestConfig("get", "wallet/details", "", map[]);
    var sent := client.OnRequest(config, cookie);
    assert AuthorizationHeader !in sent.headers;
    var failure := RequestError(Some(Response(Unauthorized, "")), "Request failed with status code 401");
    var received := client.InterceptResponse(Rejected(failure));
    assert received == Rejected(failure);
    assert client.StoredToken() == Null;
  }

  /** A signed-in session ends with the first 403, whichever request drew it; the rest of
      storage survives, and the next request leaves without a new `Authorization`. */
  method ForbiddenEndsSession(storage: map<string, string>, later: RequestConfig, cookie: string)
    requires TokenKey in storage
  {
    var client := new Client(storage);
    var failure := RequestError(Some(Response(Forbidden, "")), "Request failed with status code 403");
    var received := client.InterceptResponse(Rejected(failure));
    assert client.StoredToken() == Null;
    assert client.storage == storage - {TokenKey};
    var sent := client.OnRequest(later, cookie);
    assert sent.headers - {CsrfHeader} == later.headers - {CsrfHeader};
  }
}
