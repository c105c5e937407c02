/**
 * The `onRequest` hook of the application: the CORS headers every response
 * gets, and the 204 answer that ends a preflight request.
 */
module App {
  import opened Wrappers

  /** The part of an incoming request the hook reads. */
  datatype IncomingRequest = IncomingRequest(httpMethod: string, origin: Option<string>)

  /** The two settings of the hook: the origin allow-list and the wildcard switch. */
  datatype CorsPolicy = CorsPolicy(allowedOrigins: seq<string>, allowAnyOriginWithoutCredentials: bool)

  /** The settings as deployed: one local frontend, no wildcard. */
  const DeployedPolicy := CorsPolicy(["http://localhost:51934"], false)

  const AllowOriginHeader := "Access-Control-Allow-Origin"
  const VaryHeader := "Vary"
  const AllowCredentialsHeader := "Access-Control-Allow-Credentials"
  const AllowMethodsHeader := "Access-Control-Allow-Methods"
  const AllowHeadersHeader := "Access-Control-Allow-Headers"
  const MaxAgeHeader := "Access-Control-Max-Age"

  const AllowedMethods := "GET, POST, PUT, DELETE, OPTIONS"
  const AllowedRequestHeaders := "Content-Type, Authorization"
  const MaxAgeSeconds := "86400"

  const PreflightStatus := 204

  /** The mutable Node response the hook writes to. */
  class ServerResponse {
    var headers: map<string, string>
    var statusCode: int
    var ended: bool

    constructor (statusCode: int)
      ensures headers == map[] && this.statusCode == statusCode && !ended
    {
      headers := map[];
      this.statusCode := statusCode;
      ended := false;
    }

    /** `res.setHeader(name, value)`: replaces any earlier value of that header. */
    method SetHeader(name: string, value: string)
      modifies this
      ensures headers == old(headers)[name := value]
      ensures statusCode == old(statusCode) && ended == old(ended)
    {
      headers := headers[name := value];
    }

    /** `res.end()` */
    method End()
      modifies this
      ensures ended
      ensures headers == old(headers) && statusCode == old(statusCode)
    {
      ended := true;
    }
  }

  /** `origin && allowedOrigins.includes(origin)`: an empty origin is falsy. */
  predicate OriginListed(policy: CorsPolicy, origin: Option<string>)
  {
    origin.Some? && origin.value != "" && origin.value in policy.allowedOrigins
  }

  /** The headers that depend on the request's origin. */
  function OriginHeaders(policy: CorsPolicy, origin: Option<string>): (h: map<string, string>)
    ensures h.Keys <= {AllowOriginHeader, VaryHeader, AllowCredentialsHeader}
    ensures AllowOriginHeader in h <==> policy.allowAnyOriginWithoutCredentials || OriginListed(policy, origin)
    ensures AllowCredentialsHeader in h <==> !policy.allowAnyOriginWithoutCredentials && OriginListed(policy, origin)
    ensures VaryHeader in h <==> AllowCredentialsHeader in h
    ensures AllowCredentialsHeader in h ==> h[AllowOriginHeader] == origin.value
  {
    if policy.allowAnyOriginWithoutCredentials then
      map[AllowOriginHeader := "*"]
    else if OriginListed(policy, origin) then
      map[AllowOriginHeader := origin.value, VaryHeader := "Origin", AllowCredentialsHeader := "true"]
    else
      map[]
  }

  /** The origin headers, then the three headers set on every request. */
  function CorsHeaders(policy: CorsPolicy, origin: Option<string>): (h: map<string, string>)
    ensures h.Keys <= {AllowOriginHeader, VaryHeader, AllowCredentialsHeader,
                       AllowMethodsHeader, AllowHeadersHeader, MaxAgeHeader}
    ensures AllowMethodsHeader in h && h[AllowMethodsHeader] == AllowedMethods
    ensures AllowHeadersHeader in h && h[AllowHeadersHeader] == AllowedRequestHeaders
    ensures MaxAgeHeader in h && h[MaxAgeHeader] == MaxAgeSeconds
  {
    OriginHeaders(policy, origin)[AllowMethodsHeader := AllowedMethods]
                                 [AllowHeadersHeader := AllowedRequestHeaders]
                                 [MaxAgeHeader := MaxAgeSeconds]
  }

  /** Setting a header after merging is merging a map that already holds it. */
  lemma MergeThenSet(m: map<string, string>, extra: map<string, string>, name: string, value: string)
    ensures (m + extra)[name := value] == m + extra[name := value]
  {
  }

  /**
   * The hook. It adds the CORS headers to whatever the response already
   * holds; a preflight (`OPTIONS`) request is then answered with 204 and
   * ended, any other request is left to the RPC router.
   */
  method OnRequest(policy: CorsPolicy, req: IncomingRequest, res: ServerResponse)
    modifies res
    ensures res.headers == old(res.headers) + CorsHeaders(policy, req.origin)
    ensures req.httpMethod == "OPTIONS" ==> res.statusCode == PreflightStatus && res.ended
    ensures req.httpMethod != "OPTIONS" ==> res.statusCode == old(res.statusCode) && res.ended == old(res.ended)
  {
    ghost var before := res.headers;
    var origin := req.origin;
    if policy.allowAnyOriginWithoutCredentials {
      res.SetHeader(AllowOriginHeader, "*");
      MergeThenSet(before, map[], AllowOriginHeader, "*");
    } else if origin.Some? && origin.value != "" && origin.value in policy.allowedOrigins {
      res.SetHeader(AllowOriginHeader, origin.value);
      MergeThenSet(before, map[], AllowOriginHeader, origin.value);
      res.SetHeader(VaryHeader, "Origin");
      MergeThenSet(before, map[AllowOriginHeader := origin.value], VaryHeader, "Origin");
      res.SetHeader(AllowCredentialsHeader, "true");
      MergeThenSet(before, map[AllowOriginHeader := origin.value, VaryHeader := "Origin"], AllowCredentialsHeader, "true");
    } else {
      assert before + map[] == before;
    }
    ghost var originHeaders := OriginHeaders(policy, req.origin);
    assert res.headers == before + originHeaders;

    res.SetHeader(AllowMethodsHeader, AllowedMethods);
    MergeThenSet(before, originHeaders, AllowMethodsHeader, AllowedMethods);
    res.SetHeader(AllowHeadersHeader, AllowedRequestHeaders);
    MergeThenSet(before, originHeaders[AllowMethodsHeader := AllowedMethods], AllowHeadersHeader, AllowedRequestHeaders);
    res.SetHeader(MaxAgeHeader, MaxAgeSeconds);
    MergeThenSet(before, originHeaders[AllowMethodsHeader := AllowedMethods][AllowHeadersHeader := AllowedRequestHeaders],
                 MaxAgeHeader, MaxAgeSeconds);

    if req.httpMethod == "OPTIONS" {
      res.statusCode := PreflightStatus;
      res.End();
      return;
    }
  }

  // ---------------------------------------------------------------- the policy's guarantees

  /**
   * Without the wildcard, credentials are allowed exactly for a listed
   * origin, and then the response names that origin and varies on it.
   */
  lemma CredentialsExactlyForListedOrigin(policy: CorsPolicy, origin: Option<string>)
    requires !policy.allowAnyOriginWithoutCredentials
    ensures var h := CorsHeaders(policy, origin);
            && (AllowCredentialsHeader in h <==> OriginListed(policy, origin))
            && (AllowOriginHeader in h <==> OriginListed(policy, origin))
            && (OriginListed(policy, origin) ==>
                  h[AllowOriginHeader] == origin.value && h[VaryHeader] == "Origin"
                  && h[AllowCredentialsHeader] == "true")
  {
    var h := CorsHeaders(policy, origin);
    assert AllowCredentialsHeader != AllowMethodsHeader && AllowCredentialsHeader != MaxAgeHeader;
    assert AllowOriginHeader != AllowMethodsHeader && AllowOriginHeader != AllowHeadersHeader;
  }

  /** The wildcard switch allows every origin with `*` and never allows credentials. */
  lemma WildcardNeverAllowsCredentials(policy: CorsPolicy, origin: Option<string>)
    requires policy.allowAnyOriginWithoutCredentials
    ensures var h := CorsHeaders(policy, origin);
            && AllowOriginHeader in h && h[AllowOriginHeader] == "*"
            && AllowCredentialsHeader !in h && VaryHeader !in h
  {
    assert AllowCredentialsHeader != AllowMethodsHeader && AllowCredentialsHeader != MaxAgeHeader;
    assert VaryHeader != AllowMethodsHeader && VaryHeader != AllowHeadersHeader;
  }

  /**
   * As long as `*` is not itself on the allow-list, a response that allows
   * credentials never allows every origin.
   */
  lemma NoCredentialsWithWildcardOrigin(policy: CorsPolicy, origin: Option<string>)
    requires "*" !in policy.allowedOrigins
    ensures var h := CorsHeaders(policy, origin);
            AllowCredentialsHeader in h ==> AllowOriginHeader in h && h[AllowOriginHeader] != "*"
  {
    if policy.allowAnyOriginWithoutCredentials {
      WildcardNeverAllowsCredentials(policy, origin);
    } else {
      CredentialsExactlyForListedOrigin(policy, origin);
    }
  }

  /** As deployed, only the local frontend origin is ever named in a response. */
  lemma DeployedPolicyAllowsOnlyLocalFrontend(origin: Option<string>)
    ensures var h := CorsHeaders(DeployedPolicy, origin);
            AllowOriginHeader in h <==> origin == Some("http://localhost:51934")
  {
    CredentialsExactlyForListedOrigin(DeployedPolicy, origin);
  }
}
