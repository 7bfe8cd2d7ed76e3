/**
 * Rancher2 API credentials and the form checks of their descriptor
 * (Rancher2CredentialsImpl and Rancher2CredentialsImpl.DescriptorImpl).
 * A form check keeps only the kind of its FormValidation result.
 */
module Rancher2Credentials {
  import opened JavaText

  /** The kind of a FormValidation result; the message text is not modelled. */
  datatype Kind = Ok | Warning | Error

  /** What a stored credential exposes: the API endpoint, whether to trust
      its certificate, and the plain text of the bearer token. */
  datatype Credential = Credential(endpoint: string, trustCert: bool, bearerToken: string)

  const ApiVersionSuffix := "/v3"
  const HttpScheme := "http://"
  const HttpsScheme := "https://"
  const BearerPrefix := "Bearer"
  const ProjectsPath := "/projects"

  /** doCheckEndpoint.  `parsesAsUrl` stands for `new URL(value)` not
      throwing MalformedURLException. */
  function CheckEndpoint(value: Option<string>, parsesAsUrl: string -> bool): (k: Kind)
    ensures value.None? || value.value == [] ==> k == Error
    ensures k == Ok ==> value.Some? && parsesAsUrl(value.value)
  {
    if value.None? || value.value == [] then Error
    else if EndsWith(value.value, "/") then Error
    else if !EndsWith(value.value, ApiVersionSuffix) then Warning
    else if !StartsWith(value.value, HttpScheme) && !StartsWith(value.value, HttpsScheme) then Warning
    else if parsesAsUrl(value.value) then Ok
    else Error
  }

  /** The endpoint check errs exactly for a missing or empty endpoint, one
      with a trailing slash, or a well-placed `/v3` http(s) endpoint that is
      not a URL. */
  lemma CheckEndpointError(value: Option<string>, parsesAsUrl: string -> bool)
    ensures CheckEndpoint(value, parsesAsUrl) == Error <==>
      value.None? || value.value == [] || EndsWith(value.value, "/") ||
      (EndsWith(value.value, ApiVersionSuffix) &&
       (StartsWith(value.value, HttpScheme) || StartsWith(value.value, HttpsScheme)) &&
       !parsesAsUrl(value.value))
  {
  }

  /** The check accepts exactly an http(s) URL ending in `/v3`, and a
      trailing slash is reported before anything else. */
  lemma CheckEndpointOk(value: string, parsesAsUrl: string -> bool)
    ensures CheckEndpoint(Some(value), parsesAsUrl) == Ok <==>
      EndsWith(value, ApiVersionSuffix) && (StartsWith(value, HttpScheme) || StartsWith(value, HttpsScheme)) &&
      parsesAsUrl(value)
    ensures value != [] && EndsWith(value, "/") ==> CheckEndpoint(Some(value), parsesAsUrl) == Error
  {
    if EndsWith(value, ApiVersionSuffix) {
      assert value[|value| - 1] == '3';
    }
  }

  /** An endpoint that the check does not reject carries no trailing slash,
      so removing one trailing slash leaves it as it is. */
  lemma AcceptedEndpointHasNoTrailingSlash(value: string, parsesAsUrl: string -> bool)
    requires CheckEndpoint(Some(value), parsesAsUrl) != Error
    ensures value != [] && value[|value| - 1] != '/'
    ensures StripTrailingSlash(value) == value
  {
  }

  /** doCheckBearerToken. */
  function CheckBearerToken(value: Option<string>): (k: Kind)
    ensures k != Warning
  {
    if value.None? || value.value == [] then Error
    else if StartsWith(value.value, BearerPrefix) then Error
    else Ok
  }

  /** A token is accepted exactly when it is present, non-empty and not
      already prefixed with the scheme, so the header never repeats it. */
  lemma CheckBearerTokenOk(value: Option<string>)
    ensures CheckBearerToken(value) == Ok <==>
      value.Some? && value.value != [] && !StartsWith(value.value, BearerPrefix)
    ensures CheckBearerToken(value) == Ok ==>
      !StartsWith(Authorization(value.value), BearerPrefix + " " + BearerPrefix)
  {
    if CheckBearerToken(value) == Ok {
      var header := Authorization(value.value);
      assert |header| >= 13 ==> header[7..13] == value.value[..6];
    }
  }

  /** The value of the Authorization header sent with every request. */
  function Authorization(token: string): (header: string)
    ensures StartsWith(header, BearerPrefix + " ") && header[|BearerPrefix| + 1..] == token
  {
    BearerPrefix + " " + token
  }

  /** The endpoint with one trailing slash removed, if it has one. */
  function StripTrailingSlash(endpoint: string): (r: string)
    ensures EndsWith(endpoint, "/") ==> r + "/" == endpoint
    ensures !EndsWith(endpoint, "/") ==> r == endpoint
  {
    if EndsWith(endpoint, "/") then endpoint[..|endpoint| - 1] else endpoint
  }

  /** The URL doTestConnection probes. */
  function TestUrl(endpoint: string): (url: string)
    ensures url == StripTrailingSlash(endpoint) + ProjectsPath
    ensures EndsWith(url, ProjectsPath)
  {
    var url := endpoint + (if EndsWith(endpoint, "/") then "projects" else ProjectsPath);
    assert url[|url| - |ProjectsPath|..] == ProjectsPath;
    url
  }

  /** The form check whose error doTestConnection returns. */
  datatype Check = EndpointCheck | TokenCheck

  /** What doTestConnection does before any network traffic: return the
      first failing check, or go on to probe a URL with a header. */
  datatype Probe = Rejected(check: Check, kind: Kind) | Request(url: string, authorization: string)

  function TestConnection(endpoint: Option<string>, bearerToken: string, parsesAsUrl: string -> bool): (p: Probe)
    ensures p.Rejected? ==> p.kind == Error
    ensures p == Rejected(EndpointCheck, Error) <==> CheckEndpoint(endpoint, parsesAsUrl) == Error
    ensures p == Rejected(TokenCheck, Error) <==>
      CheckEndpoint(endpoint, parsesAsUrl) != Error && CheckBearerToken(Some(bearerToken)) == Error
    ensures p.Request? ==> endpoint.Some? && p.url == endpoint.value + ProjectsPath
    ensures p.Request? ==> p.authorization == Authorization(bearerToken)
  {
    var endpointCheck := CheckEndpoint(endpoint, parsesAsUrl);
    if endpointCheck == Error then Rejected(EndpointCheck, endpointCheck)
    else
      var tokenCheck := CheckBearerToken(Some(bearerToken));
      if tokenCheck == Error then Rejected(TokenCheck, tokenCheck)
      else
        AcceptedEndpointHasNoTrailingSlash(endpoint.value, parsesAsUrl);
        Request(TestUrl(endpoint.value), Authorization(bearerToken))
  }

  /** A warning from the endpoint check (no `/v3`, no http(s) scheme) does
      not stop the connection test; the token check decides. */
  lemma WarningStillProbes(endpoint: string, bearerToken: string, parsesAsUrl: string -> bool)
    requires CheckEndpoint(Some(endpoint), parsesAsUrl) == Warning
    ensures TestConnection(Some(endpoint), bearerToken, parsesAsUrl).Request? <==>
      bearerToken != [] && !StartsWith(bearerToken, BearerPrefix)
  {
  }
}
