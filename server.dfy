/**
 * The `/check` endpoint of server.js as a decision function: which URLs
 * `getUrls` scrapes from the certificate, how the OCSP callback's arguments are
 * classified, and in which order the handler reaches each outcome. The effects
 * of the original (reading the upload, the downloads, `res.send`) become inputs
 * and a returned response.
 */
module Server {
  import opened Options
  import opened JsText
  import opened UrlPatterns

  // ---------------------------------------------------------------------
  // getUrls

  /** What `getUrls` returns, after destructuring: `null` (or a missing key) is None. */
  datatype Urls = Urls(issuerUrl: Option<string>, ocspUrl: Option<string>)

  /** `s.match(p)` followed by `[0]`: the matched text, or None for `null`. */
  function MatchText(p: Pattern, s: string): (r: Option<string>)
    ensures r.Some? <==> Occurs(p, s)
    ensures r.Some? ==> exists sp :: LeftmostLongest(p, s, sp) && r.value == s[sp.start..sp.end]
  {
    match Exec(p, s)
    case None => None
    case Some(sp) => Some(s[sp.start..sp.end])
  }

  /**
   * `getUrls(cert)`. Its argument is the value of the certificate's
   * `authorityInfoAccess` extension, or None when the certificate has none
   * (the lookup itself belongs to node-forge). Without the extension both URLs
   * are absent; otherwise each is the text of the leftmost-longest match of its
   * pattern in the extension value, and absent exactly when the pattern
   * matches nowhere in it.
   */
  function GetUrls(aia: Option<string>): (r: Urls)
    ensures aia.None? ==> r.issuerUrl.None? && r.ocspUrl.None?
    ensures aia.Some? ==> (r.issuerUrl.Some? <==> Occurs(IssuerDer, aia.value))
    ensures aia.Some? ==> (r.ocspUrl.Some? <==> Occurs(OcspUrl, aia.value))
    ensures r.issuerUrl.Some? ==> aia.Some? && exists sp ::
      LeftmostLongest(IssuerDer, aia.value, sp) && r.issuerUrl.value == aia.value[sp.start..sp.end]
    ensures r.ocspUrl.Some? ==> aia.Some? && exists sp ::
      LeftmostLongest(OcspUrl, aia.value, sp) && r.ocspUrl.value == aia.value[sp.start..sp.end]
  {
    match aia
    case None => Urls(None, None)
    case Some(value) => Urls(MatchText(IssuerDer, value), MatchText(OcspUrl, value))
  }

  /** JavaScript truthiness of a string that may be `null`: `null` and `""` are falsy. */
  function Truthy(u: Option<string>): (b: bool)
    ensures !b <==> u == None || u == Some("")
  {
    u.Some? && u.value != ""
  }

  /** A URL that `getUrls` found is never the empty string, so the handler's `!issuerUrl || !ocspUrl` test is a test for absence. */
  lemma {:induction false} FoundUrlsAreTruthy(aia: Option<string>)
    ensures Truthy(GetUrls(aia).issuerUrl) <==> GetUrls(aia).issuerUrl.Some?
    ensures Truthy(GetUrls(aia).ocspUrl) <==> GetUrls(aia).ocspUrl.Some?
  {
    var r := GetUrls(aia);
    if r.issuerUrl.Some? {
      var sp :| LeftmostLongest(IssuerDer, aia.value, sp) && r.issuerUrl.value == aia.value[sp.start..sp.end];
      MatchLength(IssuerDer, r.issuerUrl.value);
    }
    if r.ocspUrl.Some? {
      var sp :| LeftmostLongest(OcspUrl, aia.value, sp) && r.ocspUrl.value == aia.value[sp.start..sp.end];
      MatchLength(OcspUrl, r.ocspUrl.value);
    }
  }

  // ---------------------------------------------------------------------
  // The OCSP callback

  /**
   * The arguments `ocsp.check` hands its callback: `err` is None when there is
   * no error, otherwise the error's `message` ("" when it has none, which is
   * falsy in JavaScript); `resultType` is `result.type`.
   */
  datatype OcspReply = OcspReply(err: Option<string>, resultType: string)

  /** What the user is told. */
  datatype Outcome =
    | MissingFile             // status 400, "Thiếu file P12"
    | InvalidFileOrPassword   // "Sai mật khẩu hoặc file không hợp lệ!"
    | UrlsNotFound            // "Không tìm thấy Issuer hoặc OCSP URL trong cert"
    | OcspCheckFailed         // "Không kiểm tra được OCSP"
    | Good
    | Revoked
    | Unknown

  /**
   * The callback's if/else chain. An error whose message contains "revoked"
   * (case-sensitive) is Revoked and any other error is a failed check; without
   * an error, type "good" is Good, "revoked" is Revoked and every other type is
   * Unknown.
   */
  function Classify(reply: OcspReply): (o: Outcome)
    ensures o in {OcspCheckFailed, Good, Revoked, Unknown}
    ensures o == Revoked <==>
      (reply.err.Some? && exists i :: OccursAt(reply.err.value, "revoked", i))
      || (reply.err.None? && reply.resultType == "revoked")
    ensures o == OcspCheckFailed <==>
      reply.err.Some? && forall i :: !OccursAt(reply.err.value, "revoked", i)
    ensures o == Good <==> reply.err.None? && reply.resultType == "good"
    ensures o == Unknown <==> reply.err.None? && reply.resultType != "good" && reply.resultType != "revoked"
  {
    match reply.err
    case Some(message) =>
      if message != "" && Includes(message, "revoked") then Revoked else OcspCheckFailed
    case None =>
      if reply.resultType == "good" then Good
      else if reply.resultType == "revoked" then Revoked
      else Unknown
  }

  // ---------------------------------------------------------------------
  // The /check handler

  /** The upload: whether multer stored a `p12` file, and the `password` form field if sent. */
  datatype Request = Request(hasFile: bool, password: Option<string>)

  /** What `parseP12ToPem` yields: an exception, or the first certificate with its AIA extension value, if any. */
  datatype P12Result = P12Invalid | P12Cert(aia: Option<string>)

  /** The collaborators' answers for one request. */
  datatype Collaborators = Collaborators(p12: P12Result, issuerDownloadOk: bool, ocspReply: OcspReply)

  /** The calls the handler makes to collaborators, in order. */
  datatype Call =
    | ParseP12(password: string)
    | DownloadIssuer(url: string)
    | CheckOcsp(url: string)

  datatype Response = Response(status: nat, outcome: Outcome, calls: seq<Call>)

  /** `password || ""`: a falsy password (missing or empty) becomes the empty one; any other is kept. */
  function PasswordOrEmpty(password: Option<string>): (p: string)
    ensures p == "" <==> password == None || password == Some("")
    ensures p != "" ==> password == Some(p)
  {
    match password
    case None => ""
    case Some(p) => p
  }

  /** The handler's branch order: missing file, parse, URLs, download, OCSP. */
  function Handle(req: Request, env: Collaborators): (r: Response)
    ensures r.status == (if req.hasFile then 200 else 400)
    ensures !req.hasFile <==> r.calls == []
    ensures req.hasFile ==> r.calls[0] == ParseP12(PasswordOrEmpty(req.password))
  {
    if !req.hasFile then Response(400, MissingFile, [])
    else
      var parse := [ParseP12(PasswordOrEmpty(req.password))];
      match env.p12
      case P12Invalid => Response(200, InvalidFileOrPassword, parse)
      case P12Cert(aia) =>
        var urls := GetUrls(aia);
        if !Truthy(urls.issuerUrl) || !Truthy(urls.ocspUrl) then Response(200, UrlsNotFound, parse)
        else
          var download := parse + [DownloadIssuer(urls.issuerUrl.value)];
          if !env.issuerDownloadOk then Response(200, InvalidFileOrPassword, download)
          else Response(200, Classify(env.ocspReply), download + [CheckOcsp(urls.ocspUrl.value)])
  }

  /** Both URLs can be scraped from the certificate's AIA extension value. */
  ghost predicate UrlsFound(aia: Option<string>) {
    aia.Some? && Occurs(IssuerDer, aia.value) && Occurs(OcspUrl, aia.value)
  }

  /** A request without a file is answered with status 400 before anything is parsed or fetched. */
  lemma MissingFileFirst(req: Request, env: Collaborators)
    requires !req.hasFile
    ensures Handle(req, env) == Response(400, MissingFile, [])
  {
  }

  /**
   * Each outcome is reached under exactly one condition on the inputs; a
   * failure to parse the container or to download the issuer gives the same
   * outcome, and the OCSP outcomes are the classification of the callback.
   */
  lemma {:induction false} OutcomeConditions(req: Request, env: Collaborators)
    ensures Handle(req, env).outcome == MissingFile <==> !req.hasFile
    ensures Handle(req, env).outcome == InvalidFileOrPassword <==>
      req.hasFile && (env.p12.P12Invalid? || (UrlsFound(env.p12.aia) && !env.issuerDownloadOk))
    ensures Handle(req, env).outcome == UrlsNotFound <==>
      req.hasFile && env.p12.P12Cert? && !UrlsFound(env.p12.aia)
    ensures Handle(req, env).outcome in {OcspCheckFailed, Good, Revoked, Unknown} <==>
      req.hasFile && env.p12.P12Cert? && UrlsFound(env.p12.aia) && env.issuerDownloadOk
    ensures req.hasFile && env.p12.P12Cert? && UrlsFound(env.p12.aia) && env.issuerDownloadOk ==>
      Handle(req, env).outcome == Classify(env.ocspReply)
  {
    if env.p12.P12Cert? {
      FoundUrlsAreTruthy(env.p12.aia);
    }
  }

  /** When either URL is missing, neither the issuer download nor the OCSP check happens. */
  lemma {:induction false} NoFetchWithoutUrls(req: Request, env: Collaborators)
    requires req.hasFile && env.p12.P12Cert? && !UrlsFound(env.p12.aia)
    ensures Handle(req, env).outcome == UrlsNotFound
    ensures Handle(req, env).calls == [ParseP12(PasswordOrEmpty(req.password))]
  {
    FoundUrlsAreTruthy(env.p12.aia);
  }

  /**
   * The issuer is downloaded from the scraped issuer URL, and the OCSP check,
   * made against the scraped OCSP URL, happens only after that download
   * succeeded.
   */
  lemma {:induction false} FetchOrder(req: Request, env: Collaborators)
    requires req.hasFile && env.p12.P12Cert? && UrlsFound(env.p12.aia)
    ensures var urls := GetUrls(env.p12.aia);
      Handle(req, env).calls ==
        [ParseP12(PasswordOrEmpty(req.password)), DownloadIssuer(urls.issuerUrl.value)]
        + (if env.issuerDownloadOk then [CheckOcsp(urls.ocspUrl.value)] else [])
  {
    FoundUrlsAreTruthy(env.p12.aia);
  }
}
