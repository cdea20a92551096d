/**
 * Applying a resolved credential to an outgoing HTTP request: the
 * Authorization header for HTTP Basic and Bearer, or the API key in a header,
 * the query, the URL path template or the JSON body.
 */
module SecurityResolve {
  import opened Common
  import opened SecurityConfig
  import opened JsonBody
  import Base64
  import Utf8

  datatype ResolveError =
    | InvalidSecurityConfiguration(message: string)
      /** `serde_json` panicked indexing a body that is neither an object nor null (a guest trap). */
    | IndexPanic(key: string, found: string)

  /** The JSON parser and serialiser of the body, supplied from outside the model. */
  datatype JsonCodec = JsonCodec(
    parse: seq<byte> -> Result<Json, string>,
    serialize: Json -> Result<seq<byte>, string>)

  /** The fields of an outgoing request that security resolution reads or writes. */
  datatype Request = Request(
    url: string,
    headers: map<string, seq<string>>,
    query: map<string, seq<string>>,
    body: Option<seq<byte>>,
    security: Option<string>)

  // ---------------------------------------------------------------------------
  // Replacing a path template

  predicate OccursAt(s: string, pat: string, i: nat)
  {
    i + |pat| <= |s| && s[i..i + |pat|] == pat
  }

  predicate Contains(s: string, pat: string)
  {
    exists i: nat | i <= |s| :: OccursAt(s, pat, i)
  }

  /** Every non-overlapping occurrence of `pat`, scanning left to right, replaced by `rep` (Rust's `str::replace`). */
  function ReplaceAll(s: string, pat: string, rep: string): string
    requires |pat| > 0
    decreases |s|
  {
    if |s| < |pat| then s
    else if s[..|pat|] == pat then rep + ReplaceAll(s[|pat|..], pat, rep)
    else [s[0]] + ReplaceAll(s[1..], pat, rep)
  }

  /** A URL without the template is left as it is. */
  lemma {:induction false} ReplaceAllAbsent(s: string, pat: string, rep: string)
    requires |pat| > 0 && !Contains(s, pat)
    ensures ReplaceAll(s, pat, rep) == s
    decreases |s|
  {
    if |s| >= |pat| {
      assert !OccursAt(s, pat, 0);
      assert s[..|pat|] != pat;
      assert !Contains(s[1..], pat) by {
        forall i: nat | i <= |s[1..]| ensures !OccursAt(s[1..], pat, i) {
          assert !OccursAt(s, pat, i + 1);
          if i + |pat| <= |s[1..]| {
            assert s[1..][i..i + |pat|] == s[i + 1..i + 1 + |pat|];
          }
        }
      }
      ReplaceAllAbsent(s[1..], pat, rep);
      assert s == [s[0]] + s[1..];
    }
  }

  /** Replacing the template by itself changes nothing. */
  lemma {:induction false} ReplaceAllSelf(s: string, pat: string)
    requires |pat| > 0
    ensures ReplaceAll(s, pat, pat) == s
    decreases |s|
  {
    if |s| >= |pat| {
      if s[..|pat|] == pat {
        ReplaceAllSelf(s[|pat|..], pat);
        assert s == s[..|pat|] + s[|pat|..];
      } else {
        ReplaceAllSelf(s[1..], pat);
        assert s == [s[0]] + s[1..];
      }
    }
  }

  /**
   * The pieces of `s` between the leftmost non-overlapping occurrences of
   * `pat`, found by the same left-to-right scan as `ReplaceAll`. The first
   * piece is a prefix of `s`.
   */
  function SplitOn(s: string, pat: string): (r: seq<string>)
    requires |pat| > 0
    ensures |r| >= 1 && |r[0]| <= |s| && r[0] == s[..|r[0]|]
    decreases |s|
  {
    if |s| < |pat| then [s]
    else if s[..|pat|] == pat then [""] + SplitOn(s[|pat|..], pat)
    else
      var r := SplitOn(s[1..], pat);
      assert [s[0]] + r[0] == s[..|r[0]| + 1];
      [[s[0]] + r[0]] + r[1..]
  }

  /** Growing the first piece grows the joined text by the same prefix. */
  lemma JoinPrepend(x: string, r: seq<string>, sep: string)
    requires |r| >= 1
    ensures Join([x + r[0]] + r[1..], sep) == x + Join(r, sep)
  {
    var parts := [x + r[0]] + r[1..];
    if |r| > 1 {
      assert parts[1..] == r[1..];
    }
  }

  /** Putting the template back between the pieces gives the original text. */
  lemma {:induction false} SplitOnJoin(s: string, pat: string)
    requires |pat| > 0
    ensures Join(SplitOn(s, pat), pat) == s
    decreases |s|
  {
    if |s| >= |pat| {
      if s[..|pat|] == pat {
        var r := SplitOn(s[|pat|..], pat);
        SplitOnJoin(s[|pat|..], pat);
        assert ([""] + r)[1..] == r;
        assert s == pat + s[|pat|..];
      } else {
        var r := SplitOn(s[1..], pat);
        SplitOnJoin(s[1..], pat);
        JoinPrepend([s[0]], r, pat);
        assert s == [s[0]] + s[1..];
      }
    }
  }

  /** A piece that does not start the template and whose tail holds none holds none. */
  lemma PrependNotContains(s: string, y: string, pat: string)
    requires |pat| > 0 && |s| >= |pat| && s[..|pat|] != pat
    requires |y| < |s| && [s[0]] + y == s[..|y| + 1] && !Contains(y, pat)
    ensures !Contains([s[0]] + y, pat)
  {
    var x := [s[0]] + y;
    forall i: nat | i <= |x| ensures !OccursAt(x, pat, i) {
      if i == 0 {
        if |pat| <= |x| {
          assert x[..|pat|] == s[..|pat|];
        }
      } else if i + |pat| <= |x| {
        assert x[i..i + |pat|] == y[i - 1..i - 1 + |pat|];
        assert !OccursAt(y, pat, i - 1);
      }
    }
  }

  /** No piece holds the template: every occurrence was a split point. */
  lemma {:induction false} SplitOnPieces(s: string, pat: string)
    requires |pat| > 0
    ensures forall i | 0 <= i < |SplitOn(s, pat)| :: !Contains(SplitOn(s, pat)[i], pat)
    decreases |s|
  {
    var parts := SplitOn(s, pat);
    if |s| < |pat| {
      assert !Contains(s, pat);
    } else if s[..|pat|] == pat {
      var r := SplitOn(s[|pat|..], pat);
      SplitOnPieces(s[|pat|..], pat);
      forall i | 0 <= i < |parts| ensures !Contains(parts[i], pat) {
        if i > 0 {
          assert parts[i] == r[i - 1];
        } else {
          assert !OccursAt("", pat, 0);
        }
      }
    } else {
      var r := SplitOn(s[1..], pat);
      SplitOnPieces(s[1..], pat);
      assert [s[0]] + r[0] == s[..|r[0]| + 1];
      PrependNotContains(s, r[0], pat);
      forall i | 0 <= i < |parts| ensures !Contains(parts[i], pat) {
        if i > 0 {
          assert parts[i] == r[i];
        }
      }
    }
  }

  /** Replacing every occurrence is putting `rep` between the pieces. */
  lemma {:induction false} ReplaceAllSplit(s: string, pat: string, rep: string)
    requires |pat| > 0
    ensures ReplaceAll(s, pat, rep) == Join(SplitOn(s, pat), rep)
    decreases |s|
  {
    if |s| >= |pat| {
      if s[..|pat|] == pat {
        var r := SplitOn(s[|pat|..], pat);
        ReplaceAllSplit(s[|pat|..], pat, rep);
        assert ([""] + r)[1..] == r;
      } else {
        var r := SplitOn(s[1..], pat);
        ReplaceAllSplit(s[1..], pat, rep);
        JoinPrepend([s[0]], r, rep);
      }
    }
  }

  // ---------------------------------------------------------------------------
  // The rewrite as a function of the request

  /** The Authorization value for HTTP Basic: "Basic " and the Base64 of "username:password" as UTF-8. */
  function BasicAuthorization(username: string, password: string): string
  {
    "Basic " + Base64.Encode(Utf8.Encode(username + ":" + password))
  }

  function Invalid(message: string): ResolveError
  {
    InvalidSecurityConfiguration(message)
  }

  /** The message naming the first path prefix that is not an object. */
  function NotObjectMessage(keys: seq<string>, d: nat): string
    requires d < |keys|
  {
    "Field values on path '/" + Join(keys[..d + 1], "/") + "' isn't object"
  }

  /** The new body bytes after writing the API key at the field path `name`. */
  function InjectIntoBody(body: Option<seq<byte>>, name: string, apikey: string, codec: JsonCodec): Result<seq<byte>, ResolveError>
  {
    match body
    case None => Failure(Invalid("Api key placement is set to body but the body is empty"))
    case Some(bytes) =>
      match codec.parse(bytes)
      case Failure(e) => Failure(Invalid("Failed to parse body: " + e))
      case Success(root) =>
        var keys := BodyKeys(name);
        if |keys| == 0 then Failure(Invalid("Invalid field name '" + name + "'"))
        else if !Indexable(root) then Failure(IndexPanic(keys[0], KindName(root)))
        else
          match Assign(root, keys, JString(apikey))
          case Failure(d) => Failure(Invalid(NotObjectMessage(keys, d)))
          case Success(newRoot) =>
            match codec.serialize(newRoot)
            case Failure(e) => Failure(Invalid("Failed to serialize body: " + e))
            case Success(out) => Success(out)
  }

  /** The request after applying the security entry it names, or the error that stops it. */
  function Resolve(smap: SecurityMap, req: Request, codec: JsonCodec): Result<Request, ResolveError>
  {
    match req.security
    case None => Success(req)
    case Some(id) =>
      if id !in smap then Failure(Invalid("Security configuration for " + id + " is missing"))
      else
        match smap[id]
        case ErrorEntry(err) => Failure(Invalid(FormatLines([err])))
        case SecurityEntry(Http(Basic(username, password))) =>
          Success(req.(headers := req.headers["Authorization" := [BasicAuthorization(username, password)]]))
        case SecurityEntry(Http(Bearer(_, token))) =>
          Success(req.(headers := req.headers["Authorization" := ["Bearer " + token]]))
        case SecurityEntry(ApiKey(placement, name, apikey, bodyType)) =>
          match placement
          case Header => Success(req.(headers := req.headers[name := [apikey]]))
          case Path => Success(req.(url := ReplaceAll(req.url, "{" + name + "}", apikey)))
          case Query => Success(req.(query := req.query[name := [apikey]]))
          case Body =>
            if bodyType.None? then Failure(Invalid("Missing body type"))
            else
              match InjectIntoBody(req.body, name, apikey, codec)
              case Failure(e) => Failure(e)
              case Success(b) => Success(req.(body := Some(b)))
  }

  // ---------------------------------------------------------------------------
  // Properties of the rewrite

  /** The three outcomes that rewrite nothing: no security named, an unknown id, a deferred error. */
  lemma ResolveRefusals(smap: SecurityMap, req: Request, codec: JsonCodec)
    ensures req.security.None? ==> Resolve(smap, req, codec) == Success(req)
    ensures req.security.Some? && req.security.value !in smap ==>
      Resolve(smap, req, codec) ==
        Failure(InvalidSecurityConfiguration("Security configuration for " + req.security.value + " is missing"))
    ensures req.security.Some? && req.security.value in smap && smap[req.security.value].ErrorEntry? ==>
      var err := smap[req.security.value].error;
      Resolve(smap, req, codec) == Failure(InvalidSecurityConfiguration(FormatLines([err])))
      && FormatLines([err]) == "Value for " + err.id + " is misconfigured. Expected " + err.expected + "\n"
  {
  }

  /** A successful rewrite changes at most one of url, headers, query and body, and never the security id. */
  lemma ResolveTouchesOneField(smap: SecurityMap, req: Request, codec: JsonCodec)
    requires Resolve(smap, req, codec).Success?
    ensures var r := Resolve(smap, req, codec).value;
      && r.security == req.security
      && ((r.headers == req.headers && r.query == req.query && r.body == req.body)
       || (r.url == req.url && r.query == req.query && r.body == req.body)
       || (r.url == req.url && r.headers == req.headers && r.body == req.body)
       || (r.url == req.url && r.headers == req.headers && r.query == req.query))
  {
  }

  /** The header written for an entry, if its scheme writes one. */
  lemma ResolveHeaders(smap: SecurityMap, req: Request, codec: JsonCodec)
    requires req.security.Some? && req.security.value in smap && smap[req.security.value].SecurityEntry?
    ensures var s := smap[req.security.value].security;
      var r := Resolve(smap, req, codec);
      && (s.Http? && s.http.Basic? ==>
            r == Success(req.(headers := req.headers["Authorization" := [BasicAuthorization(s.http.username, s.http.password)]])))
      && (s.Http? && s.http.Bearer? ==>
            r == Success(req.(headers := req.headers["Authorization" := ["Bearer " + s.http.token]])))
      && (s.ApiKey? && s.placement == Header ==> r == Success(req.(headers := req.headers[s.name := [s.apikey]])))
      && (s.ApiKey? && s.placement == Query ==> r == Success(req.(query := req.query[s.name := [s.apikey]])))
      && (s.ApiKey? && s.placement == Path ==>
            r == Success(req.(url := ReplaceAll(req.url, "{" + s.name + "}", s.apikey))))
      && (s.ApiKey? && s.placement == Body && s.bodyType.None? ==>
            r == Failure(InvalidSecurityConfiguration("Missing body type")))
  {
  }

  /** The Basic credentials decode back to the UTF-8 bytes of "username:password". */
  lemma BasicAuthorizationDecodes(username: string, password: string)
    ensures var v := BasicAuthorization(username, password);
      |v| >= 6 && v[..6] == "Basic " &&
      Base64.Decode(v[6..]) == Some(Utf8.Encode(username) + Utf8.Encode(":") + Utf8.Encode(password))
  {
    var bytes := Utf8.Encode(username + ":" + password);
    PrefixSplit("Basic ", Base64.Encode(bytes));
    Base64.DecodeEncode(bytes);
    CredentialBytes(username, password);
  }

  lemma CredentialBytes(username: string, password: string)
    ensures Utf8.Encode(username + ":" + password) == Utf8.Encode(username) + Utf8.Encode(":") + Utf8.Encode(password)
  {
    Utf8.EncodeConcat(username + ":", password);
    Utf8.EncodeConcat(username, ":");
  }

  lemma PrefixSplit(h: string, t: string)
    ensures (h + t)[..|h|] == h && (h + t)[|h|..] == t
  {
  }

  /**
   * The body rewrite refuses, in this order: no body, a body that does not
   * parse, a name with no keys, and a root that is neither object nor null
   * (which makes `serde_json` panic).
   */
  lemma InjectIntoBodyRefusals(body: Option<seq<byte>>, name: string, apikey: string, codec: JsonCodec)
    ensures body.None? ==>
      InjectIntoBody(body, name, apikey, codec)
        == Failure(InvalidSecurityConfiguration("Api key placement is set to body but the body is empty"))
    ensures body.Some? && codec.parse(body.value).Failure? ==>
      InjectIntoBody(body, name, apikey, codec)
        == Failure(InvalidSecurityConfiguration("Failed to parse body: " + codec.parse(body.value).error))
    ensures body.Some? && codec.parse(body.value).Success? && BodyKeys(name) == [] ==>
      InjectIntoBody(body, name, apikey, codec) == Failure(InvalidSecurityConfiguration("Invalid field name '" + name + "'"))
    ensures body.Some? && codec.parse(body.value).Success? && BodyKeys(name) != [] && !Indexable(codec.parse(body.value).value) ==>
      InjectIntoBody(body, name, apikey, codec).Failure? && InjectIntoBody(body, name, apikey, codec).error.IndexPanic?
  {
  }

  /** Writing into the body fails exactly when some proper prefix of the key path is not an object. */
  lemma InjectIntoBodyPathCheck(bytes: seq<byte>, name: string, apikey: string, codec: JsonCodec)
    requires codec.parse(bytes).Success? && |BodyKeys(name)| > 0 && Indexable(codec.parse(bytes).value)
    ensures var root, keys := codec.parse(bytes).value, BodyKeys(name);
      var r := InjectIntoBody(Some(bytes), name, apikey, codec);
      && ((exists j | 0 < j < |keys| :: !Get(root, keys[..j]).JObject?) ==>
            exists d | 0 <= d && d + 1 < |keys| ::
              r == Failure(InvalidSecurityConfiguration(NotObjectMessage(keys, d)))
              && !Get(root, keys[..d + 1]).JObject?
              && forall j | 0 < j <= d :: Get(root, keys[..j]).JObject?)
      && ((forall j | 0 < j < |keys| :: Get(root, keys[..j]).JObject?) ==>
            var a := Assign(root, keys, JString(apikey));
            a.Success? &&
            r == (match codec.serialize(a.value)
                  case Failure(e) => Failure(InvalidSecurityConfiguration("Failed to serialize body: " + e))
                  case Success(out) => Success(out)))
  {
    var root, keys := codec.parse(bytes).value, BodyKeys(name);
    AssignOutcome(root, keys, JString(apikey));
    var a := Assign(root, keys, JString(apikey));
    if a.Failure? {
      var d := a.error;
      assert InjectIntoBody(Some(bytes), name, apikey, codec) == Failure(InvalidSecurityConfiguration(NotObjectMessage(keys, d)));
    }
  }

  /**
   * When the codec reads back what it writes, the rewritten body holds the
   * API key at the key path and is unchanged along every path that leaves it.
   */
  lemma InjectIntoBodyReadsBack(bytes: seq<byte>, name: string, apikey: string, codec: JsonCodec, p: seq<string>, j: nat)
    requires forall t :: codec.serialize(t).Success? ==> codec.parse(codec.serialize(t).value) == Success(t)
    requires InjectIntoBody(Some(bytes), name, apikey, codec).Success?
    ensures var root, keys := codec.parse(bytes).value, BodyKeys(name);
      var out := codec.parse(InjectIntoBody(Some(bytes), name, apikey, codec).value);
      && out.Success?
      && Get(out.value, keys) == JString(apikey)
      && (j < |p| && j < |keys| && p[..j] == keys[..j] && p[j] != keys[j] ==> Get(out.value, p) == Get(root, p))
  {
    var root, keys := codec.parse(bytes).value, BodyKeys(name);
    var t := Assign(root, keys, JString(apikey)).value;
    assert codec.serialize(t).Success?;
    AssignThenGet(root, keys, JString(apikey));
    if j < |p| && j < |keys| && p[..j] == keys[..j] && p[j] != keys[j] {
      AssignKeepsOthers(root, keys, JString(apikey), p, j);
    }
  }

  // ---------------------------------------------------------------------------
  // The rewrite in place

  class HttpRequest {
    var url: string
    var headers: map<string, seq<string>>
    var query: map<string, seq<string>>
    var body: Option<seq<byte>>
    var security: Option<string>

    function Snapshot(): Request
      reads this
    {
      Request(url, headers, query, body, security)
    }

    constructor (r: Request)
      ensures Snapshot() == r
    {
      url, headers, query, body, security := r.url, r.headers, r.query, r.body, r.security;
    }
  }

  /** Rewrites `req` in place for the security entry it names; on an error the request is left as it was. */
  method ResolveSecurity(smap: SecurityMap, req: HttpRequest, codec: JsonCodec) returns (r: Result<(), ResolveError>)
    modifies req
    ensures var expected := Resolve(smap, old(req.Snapshot()), codec);
      && (r.Success? <==> expected.Success?)
      && (r.Success? ==> req.Snapshot() == expected.value)
      && (r.Failure? ==> r.error == expected.error && req.Snapshot() == old(req.Snapshot()))
  {
    if req.security.None? {
      return Success(());
    }
    var id := req.security.value;
    if id !in smap {
      return Failure(InvalidSecurityConfiguration("Security configuration for " + id + " is missing"));
    }
    match smap[id] {
    case ErrorEntry(err) =>
      var text := FormatErrors([err]);
      return Failure(InvalidSecurityConfiguration(text));
    case SecurityEntry(Http(Basic(username, password))) =>
      var encoded := Base64.Encode(Utf8.Encode(username + ":" + password));
      req.headers := req.headers["Authorization" := ["Basic " + encoded]];
    case SecurityEntry(Http(Bearer(_, token))) =>
      req.headers := req.headers["Authorization" := ["Bearer " + token]];
    case SecurityEntry(ApiKey(placement, name, apikey, bodyType)) =>
      match placement {
      case Header =>
        req.headers := req.headers[name := [apikey]];
      case Path =>
        req.url := ReplaceAll(req.url, "{" + name + "}", apikey);
      case Query =>
        req.query := req.query[name := [apikey]];
      case Body =>
        if bodyType.None? {
          return Failure(InvalidSecurityConfiguration("Missing body type"));
        }
        if req.body.None? {
          return Failure(InvalidSecurityConfiguration("Api key placement is set to body but the body is empty"));
        }
        var parsed := codec.parse(req.body.value);
        if parsed.Failure? {
          return Failure(InvalidSecurityConfiguration("Failed to parse body: " + parsed.error));
        }
        var root := parsed.value;
        var keys := BodyKeys(name);
        if |keys| == 0 {
          return Failure(InvalidSecurityConfiguration("Invalid field name '" + name + "'"));
        }
        if !Indexable(root) {
          return Failure(IndexPanic(keys[0], KindName(root)));
        }
        var written := SetAtPath(root, keys, JString(apikey));
        if written.Failure? {
          return Failure(InvalidSecurityConfiguration(NotObjectMessage(keys, written.error)));
        }
        var serialized := codec.serialize(written.value);
        if serialized.Failure? {
          return Failure(InvalidSecurityConfiguration("Failed to serialize body: " + serialized.error));
        }
        req.body := Some(serialized.value);
      }
    }
    return Success(());
  }
}
