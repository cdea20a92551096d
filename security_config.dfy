/**
 * The security part of the map standard library: the provider's declared
 * security schemes joined with the caller's secrets into a security map,
 * the misconfiguration report, and the provider's default parameters.
 */
module SecurityConfig {
  import opened Common

  // ---------------------------------------------------------------------------
  // Data model

  datatype ApiKeyPlacement = Header | Body | Path | Query

  datatype ApiKeyBodyType = Json

  datatype HttpSecurity =
    | Basic(username: string, password: string)
    | Bearer(bearerFormat: Option<string>, token: string)

  /** A usable credential together with where and how it is applied. */
  datatype Security =
    | ApiKey(placement: ApiKeyPlacement, name: string, apikey: string, bodyType: Option<ApiKeyBodyType>)
    | Http(http: HttpSecurity)

  datatype MisconfiguredError = MisconfiguredError(id: string, expected: string)

  /** A security map entry: either usable, or an error reported only when a request uses it. */
  datatype SecurityMapValue = SecurityEntry(security: Security) | ErrorEntry(error: MisconfiguredError)

  type SecurityMap = map<string, SecurityMapValue>

  /** The secret the caller supplied for one scheme id. */
  datatype SecurityValue =
    | ApiKeyValue(apikey: string)
    | BasicValue(username: string, password: string)
    | BearerValue(token: string)

  datatype PrepareSecurityMapError = SecurityMisconfigured(errors: seq<MisconfiguredError>)

  datatype PerformExceptionErrorCode = PrepareSecurityMapErrorCode

  datatype PerformException = PerformException(errorCode: PerformExceptionErrorCode, message: string)

  /** A security scheme as declared in the provider definition. */
  datatype SecurityScheme =
    | ApiKeyScheme(id: string, placement: ApiKeyPlacement, name: string, bodyType: Option<ApiKeyBodyType>)
    | BasicScheme(id: string)
    | BearerScheme(id: string, bearerFormat: Option<string>)

  datatype ProviderParameter = ProviderParameter(name: string, defaultValue: Option<string>)

  /** The parts of the provider definition this module reads. */
  datatype ProviderJson = ProviderJson(
    securitySchemes: Option<seq<SecurityScheme>>,
    parameters: Option<seq<ProviderParameter>>)

  /** A value handed over by the host (the caller-supplied security values). */
  datatype HostValue =
    | HNone
    | HBool(b: bool)
    | HNumber(n: int)
    | HString(s: string)
    | HArray(items: seq<HostValue>)
    | HObject(fields: map<string, HostValue>)

  /** A value of the map interpreter. */
  datatype MapValue =
    | MNone
    | MBool(b: bool)
    | MNumber(n: int)
    | MString(s: string)
    | MArray(items: seq<MapValue>)
    | MObject(fields: map<string, MapValue>)

  // ---------------------------------------------------------------------------
  // Misconfiguration report

  const LineStart := "Value for "
  const LineMiddle := " is misconfigured. Expected "

  function Line(e: MisconfiguredError): string
  {
    LineStart + e.id + LineMiddle + e.expected + "\n"
  }

  /** The report: one newline-terminated line per error, in order. */
  function FormatLines(errors: seq<MisconfiguredError>): string
    decreases |errors|
  {
    if |errors| == 0 then "" else FormatLines(errors[..|errors| - 1]) + Line(errors[|errors| - 1])
  }

  method FormatErrors(errors: seq<MisconfiguredError>) returns (res: string)
    ensures res == FormatLines(errors)
  {
    res := "";
    for i := 0 to |errors|
      invariant res == FormatLines(errors[..i])
    {
      assert errors[..i + 1][..i] == errors[..i];
      res := res + "Value for " + errors[i].id + " is misconfigured. Expected " + errors[i].expected + "\n";
    }
    assert errors[..|errors|] == errors;
  }

  lemma FormatLinesSnoc(errors: seq<MisconfiguredError>, x: MisconfiguredError)
    ensures FormatLines(errors + [x]) == FormatLines(errors) + Line(x)
  {
    assert (errors + [x])[..|errors|] == errors;
  }

  lemma {:induction false} FormatLinesAppend(a: seq<MisconfiguredError>, b: seq<MisconfiguredError>)
    ensures FormatLines(a + b) == FormatLines(a) + FormatLines(b)
    decreases |b|
  {
    if |b| == 0 {
      assert a + b == a;
    } else {
      var b', x := b[..|b| - 1], b[|b| - 1];
      assert b == b' + [x];
      assert a + b == (a + b') + [x];
      FormatLinesAppend(a, b');
      FormatLinesSnoc(a + b', x);
      FormatLinesSnoc(b', x);
      AppendAssoc(FormatLines(a), FormatLines(b'), Line(x));
      calc {
        FormatLines(a + b);
        FormatLines(a + b') + Line(x);
        (FormatLines(a) + FormatLines(b')) + Line(x);
        FormatLines(a) + (FormatLines(b') + Line(x));
        FormatLines(a) + FormatLines(b);
      }
    }
  }

  function CountChar(s: string, c: char): nat
    decreases |s|
  {
    if |s| == 0 then 0 else (if s[0] == c then 1 else 0) + CountChar(s[1..], c)
  }

  lemma {:induction false} CountCharAppend(a: string, b: string, c: char)
    ensures CountChar(a + b, c) == CountChar(a, c) + CountChar(b, c)
    decreases |a|
  {
    if |a| == 0 {
      assert a + b == b;
    } else {
      assert (a + b)[1..] == a[1..] + b;
      CountCharAppend(a[1..], b, c);
    }
  }

  lemma {:induction false} CountCharAbsent(s: string, c: char)
    requires forall i | 0 <= i < |s| :: s[i] != c
    ensures CountChar(s, c) == 0
    decreases |s|
  {
    if |s| > 0 {
      CountCharAbsent(s[1..], c);
    }
  }

  predicate NoNewline(s: string)
  {
    forall i | 0 <= i < |s| :: s[i] != '\n'
  }

  predicate NoNewlines(errors: seq<MisconfiguredError>)
  {
    forall k | 0 <= k < |errors| :: NoNewline(errors[k].id) && NoNewline(errors[k].expected)
  }

  /** When ids and expectations hold no newline, the report has exactly one line per error. */
  lemma {:induction false} FormatLinesLineCount(errors: seq<MisconfiguredError>)
    requires NoNewlines(errors)
    ensures CountChar(FormatLines(errors), '\n') == |errors|
    decreases |errors|
  {
    if |errors| > 0 {
      var init, e := errors[..|errors| - 1], errors[|errors| - 1];
      FormatLinesLineCount(init);
      var head := "Value for " + e.id + " is misconfigured. Expected " + e.expected;
      assert Line(e) == head + "\n";
      assert NoNewline(head) by {
        forall i | 0 <= i < |head| ensures head[i] != '\n' {
          var p := "Value for ";
          var q := " is misconfigured. Expected ";
          assert head == p + e.id + q + e.expected;
          if i < |p| {
          } else if i < |p| + |e.id| {
            assert head[i] == e.id[i - |p|];
          } else if i < |p| + |e.id| + |q| {
          } else {
            assert head[i] == e.expected[i - |p| - |e.id| - |q|];
          }
        }
      }
      CountCharAbsent(head, '\n');
      CountCharAppend(head, "\n", '\n');
      CountCharAppend(FormatLines(init), Line(e), '\n');
    }
  }

  /** The text of `SecurityMisconfigured`: a heading line followed by the report. */
  function ErrorMessage(e: PrepareSecurityMapError): string
  {
    MisconfiguredHeading + "\n" + FormatLines(e.errors)
  }

  const MisconfiguredHeading := "Security is misconfigured:"

  lemma CountCharHeadingLine(h: string, rest: string)
    requires NoNewline(h)
    ensures CountChar(h + "\n" + rest, '\n') == 1 + CountChar(rest, '\n')
  {
    CountCharAbsent(h, '\n');
    CountCharAppend(h, "\n", '\n');
    CountCharAppend(h + "\n", rest, '\n');
  }

  /** The heading line plus one line per error. */
  lemma ErrorMessageLineCount(e: PrepareSecurityMapError)
    requires NoNewlines(e.errors)
    ensures CountChar(ErrorMessage(e), '\n') == |e.errors| + 1
  {
    CountCharHeadingLine(MisconfiguredHeading, FormatLines(e.errors));
    FormatLinesLineCount(e.errors);
  }

  function ToPerformException(e: PrepareSecurityMapError): (x: PerformException)
    ensures x.errorCode == PrepareSecurityMapErrorCode
    ensures NoNewlines(e.errors) ==> CountChar(x.message, '\n') == |e.errors| + 1
  {
    if NoNewlines(e.errors) then ErrorMessageLineCount(e); PerformException(PrepareSecurityMapErrorCode, ErrorMessage(e))
    else PerformException(PrepareSecurityMapErrorCode, ErrorMessage(e))
  }

  // ---------------------------------------------------------------------------
  // Caller-supplied secrets

  predicate StringAt(o: map<string, HostValue>, k: string)
  {
    k in o && o[k].HString?
  }

  /**
   * What schema validation of the secrets guarantees for one entry: an object
   * whose first present kind field (apikey, then username, then token) holds
   * a string, with a string password beside a username.
   */
  predicate ValidSecret(config: HostValue)
  {
    config.HObject? &&
    var o := config.fields;
    if "apikey" in o then StringAt(o, "apikey")
    else if "username" in o then StringAt(o, "username") && StringAt(o, "password")
    else StringAt(o, "token")
  }

  predicate SchemaValid(security: HostValue)
  {
    security.HObject? ==> forall id | id in security.fields :: ValidSecret(security.fields[id])
  }

  /** The kind of a secret: `apikey` takes precedence over `username`, which takes precedence over `token`. */
  function Classify(config: HostValue): (v: SecurityValue)
    requires ValidSecret(config)
    ensures v.ApiKeyValue? <==> "apikey" in config.fields
    ensures v.BasicValue? <==> "apikey" !in config.fields && "username" in config.fields
    ensures v.ApiKeyValue? ==> config.fields["apikey"] == HString(v.apikey)
    ensures v.BasicValue? ==>
      config.fields["username"] == HString(v.username) && config.fields["password"] == HString(v.password)
    ensures v.BearerValue? ==> config.fields["token"] == HString(v.token)
  {
    var o := config.fields;
    if "apikey" in o then ApiKeyValue(o["apikey"].s)
    else if "username" in o then BasicValue(o["username"].s, o["password"].s)
    else BearerValue(o["token"].s)
  }

  /** The secrets by id; a secrets value that is not an object yields none. */
  function SecurityValuesOf(security: HostValue): (values: map<string, SecurityValue>)
    requires SchemaValid(security)
  {
    if security.HObject? then map id | id in security.fields :: Classify(security.fields[id]) else map[]
  }

  method CollectSecurityValues(security: HostValue) returns (values: map<string, SecurityValue>)
    requires SchemaValid(security)
    ensures values == SecurityValuesOf(security)
    ensures security.HObject? ==> values.Keys == security.fields.Keys
    ensures !security.HObject? ==> values == map[]
  {
    values := map[];
    if !security.HObject? {
      return;
    }
    var obj := security.fields;
    var remaining := obj.Keys;
    while remaining != {}
      invariant remaining <= obj.Keys
      invariant values.Keys == obj.Keys - remaining
      invariant forall id | id in values :: values[id] == Classify(obj[id])
      decreases remaining
    {
      var id :| id in remaining;
      values := values[id := Classify(obj[id])];
      remaining := remaining - {id};
    }
  }

  // ---------------------------------------------------------------------------
  // Joining schemes with secrets

  /** The secret has the kind the scheme asks for. */
  predicate Matches(scheme: SecurityScheme, v: SecurityValue)
  {
    match scheme
    case ApiKeyScheme(_, _, _, _) => v.ApiKeyValue?
    case BasicScheme(_) => v.BasicValue?
    case BearerScheme(_, _) => v.BearerValue?
  }

  /** The shape named when the secret has the wrong kind. */
  function ExpectedShape(scheme: SecurityScheme): string
  {
    match scheme
    case ApiKeyScheme(_, _, _, _) => "{ apikey: String }"
    case BasicScheme(_) => "{ username: String, password: String }"
    case BearerScheme(_, _) => "{ token: String }"
  }

  /** The expectation named when the secret is missing. */
  function MissingExpectation(scheme: SecurityScheme): string
  {
    match scheme
    case BearerScheme(_, _) => "not None"
    case _ => "not empty value"
  }

  /** The credential built from a scheme and a secret of its kind. */
  function Grant(scheme: SecurityScheme, v: SecurityValue): (s: Security)
    requires Matches(scheme, v)
    ensures scheme.ApiKeyScheme? <==> s.ApiKey?
    ensures scheme.ApiKeyScheme? ==>
      s.name == scheme.name && s.apikey == v.apikey && s.placement == scheme.placement && s.bodyType == scheme.bodyType
    ensures scheme.BasicScheme? ==> s == Http(Basic(v.username, v.password))
    ensures scheme.BearerScheme? ==> s == Http(Bearer(scheme.bearerFormat, v.token))
  {
    match scheme
    case ApiKeyScheme(_, placement, name, bodyType) => ApiKey(placement, name, v.apikey, bodyType)
    case BasicScheme(_) => Http(Basic(v.username, v.password))
    case BearerScheme(_, format) => Http(Bearer(format, v.token))
  }

  /** What one scheme contributes: a map entry (usable or deferred error), or a misconfiguration. */
  datatype SchemeOutcome = Entry(value: SecurityMapValue) | Misconfigured(error: MisconfiguredError)

  function Outcome(scheme: SecurityScheme, values: map<string, SecurityValue>): (o: SchemeOutcome)
    ensures o.Misconfigured? <==> scheme.id in values && !Matches(scheme, values[scheme.id])
    ensures o.Misconfigured? ==> o.error == MisconfiguredError(scheme.id, ExpectedShape(scheme))
    ensures scheme.id !in values ==> o == Entry(ErrorEntry(MisconfiguredError(scheme.id, MissingExpectation(scheme))))
    ensures scheme.id in values && Matches(scheme, values[scheme.id]) ==>
      o == Entry(SecurityEntry(Grant(scheme, values[scheme.id])))
  {
    if scheme.id !in values then
      Entry(ErrorEntry(MisconfiguredError(scheme.id, MissingExpectation(scheme))))
    else if !Matches(scheme, values[scheme.id]) then
      Misconfigured(MisconfiguredError(scheme.id, ExpectedShape(scheme)))
    else
      Entry(SecurityEntry(Grant(scheme, values[scheme.id])))
  }

  /** The security map and the error list after processing the schemes in order. */
  function PrepareFold(schemes: seq<SecurityScheme>, values: map<string, SecurityValue>): (SecurityMap, seq<MisconfiguredError>)
    decreases |schemes|
  {
    if |schemes| == 0 then (map[], [])
    else
      var acc := PrepareFold(schemes[..|schemes| - 1], values);
      var s := schemes[|schemes| - 1];
      match Outcome(s, values)
      case Entry(v) => (acc.0[s.id := v], acc.1)
      case Misconfigured(e) => (acc.0, acc.1 + [e])
  }

  /** The misconfiguration of one scheme, if any, as a list of zero or one errors. */
  function ErrorsOf(scheme: SecurityScheme, values: map<string, SecurityValue>): seq<MisconfiguredError>
  {
    match Outcome(scheme, values)
    case Misconfigured(e) => [e]
    case Entry(_) => []
  }

  /** The misconfigurations of the schemes, in scheme order. */
  function MisconfiguredErrors(schemes: seq<SecurityScheme>, values: map<string, SecurityValue>): seq<MisconfiguredError>
    decreases |schemes|
  {
    if |schemes| == 0 then []
    else
      ErrorsOf(schemes[0], values) + MisconfiguredErrors(schemes[1..], values)
  }

  lemma {:induction false} MisconfiguredErrorsSnoc(schemes: seq<SecurityScheme>, s: SecurityScheme, values: map<string, SecurityValue>)
    ensures MisconfiguredErrors(schemes + [s], values) ==
      MisconfiguredErrors(schemes, values) + ErrorsOf(s, values)
    decreases |schemes|
  {
    var t := schemes + [s];
    if |schemes| == 0 {
      assert t == [s];
      assert MisconfiguredErrors(t, values) == ErrorsOf(s, values) + MisconfiguredErrors([], values);
    } else {
      assert t[0] == schemes[0];
      assert t[1..] == schemes[1..] + [s];
      MisconfiguredErrorsSnoc(schemes[1..], s, values);
      var h := ErrorsOf(schemes[0], values);
      calc {
        MisconfiguredErrors(t, values);
        h + MisconfiguredErrors(schemes[1..] + [s], values);
        h + (MisconfiguredErrors(schemes[1..], values) + ErrorsOf(s, values));
        (h + MisconfiguredErrors(schemes[1..], values)) + ErrorsOf(s, values);
      }
    }
  }

  lemma {:induction false} MisconfiguredErrorsEmpty(schemes: seq<SecurityScheme>, values: map<string, SecurityValue>)
    ensures MisconfiguredErrors(schemes, values) == [] <==>
      forall i | 0 <= i < |schemes| :: !Outcome(schemes[i], values).Misconfigured?
    decreases |schemes|
  {
    if |schemes| > 0 {
      MisconfiguredErrorsEmpty(schemes[1..], values);
      assert forall i | 1 <= i < |schemes| :: schemes[i] == schemes[1..][i - 1];
    }
  }

  /** The error list is exactly the misconfigurations, in scheme order. */
  lemma {:induction false} FoldErrors(schemes: seq<SecurityScheme>, values: map<string, SecurityValue>)
    ensures PrepareFold(schemes, values).1 == MisconfiguredErrors(schemes, values)
    decreases |schemes|
  {
    if |schemes| > 0 {
      var init, s := schemes[..|schemes| - 1], schemes[|schemes| - 1];
      FoldErrors(init, values);
      assert schemes == init + [s];
      MisconfiguredErrorsSnoc(init, s, values);
    }
  }

  /** One step of the fold adds the last scheme's id exactly when that scheme is not misconfigured. */
  lemma FoldStepKey(schemes: seq<SecurityScheme>, values: map<string, SecurityValue>, x: string)
    requires |schemes| > 0
    ensures x in PrepareFold(schemes, values).0 <==>
      x in PrepareFold(schemes[..|schemes| - 1], values).0 ||
      (Outcome(schemes[|schemes| - 1], values).Entry? && schemes[|schemes| - 1].id == x)
  {
  }

  /** An id is a key of the map exactly when some scheme with that id is not misconfigured. */
  lemma {:induction false} FoldKey(schemes: seq<SecurityScheme>, values: map<string, SecurityValue>, x: string)
    ensures x in PrepareFold(schemes, values).0 <==>
      exists i | 0 <= i < |schemes| :: Outcome(schemes[i], values).Entry? && schemes[i].id == x
    decreases |schemes|
  {
    if |schemes| > 0 {
      var init := schemes[..|schemes| - 1];
      FoldKey(init, values, x);
      FoldStepKey(schemes, values, x);
      if exists i | 0 <= i < |schemes| :: Outcome(schemes[i], values).Entry? && schemes[i].id == x {
        var i :| 0 <= i < |schemes| && Outcome(schemes[i], values).Entry? && schemes[i].id == x;
        if i < |init| {
          assert init[i] == schemes[i];
        }
      }
      if exists i | 0 <= i < |init| :: Outcome(init[i], values).Entry? && init[i].id == x {
        var i :| 0 <= i < |init| && Outcome(init[i], values).Entry? && init[i].id == x;
        assert schemes[i] == init[i];
      }
    }
  }

  /** The map's keys are the ids of the schemes that were not misconfigured. */
  lemma FoldKeys(schemes: seq<SecurityScheme>, values: map<string, SecurityValue>)
    ensures PrepareFold(schemes, values).0.Keys ==
      set i | 0 <= i < |schemes| && Outcome(schemes[i], values).Entry? :: schemes[i].id
  {
    var all := set i | 0 <= i < |schemes| && Outcome(schemes[i], values).Entry? :: schemes[i].id;
    forall x ensures x in PrepareFold(schemes, values).0 <==> x in all {
      FoldKey(schemes, values, x);
    }
  }

  /** A scheme's entry survives unless a later scheme with the same id writes another entry. */
  lemma {:induction false} FoldEntry(schemes: seq<SecurityScheme>, values: map<string, SecurityValue>, i: nat)
    requires i < |schemes| && Outcome(schemes[i], values).Entry?
    requires forall j | i < j < |schemes| :: schemes[j].id == schemes[i].id ==> Outcome(schemes[j], values).Misconfigured?
    ensures schemes[i].id in PrepareFold(schemes, values).0
    ensures PrepareFold(schemes, values).0[schemes[i].id] == Outcome(schemes[i], values).value
    decreases |schemes|
  {
    var init := schemes[..|schemes| - 1];
    if i < |schemes| - 1 {
      assert init[i] == schemes[i];
      FoldEntry(init, values, i);
    }
  }

  /** Joins the declared schemes with the supplied secrets. */
  method PrepareSecurityMap(provider: ProviderJson, security: HostValue)
    returns (r: Result<SecurityMap, PrepareSecurityMapError>)
    requires provider.securitySchemes.Some? ==> SchemaValid(security)
    ensures provider.securitySchemes.None? ==> r == Success(map[])
    ensures provider.securitySchemes.Some? ==>
      var schemes := provider.securitySchemes.value;
      var values := SecurityValuesOf(security);
      && (r.Failure? <==> exists i | 0 <= i < |schemes| :: Outcome(schemes[i], values).Misconfigured?)
      && (r.Failure? ==> r.error.errors == MisconfiguredErrors(schemes, values))
      && (r.Success? ==> r.value == PrepareFold(schemes, values).0)
      && (r.Success? ==> r.value.Keys == set i | 0 <= i < |schemes| :: schemes[i].id)
  {
    if provider.securitySchemes.None? {
      return Success(map[]);
    }
    var schemes := provider.securitySchemes.value;
    var values := CollectSecurityValues(security);

    var securityMap: SecurityMap := map[];
    var errors: seq<MisconfiguredError> := [];
    for i := 0 to |schemes|
      invariant (securityMap, errors) == PrepareFold(schemes[..i], values)
    {
      assert schemes[..i + 1][..i] == schemes[..i];
      match schemes[i]
      case ApiKeyScheme(id, placement, name, bodyType) =>
        if id !in values {
          securityMap := securityMap[id := ErrorEntry(MisconfiguredError(id, "not empty value"))];
        } else if !values[id].ApiKeyValue? {
          errors := errors + [MisconfiguredError(id, "{ apikey: String }")];
        } else {
          securityMap := securityMap[id := SecurityEntry(ApiKey(placement, name, values[id].apikey, bodyType))];
        }
      case BasicScheme(id) =>
        if id !in values {
          securityMap := securityMap[id := ErrorEntry(MisconfiguredError(id, "not empty value"))];
        } else if !values[id].BasicValue? {
          errors := errors + [MisconfiguredError(id, "{ username: String, password: String }")];
        } else {
          securityMap := securityMap[id := SecurityEntry(Http(Basic(values[id].username, values[id].password)))];
        }
      case BearerScheme(id, bearerFormat) =>
        if id !in values {
          securityMap := securityMap[id := ErrorEntry(MisconfiguredError(id, "not None"))];
        } else if !values[id].BearerValue? {
          errors := errors + [MisconfiguredError(id, "{ token: String }")];
        } else {
          securityMap := securityMap[id := SecurityEntry(Http(Bearer(bearerFormat, values[id].token)))];
        }
    }
    assert schemes[..|schemes|] == schemes;

    FoldErrors(schemes, values);
    MisconfiguredErrorsEmpty(schemes, values);
    FoldKeys(schemes, values);
    if errors != [] {
      return Failure(SecurityMisconfigured(errors));
    }
    return Success(securityMap);
  }

  // ---------------------------------------------------------------------------
  // Provider parameters

  /** Name to default for the parameters that have one; a later parameter overrides an earlier one. */
  function DefaultsOf(params: seq<ProviderParameter>): map<string, MapValue>
    decreases |params|
  {
    if |params| == 0 then map[]
    else
      var acc := DefaultsOf(params[..|params| - 1]);
      var p := params[|params| - 1];
      match p.defaultValue
      case Some(d) => acc[p.name := MString(d)]
      case None => acc
  }

  function PrepareProviderParameters(provider: ProviderJson): (r: map<string, MapValue>)
    ensures provider.parameters.None? ==> r == map[]
    ensures forall k | k in r :: r[k].MString?
  {
    match provider.parameters
    case None => map[]
    case Some(params) =>
      DefaultsOfStrings(params);
      DefaultsOf(params)
  }

  lemma {:induction false} DefaultsOfStrings(params: seq<ProviderParameter>)
    ensures forall k | k in DefaultsOf(params) :: DefaultsOf(params)[k].MString?
    decreases |params|
  {
    if |params| > 0 {
      DefaultsOfStrings(params[..|params| - 1]);
    }
  }

  /** A name is present exactly when some parameter of that name has a default. */
  lemma {:induction false} DefaultsOfKey(params: seq<ProviderParameter>, k: string)
    ensures k in DefaultsOf(params) <==>
      exists i | 0 <= i < |params| :: params[i].name == k && params[i].defaultValue.Some?
    decreases |params|
  {
    if |params| > 0 {
      var init, p := params[..|params| - 1], params[|params| - 1];
      DefaultsOfKey(init, k);
      if k in DefaultsOf(init) {
        var i :| 0 <= i < |init| && init[i].name == k && init[i].defaultValue.Some?;
        assert params[i] == init[i];
      }
      if exists i | 0 <= i < |params| :: params[i].name == k && params[i].defaultValue.Some? {
        var i :| 0 <= i < |params| && params[i].name == k && params[i].defaultValue.Some?;
        if i < |init| {
          assert init[i] == params[i];
        }
      }
    }
  }

  /** A parameter's default stands unless a later parameter of the same name has one. */
  lemma {:induction false} DefaultsOfValue(params: seq<ProviderParameter>, i: int)
    requires 0 <= i < |params| && params[i].defaultValue.Some?
    requires forall j | i < j < |params| :: params[j].name == params[i].name ==> params[j].defaultValue.None?
    ensures params[i].name in DefaultsOf(params)
    ensures DefaultsOf(params)[params[i].name] == MString(params[i].defaultValue.value)
    decreases |params|
  {
    if i < |params| - 1 {
      var init := params[..|params| - 1];
      assert init[i] == params[i];
      forall j | i < j < |init| ensures init[j].name == init[i].name ==> init[j].defaultValue.None? {
        assert init[j] == params[j];
      }
      DefaultsOfValue(init, i);
    }
  }

  /** Exactly the parameters with a default appear, each with the last default given for its name. */
  lemma DefaultsOfSpec(params: seq<ProviderParameter>)
    ensures forall k :: k in DefaultsOf(params) <==>
      exists i | 0 <= i < |params| :: params[i].name == k && params[i].defaultValue.Some?
    ensures forall i | 0 <= i < |params| && params[i].defaultValue.Some? &&
        (forall j | i < j < |params| :: params[j].name == params[i].name ==> params[j].defaultValue.None?) ::
      DefaultsOf(params)[params[i].name] == MString(params[i].defaultValue.value)
  {
    forall k
      ensures k in DefaultsOf(params) <==>
        exists i | 0 <= i < |params| :: params[i].name == k && params[i].defaultValue.Some?
    {
      DefaultsOfKey(params, k);
    }
    forall i | 0 <= i < |params| && params[i].defaultValue.Some? &&
        (forall j | i < j < |params| :: params[j].name == params[i].name ==> params[j].defaultValue.None?)
      ensures params[i].name in DefaultsOf(params)
      ensures DefaultsOf(params)[params[i].name] == MString(params[i].defaultValue.value)
    {
      DefaultsOfValue(params, i);
    }
  }
}
