/**
 * The request builders of the Infusionsoft REST client: the OAuth2
 * authorization URL, the two token-endpoint requests, the authenticated
 * request `api` composes, and the twelve resource operations that route
 * through it.  The HTTP exchange itself is not part of this model; each
 * builder yields the request it would hand to the transport.
 */
module Client {
  import opened Wrappers
  import opened Strings
  import Utf8
  import Base64
  import UriComponent
  import Query
  import Decimal
  import Routes

  const ApiVersion: string := "v1"
  const ApiEndpoint: string := "https://api.infusionsoft.com/crm/rest/" + ApiVersion
  const AuthEndpoint: string := "https://api.infusionsoft.com/token"
  const OAuthRequestEndpoint: string := "https://signin.infusionsoft.com/app/oauth/authorize"

  datatype Header = Header(name: string, value: string)

  /**
   * A JavaScript value passed as a request body (numbers restricted to
   * integers).
   */
  datatype JsValue =
    | Undefined
    | Null
    | Boolean(b: bool)
    | Num(n: int)
    | Str(s: string)
    | Arr(items: seq<JsValue>)
    | Obj(members: seq<(string, JsValue)>)

  /** JavaScript truthiness: `undefined`, `null`, `false`, `0` and `""` are falsy. */
  predicate Truthy(v: JsValue) {
    match v
    case Undefined => false
    case Null => false
    case Boolean(b) => b
    case Num(n) => n != 0
    case Str(s) => s != []
    case _ => true
  }

  /** The options `api` takes: `{method, path, token, body}`. */
  datatype RequestSpec = RequestSpec(verb: string, path: string, token: string, body: JsValue)

  /** The payload `api` hands to the transport. */
  datatype HttpRequest = HttpRequest(verb: string, url: string, json: bool, headers: seq<Header>, body: Option<JsValue>)

  /** A form-encoded POST to the token endpoint. */
  datatype FormPost = FormPost(url: string, form: seq<(string, string)>, headers: seq<Header>)

  /** The value of the first form field called `name`. */
  function Lookup(form: seq<(string, string)>, name: string): (r: Option<string>)
    ensures r.None? <==> forall k :: 0 <= k < |form| ==> form[k].0 != name
    decreases |form|
  {
    if form == [] then None
    else if form[0].0 == name then Some(form[0].1)
    else Lookup(form[1..], name)
  }

  /** A field no earlier field shares a name with is the one `Lookup` finds. */
  lemma {:induction false} LookupLater(form: seq<(string, string)>, k: nat, name: string)
    requires k < |form| && form[k].0 == name
    requires forall j :: 0 <= j < k ==> form[j].0 != name
    ensures Lookup(form, name) == Some(form[k].1)
    decreases k
  {
    if k > 0 {
      LookupLater(form[1..], k - 1, name);
    }
  }

  /**
   * The `Authorization` value of the refresh request, as section 2 of
   * RFC 7617 builds it: `Basic ` and the base 64 encoding (section 4 of
   * RFC 4648) of the UTF-8 octets (RFC 3629) of `clientId:clientSecret`.
   */
  function BasicAuthorization(clientId: string, clientSecret: string): (r: string)
    ensures HasPrefix(r, "Basic ")
    ensures DecodeBasic(r) == Some(clientId + ":" + clientSecret)
  {
    var r := "Basic " + Base64.Encode(Utf8.Encode(clientId + ":" + clientSecret));
    PrefixOfAppend("Basic ", Base64.Encode(Utf8.Encode(clientId + ":" + clientSecret)));
    BasicRoundTrip(clientId + ":" + clientSecret, r);
    r
  }

  /** What a server reads out of a Basic `Authorization` value: the user-pass text. */
  function DecodeBasic(value: string): Option<string>
  {
    if !HasPrefix(value, "Basic ") then None
    else match Base64.Decode(value[6..])
      case None => None
      case Some(octets) => Utf8.Decode(octets)
  }

  /** The user-pass text split at its first colon into user-id and password. */
  function SplitCredentials(text: string): Option<(string, string)>
  {
    var i := IndexOf(text, ':');
    if i == |text| then None else Some((text[..i], text[i + 1..]))
  }

  /** A query item split at its first `=`, without percent-decoding. */
  function RawPair(item: string): (string, string)
  {
    var i := IndexOf(item, '=');
    if i == |item| then (item, "") else (item[..i], item[i + 1..])
  }

  /** A query split at `&`, each item at its first `=`, without percent-decoding. */
  function RawPairs(query: string): seq<(string, string)>
  {
    var items := Split(query, '&');
    seq(|items|, i requires 0 <= i < |items| => RawPair(items[i]))
  }

  /** The client: credentials fixed at construction, never changed. */
  datatype Infusionsoft = Infusionsoft(clientId: string, clientSecret: string)
  {
    /**
     * `requestPermission(redirectUri)`: the authorization-grant URL, the
     * template with the client id and the redirect URI inserted as given,
     * nothing escaped.
     */
    function RequestPermission(redirectUri: string): (url: string)
      ensures HasPrefix(url, OAuthRequestEndpoint + "?")
      ensures url[|OAuthRequestEndpoint| + 1..] == AuthorizationQuery(clientId, redirectUri)
    {
      EndpointPiece(clientId);
      PrefixOfAppend(OAuthRequestEndpoint + "?", AuthorizationQuery(clientId, redirectUri));
      OAuthRequestEndpoint + "?client_id=" + clientId + "&redirect_uri=" + redirectUri
        + "&response_type=code&scope=full"
    }

    /**
     * The POST `requestToken(code, redirectUri)` sends: the five
     * authorization-code grant fields, credentials in the form, no headers.
     */
    function RequestToken(code: string, redirectUri: string): (r: FormPost)
      ensures r.url == AuthEndpoint && r.headers == [] && |r.form| == 5
      ensures Lookup(r.form, "client_id") == Some(clientId)
      ensures Lookup(r.form, "client_secret") == Some(clientSecret)
      ensures Lookup(r.form, "code") == Some(code)
      ensures Lookup(r.form, "grant_type") == Some("authorization_code")
      ensures Lookup(r.form, "redirect_uri") == Some(redirectUri)
    {
      var form := [("client_id", clientId), ("client_secret", clientSecret), ("code", code),
                   ("grant_type", "authorization_code"), ("redirect_uri", redirectUri)];
      LookupLater(form, 2, "code");
      LookupLater(form, 3, "grant_type");
      LookupLater(form, 4, "redirect_uri");
      FormPost(AuthEndpoint, form, [])
    }

    /**
     * The POST `refreshToken(refreshToken)` sends: the two refresh-grant
     * fields, and the credentials only in one Basic `Authorization` header
     * that decodes back to `clientId:clientSecret`.
     */
    function RefreshToken(refreshToken: string): (r: FormPost)
      ensures r.url == AuthEndpoint && |r.form| == 2
      ensures Lookup(r.form, "grant_type") == Some("refresh_token")
      ensures Lookup(r.form, "refresh_token") == Some(refreshToken)
      ensures Lookup(r.form, "client_id") == None && Lookup(r.form, "client_secret") == None
      ensures |r.headers| == 1 && r.headers[0].name == "Authorization"
      ensures DecodeBasic(r.headers[0].value) == Some(clientId + ":" + clientSecret)
    {
      FormPost(
        AuthEndpoint,
        [("grant_type", "refresh_token"), ("refresh_token", refreshToken)],
        [Header("Authorization", BasicAuthorization(clientId, clientSecret))])
    }
  }

  /** `api(opts)`: the request sent for `opts`. */
  function Api(opts: RequestSpec): (r: HttpRequest)
    ensures r.verb == opts.verb && r.json
    ensures HasPrefix(r.url, ApiEndpoint) && r.url[|ApiEndpoint|..] == opts.path
    ensures |r.headers| == 1 && r.headers[0].name == "Authorization"
    ensures HasPrefix(r.headers[0].value, "Bearer ") && r.headers[0].value[7..] == opts.token
    ensures r.body.Some? <==> Truthy(opts.body)
    ensures r.body.Some? ==> r.body.value == opts.body
  {
    HttpRequest(
      opts.verb,
      ApiEndpoint + opts.path,
      true,
      [Header("Authorization", "Bearer " + opts.token)],
      if Truthy(opts.body) then Some(opts.body) else None)
  }

  /** Reads the options back out of a request `api` could have built. */
  function Recover(r: HttpRequest): Option<RequestSpec>
  {
    if !r.json || !HasPrefix(r.url, ApiEndpoint) || |r.headers| != 1
       || r.headers[0].name != "Authorization" || !HasPrefix(r.headers[0].value, "Bearer ")
    then None
    else
      var spec := RequestSpec(r.verb, r.url[|ApiEndpoint|..], r.headers[0].value[7..], Undefined);
      match r.body
      case None => Some(spec)
      case Some(b) => if Truthy(b) then Some(spec.(body := b)) else None
  }

  // Resource operations: each is one call of `api` with a fixed method and path.

  function GetAccountInfo(token: string): (r: RequestSpec)
    ensures Routes.Classify(r.verb, r.path) == Some(Routes.GetAccountInfo)
    ensures r.token == token && r.body == Undefined
  {
    Routes.AccountProfile("GET");
    RequestSpec("GET", "/account/profile", token, Undefined)
  }

  function UpdateAccountInfo(token: string, payload: JsValue): (r: RequestSpec)
    ensures Routes.Classify(r.verb, r.path) == Some(Routes.UpdateAccountInfo)
    ensures r.token == token && r.body == payload
  {
    Routes.AccountProfile("PUT");
    RequestSpec("PUT", "/account/profile", token, payload)
  }

  function GetAffiliateCommissions(token: string, filters: Query.FilterSet): (r: RequestSpec)
    ensures Routes.Classify(r.verb, r.path) == Some(Routes.GetAffiliateCommissions(Query.Pairs(filters)))
    ensures r.token == token && r.body == Undefined
  {
    Routes.AffiliateCommissions(filters);
    RequestSpec("GET", "/affiliates/commissions" + Query.ParseFilters(filters), token, Undefined)
  }

  function GetAffiliateModel(token: string): (r: RequestSpec)
    ensures Routes.Classify(r.verb, r.path) == Some(Routes.GetAffiliateModel)
    ensures r.token == token && r.body == Undefined
  {
    Routes.AffiliateModel("GET");
    RequestSpec("GET", "/affiliates/model", token, Undefined)
  }

  function GetAppointments(token: string, filters: Query.FilterSet): (r: RequestSpec)
    ensures Routes.Classify(r.verb, r.path) == Some(Routes.GetAppointments(Query.Pairs(filters)))
    ensures r.token == token && r.body == Undefined
  {
    Routes.AppointmentsQuery(filters);
    RequestSpec("GET", "/appointments" + Query.ParseFilters(filters), token, Undefined)
  }

  function CreateAppointment(token: string, payload: JsValue): (r: RequestSpec)
    ensures Routes.Classify(r.verb, r.path) == Some(Routes.CreateAppointment)
    ensures r.token == token && r.body == payload
  {
    Routes.AppointmentsRoot("POST");
    RequestSpec("POST", "/appointments", token, payload)
  }

  function DeleteAppointment(token: string, appointmentId: int): (r: RequestSpec)
    ensures Routes.Classify(r.verb, r.path) == Some(Routes.DeleteAppointment(appointmentId))
    ensures r.token == token && r.body == Undefined
  {
    Routes.AppointmentId("DELETE", appointmentId);
    RequestSpec("DELETE", "/appointments/" + Decimal.FromInt(appointmentId), token, Undefined)
  }

  function GetAppointment(token: string, appointmentId: int): (r: RequestSpec)
    ensures Routes.Classify(r.verb, r.path) == Some(Routes.GetAppointment(appointmentId))
    ensures r.token == token && r.body == Undefined
  {
    Routes.AppointmentId("GET", appointmentId);
    RequestSpec("GET", "/appointments/" + Decimal.FromInt(appointmentId), token, Undefined)
  }

  function UpdateAppointment(token: string, appointmentId: int, payload: JsValue): (r: RequestSpec)
    ensures Routes.Classify(r.verb, r.path) == Some(Routes.UpdateAppointment(appointmentId))
    ensures r.token == token && r.body == payload
  {
    Routes.AppointmentId("PATCH", appointmentId);
    RequestSpec("PATCH", "/appointments/" + Decimal.FromInt(appointmentId), token, payload)
  }

  function ReplaceAppointment(token: string, appointmentId: int, payload: JsValue): (r: RequestSpec)
    ensures Routes.Classify(r.verb, r.path) == Some(Routes.ReplaceAppointment(appointmentId))
    ensures r.token == token && r.body == payload
  {
    Routes.AppointmentId("PUT", appointmentId);
    RequestSpec("PUT", "/appointments/" + Decimal.FromInt(appointmentId), token, payload)
  }

  function GetAppointmentsModel(token: string): (r: RequestSpec)
    ensures Routes.Classify(r.verb, r.path) == Some(Routes.GetAppointmentsModel)
    ensures r.token == token && r.body == Undefined
  {
    Routes.AppointmentsModel("GET");
    RequestSpec("GET", "/appointments/model", token, Undefined)
  }

  function CreateAppointmentsCustomField(token: string, payload: JsValue): (r: RequestSpec)
    ensures Routes.Classify(r.verb, r.path) == Some(Routes.CreateAppointmentsCustomField)
    ensures r.token == token && r.body == payload
  {
    Routes.AppointmentsCustomFields("POST");
    RequestSpec("POST", "/appointments/model/customFields", token, payload)
  }

  // The authorization URL.

  /** The query the authorization URL carries after the endpoint and its `?`. */
  function AuthorizationQuery(clientId: string, redirectUri: string): string
  {
    "client_id=" + clientId + "&redirect_uri=" + redirectUri + "&response_type=code&scope=full"
  }

  /** `name=value`, one item of an unencoded query. */
  function Item(name: string, value: string): string
  {
    name + "=" + value
  }

  lemma RawPairOfItem(name: string, value: string)
    requires '=' !in name
    ensures RawPair(Item(name, value)) == (name, value)
  {
    IndexOfAfterPrefix(name, '=', value);
    assert Item(name, value)[..|name|] == name;
    assert Item(name, value)[|name| + 1..] == value;
  }

  lemma CountItem(name: string, value: string)
    requires '&' !in name
    ensures Count(Item(name, value), '&') == Count(value, '&')
  {
    CountAppend(name, "=", '&');
    CountAppend(name + "=", value, '&');
  }

  // Literal facts about the authorization template. The solver does not
  // equate long string literals with their concatenations in one step, so
  // each fact is a lemma of its own (`ClientIdPiece` to `FieldNames`, and
  // `EndpointPiece` below), and the query is taken apart through them.

  lemma ClientIdPiece(x: string)
    ensures "client_id=" + x == Item("client_id", x)
  {
    assert "client_id=" == "client_id" + "=";
  }

  lemma RedirectUriPiece()
    ensures "&redirect_uri=" == "&" + "redirect_uri" + "="
  {
  }

  lemma ResponseTypePiece()
    ensures Item("response_type", "code") == "response_type=code"
  {
  }

  lemma ScopePiece()
    ensures Item("scope", "full") == "scope=full"
  {
  }

  lemma FixedTail()
    ensures "&response_type=code&scope=full" == "&" + Item("response_type", "code") + "&" + Item("scope", "full")
  {
    ResponseTypePiece();
    ScopePiece();
  }

  lemma Regroup(a: string, x: string, b: string, y: string, c: string, d: string)
    ensures a + x + ("&" + b + "=") + y + ("&" + c + "&" + d)
      == a + x + "&" + (b + "=" + y) + "&" + c + "&" + d
  {
  }

  /** The literal pieces of the authorization query, split at its separators. */
  lemma AuthorizationQueryPieces(clientId: string, redirectUri: string)
    ensures AuthorizationQuery(clientId, redirectUri)
      == Item("client_id", clientId) + "&" + Item("redirect_uri", redirectUri)
         + "&" + Item("response_type", "code") + "&" + Item("scope", "full")
  {
    RedirectUriPiece();
    FixedTail();
    ClientIdPiece(clientId);
    Regroup("client_id=", clientId, "redirect_uri", redirectUri, Item("response_type", "code"), Item("scope", "full"));
  }

  lemma FieldNames()
    ensures '&' !in "client_id" && '=' !in "client_id"
    ensures '&' !in "redirect_uri" && '=' !in "redirect_uri"
    ensures '&' !in "response_type" && '=' !in "response_type"
    ensures '&' !in "scope" && '=' !in "scope"
    ensures '&' !in "code" && '&' !in "full"
  {
  }

  lemma JoinOfFour(a: string, b: string, c: string, d: string)
    ensures Join([a, b, c, d], '&') == a + "&" + b + "&" + c + "&" + d
  {
    var items := [a, b, c, d];
    assert Join(items[3..], '&') == d;
    assert Join(items[2..], '&') == c + "&" + d by {
      assert items[2..][1..] == items[3..];
    }
    assert Join(items[1..], '&') == b + "&" + c + "&" + d by {
      assert items[1..][1..] == items[2..];
    }
  }

  /** A four-item query splits at `&` into its four items when no part holds `&`. */
  lemma SplitOfFour(k1: string, v1: string, k2: string, v2: string, k3: string, v3: string, k4: string, v4: string)
    requires '&' !in k1 && '&' !in k2 && '&' !in k3 && '&' !in k4
    requires '&' !in v1 && '&' !in v2 && '&' !in v3 && '&' !in v4
    ensures Split(Item(k1, v1) + "&" + Item(k2, v2) + "&" + Item(k3, v3) + "&" + Item(k4, v4), '&')
      == [Item(k1, v1), Item(k2, v2), Item(k3, v3), Item(k4, v4)]
  {
    var items := [Item(k1, v1), Item(k2, v2), Item(k3, v3), Item(k4, v4)];
    JoinOfFour(items[0], items[1], items[2], items[3]);
    assert SeparatorFree(items, '&') by {
      CountItem(k1, v1);
      CountItem(k2, v2);
      CountItem(k3, v3);
      CountItem(k4, v4);
    }
    SplitJoin(items, '&');
  }

  /** A query that splits into four items reads back item by item. */
  lemma RawPairsOfSplit(q: string, a: string, b: string, c: string, d: string)
    requires Split(q, '&') == [a, b, c, d]
    ensures RawPairs(q) == [RawPair(a), RawPair(b), RawPair(c), RawPair(d)]
  {
    var pairs := RawPairs(q);
    assert |pairs| == 4;
    assert pairs[0] == RawPair(a) && pairs[1] == RawPair(b);
    assert pairs[2] == RawPair(c) && pairs[3] == RawPair(d);
  }

  /** A four-item query reads back as its four pairs when no part holds `&`. */
  lemma RawPairsOfFour(k1: string, v1: string, k2: string, v2: string, k3: string, v3: string, k4: string, v4: string)
    requires '&' !in k1 && '&' !in k2 && '&' !in k3 && '&' !in k4
    requires '=' !in k1 && '=' !in k2 && '=' !in k3 && '=' !in k4
    requires '&' !in v1 && '&' !in v2 && '&' !in v3 && '&' !in v4
    ensures RawPairs(Item(k1, v1) + "&" + Item(k2, v2) + "&" + Item(k3, v3) + "&" + Item(k4, v4))
      == [(k1, v1), (k2, v2), (k3, v3), (k4, v4)]
  {
    var q := Item(k1, v1) + "&" + Item(k2, v2) + "&" + Item(k3, v3) + "&" + Item(k4, v4);
    SplitOfFour(k1, v1, k2, v2, k3, v3, k4, v4);
    RawPairsOfSplit(q, Item(k1, v1), Item(k2, v2), Item(k3, v3), Item(k4, v4));
    RawPairOfItem(k1, v1);
    RawPairOfItem(k2, v2);
    RawPairOfItem(k3, v3);
    RawPairOfItem(k4, v4);
  }

  /** A four-item query has three separators more than its parts hold. */
  lemma CountOfFour(k1: string, v1: string, k2: string, v2: string, k3: string, v3: string, k4: string, v4: string)
    requires '&' !in k1 && '&' !in k2 && '&' !in k3 && '&' !in k4
    ensures Count(Item(k1, v1) + "&" + Item(k2, v2) + "&" + Item(k3, v3) + "&" + Item(k4, v4), '&')
      == Count(v1, '&') + Count(v2, '&') + Count(v3, '&') + Count(v4, '&') + 3
  {
    var a, b, c, d := Item(k1, v1), Item(k2, v2), Item(k3, v3), Item(k4, v4);
    CountItem(k1, v1);
    CountItem(k2, v2);
    CountItem(k3, v3);
    CountItem(k4, v4);
    assert Count("&", '&') == 1;
    CountAppend(a, "&", '&');
    CountAppend(a + "&", b, '&');
    CountAppend(a + "&" + b, "&", '&');
    CountAppend(a + "&" + b + "&", c, '&');
    CountAppend(a + "&" + b + "&" + c, "&", '&');
    CountAppend(a + "&" + b + "&" + c + "&", d, '&');
  }

  // A literal fact, in a lemma of its own like those above.
  lemma EndpointPiece(x: string)
    ensures OAuthRequestEndpoint + "?client_id=" + x == OAuthRequestEndpoint + "?" + ("client_id=" + x)
  {
    assert "?client_id=" == "?" + "client_id=";
  }

  /** The authorization query reads back as its four fields exactly when neither argument holds `&`. */
  lemma AuthorizationQueryReadsBack(clientId: string, redirectUri: string)
    ensures RawPairs(AuthorizationQuery(clientId, redirectUri))
        == [("client_id", clientId), ("redirect_uri", redirectUri), ("response_type", "code"), ("scope", "full")]
      <==> '&' !in clientId && '&' !in redirectUri
  {
    var q := AuthorizationQuery(clientId, redirectUri);
    AuthorizationQueryPieces(clientId, redirectUri);
    FieldNames();
    if '&' !in clientId && '&' !in redirectUri {
      RawPairsOfFour("client_id", clientId, "redirect_uri", redirectUri, "response_type", "code", "scope", "full");
    } else {
      CountOfFour("client_id", clientId, "redirect_uri", redirectUri, "response_type", "code", "scope", "full");
      SplitCount(q, '&');
      assert |RawPairs(q)| != 4;
    }
  }

  /**
   * The authorization URL is the authorize endpoint and `?`, followed by a
   * query that, split at `&` and each item at its first `=` without
   * percent-decoding, gives exactly `client_id`, `redirect_uri`,
   * `response_type=code` and `scope=full` with both arguments verbatim,
   * exactly when neither argument contains `&`: nothing is escaped.
   */
  lemma RequestPermissionQuery(client: Infusionsoft, redirectUri: string)
    ensures var url := client.RequestPermission(redirectUri);
      HasPrefix(url, OAuthRequestEndpoint + "?")
    ensures var url := client.RequestPermission(redirectUri);
      RawPairs(url[|OAuthRequestEndpoint| + 1..])
        == [("client_id", client.clientId), ("redirect_uri", redirectUri),
            ("response_type", "code"), ("scope", "full")]
      <==> '&' !in client.clientId && '&' !in redirectUri
  {
    AuthorizationQueryReadsBack(client.clientId, redirectUri);
  }

  /** The redirect URI is embedded unchanged: different URIs give different URLs. */
  lemma RequestPermissionInjective(client: Infusionsoft, r1: string, r2: string)
    requires client.RequestPermission(r1) == client.RequestPermission(r2)
    ensures r1 == r2
  {
    var p := OAuthRequestEndpoint + "?client_id=" + client.clientId + "&redirect_uri=";
    var s := "&response_type=code&scope=full";
    var u1, u2 := client.RequestPermission(r1), client.RequestPermission(r2);
    assert u1 == p + r1 + s && u2 == p + r2 + s;
    assert |r1| == |r2|;
    assert u1[|p|..|p| + |r1|] == r1;
    assert u2[|p|..|p| + |r2|] == r2;
  }

  // The Basic credentials of the refresh request.

  /**
   * A Basic value decodes to `text` exactly when it is `Basic ` followed by
   * the base 64 of the UTF-8 octets of `text`: the header loses nothing,
   * multi-byte characters included.
   */
  lemma BasicRoundTrip(text: string, value: string)
    ensures DecodeBasic(value) == Some(text) <==> value == "Basic " + Base64.Encode(Utf8.Encode(text))
  {
    var octets := Utf8.Encode(text);
    Utf8.RoundTrip(octets, text);
    if value == "Basic " + Base64.Encode(octets) {
      PrefixOfAppend("Basic ", Base64.Encode(octets));
      Base64.RoundTrip(Base64.Encode(octets), octets);
    }
    if DecodeBasic(value) == Some(text) {
      var o :| Base64.Decode(value[6..]) == Some(o) && Utf8.Decode(o) == Some(text);
      Base64.RoundTrip(value[6..], o);
      Utf8.RoundTrip(o, text);
      assert value == value[..6] + value[6..];
    }
  }

  lemma MultiByteOctets()
    ensures Utf8.Encode("a:\U{E9}") == [0x61, 0x3A, 0xC3, 0xA9]
  {
    var s := "a:\U{E9}";
    assert s[1..] == ":\U{E9}" && s[1..][1..] == "\U{E9}" && s[1..][1..][1..] == [];
    assert Utf8.EncodeScalar('\U{E9}') == [0xC3, 0xA9];
    assert Utf8.Encode("\U{E9}") == [0xC3, 0xA9];
    assert Utf8.Encode(":\U{E9}") == [0x3A, 0xC3, 0xA9];
  }

  lemma MultiByteBase64()
    ensures Base64.Encode([0x61, 0x3A, 0xC3, 0xA9]) == "YTrDqQ=="
  {
    var bs: seq<Utf8.byte> := [0x61, 0x3A, 0xC3, 0xA9];
    assert bs[3..] == [0xA9];
  }

  /** A two-octet character in the secret: `a` and `é` give `Basic YTrDqQ==`. */
  lemma BasicAuthorizationMultiByte()
    ensures BasicAuthorization("a", "\U{E9}") == "Basic YTrDqQ=="
    ensures DecodeBasic("Basic YTrDqQ==") == Some("a:\U{E9}")
  {
    assert "a" + ":" + "\U{E9}" == "a:\U{E9}";
    MultiByteOctets();
    MultiByteBase64();
    BasicRoundTrip("a:\U{E9}", "Basic YTrDqQ==");
  }

  /** The refresh header carries exactly these credentials: no two credential pairs share a header. */
  lemma BasicAuthorizationInjective(id1: string, secret1: string, id2: string, secret2: string)
    requires ':' !in id1 && ':' !in id2
    requires BasicAuthorization(id1, secret1) == BasicAuthorization(id2, secret2)
    ensures id1 == id2 && secret1 == secret2
  {
    BasicRoundTrip(id1 + ":" + secret1, BasicAuthorization(id1, secret1));
    BasicRoundTrip(id2 + ":" + secret2, BasicAuthorization(id2, secret2));
    CredentialsSplit(id1, secret1);
    CredentialsSplit(id2, secret2);
  }

  /**
   * `clientId:clientSecret` splits back into the two credentials exactly
   * when the client id holds no colon.
   */
  lemma CredentialsSplit(clientId: string, clientSecret: string)
    ensures SplitCredentials(clientId + ":" + clientSecret) == Some((clientId, clientSecret)) <==> ':' !in clientId
  {
    var text := clientId + ":" + clientSecret;
    if ':' !in clientId {
      IndexOfAfterPrefix(clientId, ':', clientSecret);
      assert text[..|clientId|] == clientId;
      assert text[|clientId| + 1..] == clientSecret;
    } else {
      var k :| 0 <= k < |clientId| && clientId[k] == ':';
      assert text[k] == ':';
      assert IndexOf(text, ':') <= k;
    }
  }

  // `api` and the options it is built from.

  /**
   * `api` loses nothing but a falsy body: the options read back from the
   * request exactly when the body is absent or truthy.
   */
  lemma RecoverApi(opts: RequestSpec)
    ensures Recover(Api(opts)) == Some(opts) <==> opts.body == Undefined || Truthy(opts.body)
  {
    var r := Api(opts);
    PrefixOfAppend(ApiEndpoint, opts.path);
    PrefixOfAppend("Bearer ", opts.token);
    assert r.url[|ApiEndpoint|..] == opts.path;
    assert r.headers[0].value[7..] == opts.token;
  }

  /** Every request `Recover` accepts is the one `api` builds from what it reads back. */
  lemma ApiRecover(r: HttpRequest, opts: RequestSpec)
    requires Recover(r) == Some(opts)
    ensures Api(opts) == r
  {
    assert r.url == r.url[..|ApiEndpoint|] + r.url[|ApiEndpoint|..];
    var value := r.headers[0].value;
    assert value == value[..7] + value[7..];
    assert r.headers == [Header("Authorization", value)];
  }

  /** Only the body of `api`'s request depends on the body option. */
  lemma ApiBodyIndependent(a: RequestSpec, b: RequestSpec)
    requires a.verb == b.verb && a.path == b.path && a.token == b.token
    ensures Api(a).(body := None) == Api(b).(body := None)
    ensures Truthy(a.body) == Truthy(b.body) && a.body == b.body ==> Api(a) == Api(b)
  {
  }

  // Pre-encoded arguments and a percent-decoding reader.

  lemma FieldNamesUnreserved()
    ensures UriComponent.AllUnreserved("client_id") && UriComponent.AllUnreserved("redirect_uri")
    ensures UriComponent.AllUnreserved("response_type") && UriComponent.AllUnreserved("scope")
    ensures UriComponent.AllUnreserved("code") && UriComponent.AllUnreserved("full")
  {
  }

  /** The four fields of the authorization query, as a filter object. */
  function AuthorizationFilters(clientId: string, redirectUri: string): Query.FilterSet
  {
    [Query.Filter("client_id", Query.Text(clientId)), Query.Filter("redirect_uri", Query.Text(redirectUri)),
     Query.Filter("response_type", Query.Text("code")), Query.Filter("scope", Query.Text("full"))]
  }

  lemma TextItemOfField(name: string, value: string)
    requires UriComponent.AllUnreserved(name)
    ensures Query.EncodeItem(Query.Filter(name, Query.Text(value))) == Item(name, UriComponent.Encode(value))
  {
    Query.TextItem(name, value, UriComponent.Encode(value));
  }

  lemma AuthorizationFilterItems(clientId: string, redirectUri: string)
    ensures Query.Items(AuthorizationFilters(clientId, redirectUri))
      == [Item("client_id", UriComponent.Encode(clientId)), Item("redirect_uri", UriComponent.Encode(redirectUri)),
          Item("response_type", "code"), Item("scope", "full")]
  {
    var fs := AuthorizationFilters(clientId, redirectUri);
    FieldNamesUnreserved();
    UriComponent.EncodeUnreserved("code");
    UriComponent.EncodeUnreserved("full");
    TextItemOfField("client_id", clientId);
    TextItemOfField("redirect_uri", redirectUri);
    TextItemOfField("response_type", "code");
    TextItemOfField("scope", "full");
    Query.ItemsOfFour(fs);
  }

  lemma ParseFiltersOfFour(filters: Query.FilterSet, a: string, b: string, c: string, d: string)
    requires Query.Items(filters) == [a, b, c, d]
    ensures Query.ParseFilters(filters) == "?" + (a + "&" + b + "&" + c + "&" + d)
  {
    JoinOfFour(a, b, c, d);
  }

  /** The authorization query of encoded arguments is `_parseFilters` of the four fields. */
  lemma AuthorizationFiltersQuery(clientId: string, redirectUri: string)
    ensures Query.ParseFilters(AuthorizationFilters(clientId, redirectUri))
      == "?" + AuthorizationQuery(UriComponent.Encode(clientId), UriComponent.Encode(redirectUri))
  {
    var id, uri := UriComponent.Encode(clientId), UriComponent.Encode(redirectUri);
    AuthorizationFilterItems(clientId, redirectUri);
    ParseFiltersOfFour(AuthorizationFilters(clientId, redirectUri),
      Item("client_id", id), Item("redirect_uri", uri), Item("response_type", "code"), Item("scope", "full"));
    AuthorizationQueryPieces(id, uri);
  }

  lemma AuthorizationPairs(clientId: string, redirectUri: string)
    ensures Query.Pairs(AuthorizationFilters(clientId, redirectUri))
      == [("client_id", clientId), ("redirect_uri", redirectUri), ("response_type", "code"), ("scope", "full")]
  {
    var ps := Query.Pairs(AuthorizationFilters(clientId, redirectUri));
    assert |ps| == 4;
    assert ps[0] == ("client_id", clientId) && ps[1] == ("redirect_uri", redirectUri);
    assert ps[2] == ("response_type", "code") && ps[3] == ("scope", "full");
  }

  lemma QueryOfUrl(url: string)
    requires HasPrefix(url, OAuthRequestEndpoint + "?")
    ensures url[|OAuthRequestEndpoint|..] == "?" + url[|OAuthRequestEndpoint| + 1..]
  {
    assert url[|OAuthRequestEndpoint|] == (OAuthRequestEndpoint + "?")[|OAuthRequestEndpoint|];
  }

  /**
   * With both arguments passed through `encodeURIComponent` first, the
   * authorization query is `_parseFilters` of the four fields, so a reader
   * that percent-decodes gets back the original client id and redirect URI,
   * whatever characters they hold.
   */
  lemma RequestPermissionEncoded(clientId: string, clientSecret: string, redirectUri: string)
    ensures var url := Infusionsoft(UriComponent.Encode(clientId), clientSecret)
      .RequestPermission(UriComponent.Encode(redirectUri));
      Query.ParseQuery(url[|OAuthRequestEndpoint|..])
        == Some([("client_id", clientId), ("redirect_uri", redirectUri), ("response_type", "code"), ("scope", "full")])
  {
    var url := Infusionsoft(UriComponent.Encode(clientId), clientSecret).RequestPermission(UriComponent.Encode(redirectUri));
    QueryOfUrl(url);
    AuthorizationFiltersQuery(clientId, redirectUri);
    Query.ParseQueryOfParseFilters(AuthorizationFilters(clientId, redirectUri));
    AuthorizationPairs(clientId, redirectUri);
  }
}
