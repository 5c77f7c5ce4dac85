# Infusionsoft REST client — a Dafny model of its request builders

The client (`index.js`) is a small wrapper around Infusionsoft's OAuth2
endpoints and REST API. A client object holds a client id and a client
secret. From these it builds:

- the authorization-grant URL (`requestPermission`);
- the two form posts to the token endpoint (`requestToken` for the
  authorization-code grant, `refreshToken` for the refresh grant, which
  carries the credentials in an HTTP Basic `Authorization` header);
- the authenticated request `api` hands to the transport (`Bearer` token,
  JSON, body only when truthy);
- twelve resource operations, each one call of `api` with a fixed method
  and path. Two of them append a query string that `_parseFilters` builds
  from a filter object.

Everything here is a pure function over datatypes. The source never mutates
the client after construction, so the client is the datatype
`Client.Infusionsoft` and its operations are functions on it. Every builder
yields the request it would send. Each one is paired with an independent
reading of that request:

- the query string is decoded back into its key/value pairs
  (`Query.ParseQuery`, which inverts `encodeURIComponent` through
  `UriComponent.Decode`);
- the Basic header is decoded back to `clientId:clientSecret`
  (`Client.DecodeBasic`, through `Base64.Decode` and `Utf8.Decode`);
- the `api` request is read back into its options (`Client.Recover`);
- a method and path are classified into the API operation they name
  (`Routes.Classify`, a reference table of the REST surface).

The modules, bottom up:

| module | file | what it models |
|---|---|---|
| `Wrappers` | wrappers.dfy | `Option` |
| `Strings` | strings.dfy | `indexOf`, `split` and `join` on one separator character |
| `Utf8` | utf8.dfy | UTF-8 encoding and strict decoding (RFC 3629), the `utf8.encode` step of the refresh header |
| `Base64` | base64.dfy | padded base 64 (section 4 of RFC 4648), the `base64.encode` step of the refresh header |
| `UriComponent` | uri.dfy | ECMAScript `encodeURIComponent` and `decodeURIComponent` |
| `Decimal` | decimal.dfy | JavaScript's string form of an integer, and parsing it back |
| `Query` | query.dfy | `_parseFilters`, and the server-side reading of its query |
| `Routes` | routes.dfy | which method and path name which API operation |
| `Client` | client.dfy | the endpoints, `requestPermission`, `requestToken`, `refreshToken`, `api`, the twelve resource operations |

## Model

| member | source | states |
|---|---|---|
| `Query.ParseFilters` | index.js:24-30 | The query starts with `?`. It is exactly `?` iff the filter object has no keys. Every later character is an unreserved character, a `%XX` escape character, `=` or `&`. |
| `Query.ParseQueryOfParseFilters` | index.js:24-30 | Decoding the query (split at `&`, split each item at its first `=`, percent-decode both halves) gives back every key with its stringified value, in key order. |
| `Query.ParseFiltersInjective` | index.js:24-30 | Two filter objects with the same query have the same key/value pairs: the encoding loses nothing. |
| `Query.ParseFiltersEmpty` | index.js:24-30 | The empty filter object gives `?`. |
| `Query.DecodeEncodeItem` | index.js:25-26 | One `key=value` item decodes to the key and to the string form of the value. |
| `Query.EncodeItem` | index.js:25-26 | The `map` callback's item `encodeURIComponent(key)=encodeURIComponent(value)` holds no `&` and only unreserved characters, `%XX` escape characters and `=`. |
| `Query.Items` | index.js:25-26 | One item per property, in key order. No item holds `&`, and each item decodes back to its property's key and printed value. |
| `Query.EncodeItemShape` | index.js:25-26 | An item has no `&`, and its first `=` is the one right after the encoded key. |
| `Query.ParseFiltersExample` | test/test.js:8-14 | `since` and `until` set to `2017-01-01T22:17:59.039Z` and `limit` set to 20 give `?since=2017-01-01T22%3A17%3A59.039Z&until=2017-01-01T22%3A17%3A59.039Z&limit=20`. |
| `Query.EncodeTimestamp` | test/test.js:9-10 | The timestamp is encoded with each `:` as `%3A`, and nothing else changes. |
| `Query.LimitItem` | test/test.js:11 | The number 20 is written as `limit=20`. |
| `UriComponent.Encode` | index.js:26 | Every output character is unreserved, `%` or an upper-case hex digit. |
| `UriComponent.DecodeEncode` | index.js:26 | `decodeURIComponent(encodeURIComponent(s)) == s` for every string, multi-byte characters included. |
| `UriComponent.EncodeEscaped` | index.js:26 | The output is a run of unreserved characters and `%XX` triples with upper-case hex. |
| `UriComponent.EncodeHasNoDelimiters` | index.js:26-27 | An encoded key or value never holds `&`, `=`, `?`, `:` or a space, and is ASCII. |
| `UriComponent.EncodeUnreserved` | index.js:26 | A string of unreserved characters is left unchanged. |
| `UriComponent.EncodeAppend` | index.js:26 | Encoding works character by character: the encoding of a concatenation is the concatenation of the encodings. |
| `Decimal.FromInt` | index.js:26 | `String(n)` for an integer: it starts with `-` iff `n` is negative, and the digits have no superfluous leading zero. `Decimal.RoundTrip` is its inverse. |
| `Decimal.RoundTrip` | index.js:26 | A string parses to the integer `n` iff it is the string form of `n`. This covers number values in filters and appointment ids in paths. |
| `Strings.SplitJoin` | index.js:25-27 | Splitting at `&` the join of parts that hold no `&` gives back exactly those parts. |
| `Strings.SplitCount` | index.js:27 | A string splits into one more part than it holds separators. |
| `Utf8.Encode` | index.js:59 | `utf8.encode`: at least one and at most four octets per character, and exactly one per character iff every character is below 0x80. `Utf8.RoundTrip` is its inverse. |
| `Utf8.RoundTrip` | index.js:59 | Decoding octets strictly gives `s` iff they are the UTF-8 encoding of `s`. |
| `Utf8.EncodeAscii` | index.js:59 | Characters below 0x80 encode to one octet each, their own code. |
| `Base64.Encode` | index.js:68 | The output has `4 * ceil(n / 3)` characters, all from the base 64 alphabet or `=`. |
| `Base64.RoundTrip` | index.js:68 | Decoding a string gives the octets `bs` iff the string is the padded encoding of `bs`. |
| `Client.Infusionsoft.RequestToken` | index.js:36-47 | The form posts to the token endpoint with no headers. It has five fields: `client_id`, `client_secret`, `code`, `grant_type=authorization_code` and `redirect_uri`. |
| `Client.Infusionsoft.RefreshToken` | index.js:57-69 | The form posts to the token endpoint with two fields, `grant_type=refresh_token` and `refresh_token`. The credentials are not in the form. One `Authorization` header decodes back to `clientId:clientSecret`. |
| `Client.Infusionsoft.RequestPermission` | index.js:32-34 | The template with the client id and redirect URI inserted as given, nothing escaped: the authorize endpoint, `?`, then `client_id=…&redirect_uri=…&response_type=code&scope=full`. `Client.RequestPermissionQuery` and `Client.RequestPermissionEncoded` say how it reads back. |
| `Client.RequestPermissionQuery` | index.js:32-34 | The URL is the authorize endpoint and `?`. Its query, split at `&` and each item at its first `=` without percent-decoding, gives exactly `client_id`, `redirect_uri`, `response_type=code` and `scope=full`, with the client id and redirect URI verbatim, iff neither holds `&`. |
| `Client.RequestPermissionEncoded` | index.js:32-34 | When the caller passes the client id and redirect URI through `encodeURIComponent` first, the query is `_parseFilters` of the four fields. A reader that percent-decodes gets back the original values, whatever characters they hold. |
| `Client.RequestPermissionInjective` | index.js:33 | The redirect URI is inserted unchanged: different URIs give different URLs. |
| `Client.BasicAuthorization` | index.js:59-68 | The header value starts with `Basic ` and decodes (base 64, then UTF-8) back to `clientId:clientSecret`. |
| `Client.BasicRoundTrip` | index.js:59-68 | A header value decodes to `text` iff it is `Basic ` followed by the base 64 of the UTF-8 octets of `text`. |
| `Client.BasicAuthorizationMultiByte` | index.js:59-68 | `a` and `é` give `Basic YTrDqQ==`, and that decodes back to `a:é`. |
| `Client.CredentialsSplit` | index.js:59 | `clientId:clientSecret` splits back at its first colon into the two credentials iff the client id holds no colon. |
| `Client.BasicAuthorizationInjective` | index.js:59-68 | For client ids without a colon, equal headers mean equal credentials. |
| `Client.Api` | index.js:86-97 | Same method. JSON is set. The URL is the API endpoint followed by the path. There is exactly one header, `Authorization: Bearer <token>`. A body is attached iff the body option is truthy, and then it is that body. |
| `Client.RecoverApi` | index.js:86-97 | The options read back from `api`'s request iff the body was absent or truthy. |
| `Client.ApiRecover` | index.js:86-97 | Every request read back into options is the request `api` builds from them. |
| `Client.ApiBodyIndependent` | index.js:86-97 | The body option affects only the request's body. |
| `Client.GetAccountInfo` | index.js:113-125 | `GET /account/profile` with the token and no body. |
| `Client.UpdateAccountInfo` | index.js:132-145 | `PUT /account/profile` with the token and the payload. |
| `Client.GetAffiliateCommissions` | index.js:152-164 | `GET /affiliates/commissions` with the filter query, which reads back as the filters' pairs. Token, no body. |
| `Client.GetAffiliateModel` | index.js:170-182 | `GET /affiliates/model` with the token and no body. |
| `Client.GetAppointments` | index.js:189-201 | `GET /appointments` with the filter query, which reads back as the filters' pairs. Token, no body. |
| `Client.CreateAppointment` | index.js:208-221 | `POST /appointments` with the token and the payload. |
| `Client.DeleteAppointment` | index.js:228-240 | `DELETE /appointments/<id>`, where the path reads back as that id. Token, no body. |
| `Client.GetAppointment` | index.js:247-259 | `GET /appointments/<id>`, where the path reads back as that id. Token, no body. |
| `Client.UpdateAppointment` | index.js:267-280 | `PATCH /appointments/<id>`, where the path reads back as that id. Token and payload. |
| `Client.ReplaceAppointment` | index.js:288-301 | `PUT /appointments/<id>`, where the path reads back as that id. Token and payload. |
| `Client.GetAppointmentsModel` | index.js:307-319 | `GET /appointments/model` with the token and no body. |
| `Client.CreateAppointmentsCustomField` | index.js:326-339 | `POST /appointments/model/customFields` with the token and the payload. |

The endpoint constants of the constructor (index.js:12-15) are the
`Client` constants `ApiVersion`, `ApiEndpoint`, `AuthEndpoint` and
`OAuthRequestEndpoint`. Every resource operation returns the options it
passes to `api`, and `Client.Api` turns those into the request. A
resource's contract says that `Routes.Classify`, applied to its method and
path, names that resource's own operation. For the two filtered operations,
the decoded filters must match too. For the four single-appointment
operations, the id must match too.

## Left out

- HTTP transport, promises and callbacks: the `request` calls, the
  resolve/reject plumbing and `JSON.parse` of the token response are I/O.
  Each builder stops at the request it would hand over.
- Form encoding of `requestToken` and `refreshToken` bodies: the HTTP
  library does it. The model keeps the form as an ordered list of fields.
- `Object.keys` order: a filter object is a sequence of key/value entries
  in enumeration order, and keys need not be distinct. JavaScript's rule
  that integer-like keys come first is not modelled.
- Filter values and request bodies: numbers are integers only. Fractions,
  NaN, `-0`, exponent notation and numbers beyond 2^53 are not modelled.
  A filter value is a string or an integer; other value kinds are not
  modelled.
- `encodeURIComponent` throws `URIError` on a lone surrogate. Dafny's
  `char` is a Unicode scalar value, so lone surrogates cannot be written
  and that error path is not modelled.
- The `utf8` and `base-64` packages: only their documented behaviour is
  modelled (RFC 3629 encoding, RFC 4648 padded base 64), not their
  internals.
- Appointment ids: modelled as integers, as the documentation comments
  declare. A string id such as `model` would make
  `deleteAppointment`/`getAppointment` paths coincide with
  `getAppointmentsModel`; the model does not admit it.
- `api`'s `method` option: a plain string. The source passes it through
  unchecked, and so does the model.
- The redirect URI and client id in `requestPermission` are inserted
  unescaped, and the source does not correct that.
  `Client.RequestPermissionQuery` describes a reader that splits at `&`
  and `=` without percent-decoding. A server that also percent-decodes
  misreads more values: any `%XX` sequence is decoded, so `%41` reads as
  `A`. A server that decodes forms also reads `+` as a space, and a `#`
  ends the URL. `Client.RequestPermissionEncoded` covers the case where the
  caller pre-encodes both values.
- Query.ParseFilters, Client.GetAppointments, Client.GetAffiliateCommissions: the filter
  argument is always a filter object. A filter argument that is not an
  object is not modelled. For `undefined` or `null`, `Object.keys` throws
  `TypeError` in the source, so the two resource operations reject and
  build no request. A string argument would be read as an object whose
  keys are its indices.
