/**
 * The REST resources the client can address, as a reference table: which
 * HTTP verb on which path (relative to the API endpoint) names which
 * resource operation, with the appointment id and the decoded filters it
 * carries.  `Classify` reads a request back into its operation; each
 * resource function of the client is proved to produce a request that
 * `Classify` maps to its own operation.
 */
module Routes {
  import opened Wrappers
  import Query
  import Decimal
  import opened Strings

  /** The twelve operations of the API surface, with the arguments visible in the request. */
  datatype Operation =
    | GetAccountInfo
    | UpdateAccountInfo
    | GetAffiliateCommissions(filters: seq<(string, string)>)
    | GetAffiliateModel
    | GetAppointments(filters: seq<(string, string)>)
    | CreateAppointment
    | DeleteAppointment(id: int)
    | GetAppointment(id: int)
    | UpdateAppointment(id: int)
    | ReplaceAppointment(id: int)
    | GetAppointmentsModel
    | CreateAppointmentsCustomField

  /** Requests on one appointment: the method picks the operation. */
  function ClassifyAppointment(verb: string, id: int): Option<Operation>
  {
    if verb == "DELETE" then Some(DeleteAppointment(id))
    else if verb == "GET" then Some(GetAppointment(id))
    else if verb == "PATCH" then Some(UpdateAppointment(id))
    else if verb == "PUT" then Some(ReplaceAppointment(id))
    else None
  }

  /** Paths below `/appointments`; `rest` is what follows that prefix. */
  function ClassifyAppointments(verb: string, rest: string): Option<Operation>
  {
    if rest == [] then
      if verb == "POST" then Some(CreateAppointment) else None
    else if rest[0] == '?' then
      if verb != "GET" then None
      else match Query.ParseQuery(rest)
        case None => None
        case Some(filters) => Some(GetAppointments(filters))
    else if rest == "/model" then
      if verb == "GET" then Some(GetAppointmentsModel) else None
    else if rest == "/model/customFields" then
      if verb == "POST" then Some(CreateAppointmentsCustomField) else None
    else if rest[0] == '/' then
      match Decimal.Parse(rest[1..])
      case None => None
      case Some(id) => ClassifyAppointment(verb, id)
    else None
  }

  /** Paths below `/affiliates/`; `rest` is what follows that prefix. */
  function ClassifyAffiliates(verb: string, rest: string): Option<Operation>
  {
    if rest == "model" then
      if verb == "GET" then Some(GetAffiliateModel) else None
    else if HasPrefix(rest, "commissions") && verb == "GET" then
      match Query.ParseQuery(rest[11..])
      case None => None
      case Some(filters) => Some(GetAffiliateCommissions(filters))
    else None
  }

  /** The operation a request with this method and path performs, if any. */
  function Classify(verb: string, path: string): Option<Operation>
  {
    if HasPrefix(path, "/appointments") then ClassifyAppointments(verb, path[13..])
    else if HasPrefix(path, "/affiliates/") then ClassifyAffiliates(verb, path[12..])
    else if path == "/account/profile" then
      if verb == "GET" then Some(GetAccountInfo)
      else if verb == "PUT" then Some(UpdateAccountInfo)
      else None
    else None
  }

  lemma AccountProfile(verb: string)
    ensures Classify(verb, "/account/profile")
      == if verb == "GET" then Some(GetAccountInfo) else if verb == "PUT" then Some(UpdateAccountInfo) else None
  {
    NotPrefixAt("/account/profile", "/appointments", 2);
    NotPrefixAt("/account/profile", "/affiliates/", 2);
  }

  lemma AffiliateModel(verb: string)
    ensures Classify(verb, "/affiliates/model") == if verb == "GET" then Some(GetAffiliateModel) else None
  {
    Affiliates(verb, "model");
    assert "/affiliates/" + "model" == "/affiliates/model";
  }

  lemma Affiliates(verb: string, rest: string)
    ensures Classify(verb, "/affiliates/" + rest) == ClassifyAffiliates(verb, rest)
  {
    NotPrefixAt("/affiliates/" + rest, "/appointments", 2);
    PrefixOfAppend("/affiliates/", rest);
  }

  lemma Commissions(q: string)
    ensures Classify("GET", "/affiliates/commissions" + q)
      == match Query.ParseQuery(q)
         case None => None
         case Some(filters) => Some(GetAffiliateCommissions(filters))
  {
    assert "/affiliates/commissions" + q == "/affiliates/" + ("commissions" + q);
    Affiliates("GET", "commissions" + q);
    PrefixOfAppend("commissions", q);
    assert |"commissions" + q| != |"model"|;
  }

  /** A commissions query is read back with its filters decoded. */
  lemma AffiliateCommissions(filters: Query.FilterSet)
    ensures Classify("GET", "/affiliates/commissions" + Query.ParseFilters(filters))
      == Some(GetAffiliateCommissions(Query.Pairs(filters)))
  {
    Commissions(Query.ParseFilters(filters));
    Query.ParseQueryOfParseFilters(filters);
  }

  lemma Appointments(verb: string, rest: string)
    ensures Classify(verb, "/appointments" + rest) == ClassifyAppointments(verb, rest)
  {
    PrefixOfAppend("/appointments", rest);
  }

  /** An appointments query is read back with its filters decoded. */
  lemma AppointmentsQuery(filters: Query.FilterSet)
    ensures Classify("GET", "/appointments" + Query.ParseFilters(filters))
      == Some(GetAppointments(Query.Pairs(filters)))
  {
    Appointments("GET", Query.ParseFilters(filters));
    Query.ParseQueryOfParseFilters(filters);
  }

  /** The path of one appointment is read back as that appointment's id. */
  lemma AppointmentId(verb: string, id: int)
    ensures Classify(verb, "/appointments/" + Decimal.FromInt(id)) == ClassifyAppointment(verb, id)
  {
    var d := Decimal.FromInt(id);
    assert "/appointments/" + d == "/appointments" + ("/" + d);
    Appointments(verb, "/" + d);
    var rest := "/" + d;
    assert rest[1] == d[0] && rest[1..] == d;
    assert rest != "/model" && rest != "/model/customFields" by {
      assert "/model"[1] == 'm' && "/model/customFields"[1] == 'm';
    }
    Decimal.ParseFromInt(id);
  }

  lemma AppointmentsRoot(verb: string)
    ensures Classify(verb, "/appointments") == if verb == "POST" then Some(CreateAppointment) else None
  {
    Appointments(verb, "");
    assert "/appointments" + "" == "/appointments";
  }

  lemma AppointmentsModel(verb: string)
    ensures Classify(verb, "/appointments/model") == if verb == "GET" then Some(GetAppointmentsModel) else None
  {
    Appointments(verb, "/model");
    assert "/appointments" + "/model" == "/appointments/model";
  }

  lemma AppointmentsCustomFields(verb: string)
    ensures Classify(verb, "/appointments/model/customFields")
      == if verb == "POST" then Some(CreateAppointmentsCustomField) else None
  {
    Appointments(verb, "/model/customFields");
    assert "/appointments" + "/model/customFields" == "/appointments/model/customFields";
  }
}
