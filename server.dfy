/**
 * The HTTP endpoints' decisions: how a request body is read, how the admin's
 * Basic credentials are checked, and which status code and content each endpoint
 * answers with. The network, the agent's language model and the database
 * queries are inputs: the decoded body (or its absence), the agent's reply, the
 * outcome of the subscriber query, and whether an insert fails.
 */
module Server {
  import opened Wrappers
  import opened Text
  import opened Validators
  import opened SubscriberStore
  import VibeAgent

  // ---------------------------------------------------------------- JSON values

  datatype Json =
    | JNull
    | JBool(b: bool)
    | JNum(n: real)
    | JStr(s: string)
    | JArr(items: seq<Json>)
    | JObj(fields: map<string, Json>)

  /** Python truthiness of a decoded JSON value. */
  predicate Truthy(v: Json) {
    match v
    case JNull => false
    case JBool(b) => b
    case JNum(n) => n != 0.0
    case JStr(s) => s != []
    case JArr(items) => items != []
    case JObj(fields) => fields != map[]
  }

  /** `parse_json_body`: the decoded body, or an empty object when the body is not JSON. */
  function ParseJsonBody(decoded: Option<Json>): (body: Json)
    ensures decoded.None? ==> body == JObj(map[])
    ensures decoded.Some? ==> body == decoded.value
  {
    if decoded.Some? then decoded.value else JObj(map[])
  }

  /** `dict.get(key, "")`. */
  function Get(fields: map<string, Json>, key: string): Json {
    if key in fields then fields[key] else JStr("")
  }

  // ---------------------------------------------------------------- responses

  datatype Body =
    | JsonBody(json: Json)
    | TextBody(text: string)
    | InternalError  // an exception escaped the handler: the framework's own 500 answer

  /** A response: its status, its content and its WWW-Authenticate challenge, if any. */
  datatype Response = Response(status: nat, body: Body, challenge: Option<string>)

  const Challenge: string := "Basic realm=\"Admin Area\""

  function Failure(status: nat, message: string): Response {
    Response(status, JsonBody(JObj(map["success" := JBool(false), "message" := JStr(message)])), None)
  }

  // ---------------------------------------------------------------- admin authentication

  /**
   * `check_admin_auth`: the header (absent counts as empty) must start with "Basic ",
   * the rest must decode (base64 then UTF-8, `decode` here) and split on ':' into
   * exactly two pieces, which must be the configured name and password.
   */
  function CheckAdminAuth(header: Option<string>, decode: string -> Option<string>, user: string, password: string): (b: bool)
    ensures b ==> header.Some? && |header.value| >= 6 && header.value[..6] == "Basic " && decode(header.value[6..]).Some?
  {
    var h := if header.Some? then header.value else "";
    if |h| < 6 || h[..6] != "Basic " then false
    else
      var decoded := decode(h[6..]);
      if decoded.None? then false
      else
        var pieces := Split(decoded.value, ':');
        |pieces| == 2 && pieces[0] == user && pieces[1] == password
  }

  lemma JoinTwo(a: string, b: string, sep: char)
    ensures Join([a, b], sep) == a + [sep] + b
  {
    assert [a, b][1..] == [b];
  }

  /**
   * The check passes exactly when the header is "Basic " followed by text that decodes
   * to name ':' password, and neither the name nor the password holds a ':'.
   */
  lemma CheckAdminAuthCorrect(header: Option<string>, decode: string -> Option<string>, user: string, password: string)
    ensures CheckAdminAuth(header, decode, user, password) <==>
      header.Some? && |header.value| >= 6 && header.value[..6] == "Basic " &&
      decode(header.value[6..]) == Some(user + [':'] + password) &&
      ':' !in user && ':' !in password
  {
    JoinTwo(user, password, ':');
    if header.Some? && |header.value| >= 6 && header.value[..6] == "Basic " {
      var decoded := decode(header.value[6..]);
      if decoded.Some? {
        var pieces := Split(decoded.value, ':');
        if |pieces| == 2 {
          JoinTwo(pieces[0], pieces[1], ':');
          assert pieces == [pieces[0], pieces[1]];
        }
      }
      if ':' !in user && ':' !in password {
        SplitJoin([user, password], ':');
      }
    }
  }

  /**
   * The decoded credentials of an accepted header hold exactly one ':', so a
   * password with a ':' never gets in (section 2 of RFC 7617 splits at the first
   * colon and allows colons in the password).
   */
  lemma AcceptedHasOneColon(header: Option<string>, decode: string -> Option<string>, user: string, password: string)
    requires CheckAdminAuth(header, decode, user, password)
    ensures decode(header.value[6..]).Some? && Count(decode(header.value[6..]).value, ':') == 1
    ensures ':' !in password
  {
    SplitTwoIffOneSeparator(decode(header.value[6..]).value, ':');
    CheckAdminAuthCorrect(header, decode, user, password);
  }

  // ---------------------------------------------------------------- /api/chat

  /** `/api/chat`: a missing or falsy message is refused; otherwise the agent's reply is returned. */
  function ChatEndpoint(decoded: Option<Json>, agentReply: Json): (r: Response)
    ensures r.status == 400 <==> ParseJsonBody(decoded).JObj? && !Truthy(Get(ParseJsonBody(decoded).fields, "message"))
    ensures r.status == 400 ==> r == Failure(400, "Message is required")
    ensures r.status == 200 <==> ParseJsonBody(decoded).JObj? && Truthy(Get(ParseJsonBody(decoded).fields, "message"))
    ensures r.status == 200 ==> r == Response(200, JsonBody(agentReply), None)
    ensures !ParseJsonBody(decoded).JObj? ==> r == Response(500, InternalError, None)
    ensures decoded.None? ==> r == Failure(400, "Message is required")
  {
    var body := ParseJsonBody(decoded);
    if !body.JObj? then Response(500, InternalError, None)
    else
      var message := Get(body.fields, "message");
      if !Truthy(message) then Failure(400, "Message is required")
      else Response(200, JsonBody(agentReply), None)
  }

  // ---------------------------------------------------------------- /api/subscribe

  /** `/api/subscribe`: the response and the subscriber set after it. */
  function SubscribeEndpoint(emails: set<string>, decoded: Option<Json>, fault: bool): (r: (Response, set<string>))
    ensures r.0.status in {200, 400, 500}
    ensures emails <= r.1 && (r.0.status != 200 ==> r.1 == emails)
  {
    var body := ParseJsonBody(decoded);
    if !body.JObj? then (Response(500, InternalError, None), emails)
    else
      var email := Get(body.fields, "email");
      if !Truthy(email) then (Failure(400, "Email cannot be empty"), emails)
      else if !email.JStr? then (Response(500, InternalError, None), emails)  // the pattern match needs a string
      else
        var (valid, error) := ValidateEmail(email.s);
        if !valid then (Failure(400, error), emails)
        else if !fault && email.s !in emails then
          (Response(200, JsonBody(JObj(map["success" := JBool(true), "message" := JStr(VibeAgent.ThankYou)])), None),
           emails + {email.s})
        else (Failure(500, VibeAgent.FailedToSubscribe), emails)
  }

  /** `/api/subscribe` over the store. */
  method Subscribe(store: Store, decoded: Option<Json>, fault: bool) returns (r: Response)
    modifies store
    ensures (r, store.emails) == SubscribeEndpoint(old(store.emails), decoded, fault)
  {
    var body := ParseJsonBody(decoded);
    if !body.JObj? {
      return Response(500, InternalError, None);
    }
    var email := Get(body.fields, "email");
    if !Truthy(email) {
      return Failure(400, "Email cannot be empty");
    }
    if !email.JStr? {
      return Response(500, InternalError, None);
    }
    var (valid, error) := ValidateEmail(email.s);
    if !valid {
      return Failure(400, error);
    }
    var added := store.AddEmail(email.s, fault);
    if added {
      return Response(200, JsonBody(JObj(map["success" := JBool(true), "message" := JStr(VibeAgent.ThankYou)])), None);
    }
    return Failure(500, VibeAgent.FailedToSubscribe);
  }

  /** The e-mail field of a body, when the body is an object. */
  function EmailField(decoded: Option<Json>): Json
    requires ParseJsonBody(decoded).JObj?
  {
    Get(ParseJsonBody(decoded).fields, "email")
  }

  /**
   * 200 exactly for a new valid address the database takes, with the thanks, and
   * then the set gains it; 400 exactly for a falsy or invalid address, with the
   * fixed or the validator's message; every other request is a 500 and changes
   * nothing: the fixed failure for a valid address the insert refuses, the internal
   * error for a body that is not an object or an address that is not a string.
   */
  lemma SubscribeStatuses(emails: set<string>, decoded: Option<Json>, fault: bool)
    ensures var (r, after) := SubscribeEndpoint(emails, decoded, fault);
      && (r.status == 200 <==>
            ParseJsonBody(decoded).JObj? && EmailField(decoded).JStr? &&
            ValidateEmail(EmailField(decoded).s).0 && EmailField(decoded).s !in emails && !fault)
      && (r.status == 200 ==> after == emails + {EmailField(decoded).s})
      && (r.status != 200 ==> after == emails)
      && (r.status == 400 <==>
            ParseJsonBody(decoded).JObj? &&
            (!Truthy(EmailField(decoded)) || (EmailField(decoded).JStr? && !ValidateEmail(EmailField(decoded).s).0)))
      && (r.status in {200, 400, 500})
    ensures ParseJsonBody(decoded).JObj? && !Truthy(EmailField(decoded)) ==>
      SubscribeEndpoint(emails, decoded, fault).0 == Failure(400, "Email cannot be empty")
    ensures ParseJsonBody(decoded).JObj? && EmailField(decoded).JStr? && !ValidateEmail(EmailField(decoded).s).0 ==>
      SubscribeEndpoint(emails, decoded, fault).0 == Failure(400, ValidateEmail(EmailField(decoded).s).1)
    ensures SubscribeEndpoint(emails, decoded, fault).0.status == 200 ==>
      SubscribeEndpoint(emails, decoded, fault).0 ==
        Response(200, JsonBody(JObj(map["success" := JBool(true), "message" := JStr(VibeAgent.ThankYou)])), None)
    ensures ParseJsonBody(decoded).JObj? && EmailField(decoded).JStr? && ValidateEmail(EmailField(decoded).s).0 &&
            (fault || EmailField(decoded).s in emails) ==>
      SubscribeEndpoint(emails, decoded, fault).0 == Failure(500, VibeAgent.FailedToSubscribe)
    ensures !ParseJsonBody(decoded).JObj? || (Truthy(EmailField(decoded)) && !EmailField(decoded).JStr?) ==>
      SubscribeEndpoint(emails, decoded, fault).0 == Response(500, InternalError, None)
  {
    var body := ParseJsonBody(decoded);
    if body.JObj? {
      var email := EmailField(decoded);
      if email.JStr? {
        ValidateEmailCorrect(email.s);
      }
    }
  }

  /**
   * Subscribing an address that is already stored answers 500, whereas the agent's
   * subscription call reports success for it.
   */
  lemma ResubscribeFails(emails: set<string>, email: string, fault: bool)
    requires email in emails && ValidateEmail(email).0
    ensures SubscribeEndpoint(emails, Some(JObj(map["email" := JStr(email)])), fault) ==
      (Failure(500, VibeAgent.FailedToSubscribe), emails)
    ensures VibeAgent.Subscribe(emails, email, fault).0.success
  {
    assert Get(map["email" := JStr(email)], "email") == JStr(email);
  }

  /** A body that is not JSON reads as `{}`: the address is empty and the answer is 400. */
  lemma UnparsedBodyIsEmptyEmail(emails: set<string>, fault: bool)
    ensures SubscribeEndpoint(emails, None, fault) == (Failure(400, "Email cannot be empty"), emails)
  {
  }

  // ---------------------------------------------------------------- admin endpoints

  /** One row of the subscriber table. */
  datatype Row = Row(id: int, email: string, createdAt: string)

  /** The subscriber query: its rows (newest first), or the error it raised. */
  datatype Fetch = Rows(rows: seq<Row>) | Failed(error: string, details: string)

  function RowJson(row: Row): Json {
    JObj(map["id" := JNum(row.id as real), "email" := JStr(row.email), "created_at" := JStr(row.createdAt)])
  }

  function Emails(rows: seq<Row>): (r: seq<string>)
    ensures |r| == |rows| && forall k :: 0 <= k < |rows| ==> r[k] == rows[k].email
  {
    seq(|rows|, k requires 0 <= k < |rows| => rows[k].email)
  }

  /** `/api/admin/subscribers`. */
  function AdminSubscribers(header: Option<string>, decode: string -> Option<string>, user: string, password: string,
                            fetch: Fetch): (r: Response)
    ensures !CheckAdminAuth(header, decode, user, password) ==>
      r == Response(401, JsonBody(JObj(map["success" := JBool(false), "message" := JStr("Unauthorized")])), Some(Challenge))
    ensures CheckAdminAuth(header, decode, user, password) && fetch.Rows? ==>
      r.status == 200 && r.body.JsonBody? && r.body.json.JObj? &&
      "total" in r.body.json.fields && "subscribers" in r.body.json.fields &&
      r.body.json.fields["total"] == JNum(|fetch.rows| as real) &&
      r.body.json.fields["subscribers"].JArr? && |r.body.json.fields["subscribers"].items| == |fetch.rows| &&
      forall k :: 0 <= k < |fetch.rows| ==> r.body.json.fields["subscribers"].items[k] == RowJson(fetch.rows[k])
    ensures CheckAdminAuth(header, decode, user, password) && fetch.Failed? ==> r.status == 500
  {
    if !CheckAdminAuth(header, decode, user, password) then
      Response(401, JsonBody(JObj(map["success" := JBool(false), "message" := JStr("Unauthorized")])), Some(Challenge))
    else if fetch.Failed? then
      Response(500, JsonBody(JObj(map["success" := JBool(false),
                                      "message" := JStr("Error retrieving subscribers: " + fetch.error),
                                      "details" := JStr(fetch.details)])), None)
    else
      var items := seq(|fetch.rows|, k requires 0 <= k < |fetch.rows| => RowJson(fetch.rows[k]));
      Response(200, JsonBody(JObj(map["total" := JNum(|fetch.rows| as real), "subscribers" := JArr(items)])), None)
  }

  /** `/api/admin/subscribers.txt`: the addresses, one per line. */
  function AdminSubscribersText(header: Option<string>, decode: string -> Option<string>, user: string, password: string,
                                fetch: Fetch): (r: Response)
    ensures !CheckAdminAuth(header, decode, user, password) ==> r == Response(401, TextBody("Unauthorized"), Some(Challenge))
    ensures CheckAdminAuth(header, decode, user, password) && fetch.Failed? ==>
      r == Response(500, TextBody("Error retrieving subscribers: " + fetch.error), None)
  {
    if !CheckAdminAuth(header, decode, user, password) then Response(401, TextBody("Unauthorized"), Some(Challenge))
    else if fetch.Failed? then Response(500, TextBody("Error retrieving subscribers: " + fetch.error), None)
    else Response(200, TextBody(Join(Emails(fetch.rows), '\n')), None)
  }

  /**
   * The plain-text list reads back line by line as the addresses, in the query's
   * order, when there is at least one and none holds a newline.
   */
  lemma SubscriberLinesRoundTrip(header: Option<string>, decode: string -> Option<string>, user: string, password: string,
                                 rows: seq<Row>)
    requires CheckAdminAuth(header, decode, user, password)
    requires |rows| >= 1 && forall k :: 0 <= k < |rows| ==> '\n' !in rows[k].email
    ensures AdminSubscribersText(header, decode, user, password, Rows(rows)).status == 200
    ensures Split(AdminSubscribersText(header, decode, user, password, Rows(rows)).body.text, '\n') == Emails(rows)
  {
    SplitJoin(Emails(rows), '\n');
  }

  /**
   * The two admin listings agree: entry k of the JSON list carries the address that
   * line k of the plain-text list holds, when there is at least one address and
   * none holds a newline.
   */
  lemma AdminListingsAgree(header: Option<string>, decode: string -> Option<string>, user: string, password: string,
                           rows: seq<Row>)
    requires CheckAdminAuth(header, decode, user, password)
    requires |rows| >= 1 && forall k :: 0 <= k < |rows| ==> '\n' !in rows[k].email
    ensures var items := AdminSubscribers(header, decode, user, password, Rows(rows)).body.json.fields["subscribers"].items;
      var lines := Split(AdminSubscribersText(header, decode, user, password, Rows(rows)).body.text, '\n');
      |lines| == |items| && forall k :: 0 <= k < |items| ==> items[k] == RowJson(rows[k]) && lines[k] == rows[k].email
  {
    SubscriberLinesRoundTrip(header, decode, user, password, rows);
  }

  /** The validator accepts an address with one trailing newline (Python's `$`), so the store takes it. */
  lemma NewlineAddressIsStored()
    ensures ValidateEmail("a@b.co\n").0
    ensures SubscribeEndpoint({}, Some(JObj(map["email" := JStr("a@b.co\n")])), false).1 == {"a@b.co\n"}
  {
    NewlineAddressIsValid();
    assert Get(map["email" := JStr("a@b.co\n")], "email") == JStr("a@b.co\n");
  }

  lemma NewlineAddressIsValid()
    ensures ValidateEmail("a@b.co\n").0
  {
    assert ShapeAt("a@b.co", 1, 3);
    TrailingNewline("a@b.co");
    assert "a@b.co" + "\n" == "a@b.co\n";
  }

  /**
   * Such a stored address breaks the plain-text round trip: its line is followed by
   * an empty one, so the export reads back as two addresses.
   */
  lemma NewlineAddressBreaksTextExport(header: Option<string>, decode: string -> Option<string>, user: string,
                                       password: string, id: int, createdAt: string)
    requires CheckAdminAuth(header, decode, user, password)
    ensures var rows := [Row(id, "a@b.co\n", createdAt)];
      Split(AdminSubscribersText(header, decode, user, password, Rows(rows)).body.text, '\n') == ["a@b.co", ""] &&
      Emails(rows) == ["a@b.co\n"]
  {
    var rows := [Row(id, "a@b.co\n", createdAt)];
    assert Emails(rows) == ["a@b.co\n"];
    JoinTwo("a@b.co", "", '\n');
    assert "a@b.co\n" == "a@b.co" + ['\n'] + "";
    SplitJoin(["a@b.co", ""], '\n');
  }

  /** With no subscribers the plain-text list is empty, and it splits into one empty line, not none. */
  lemma EmptyTextExport(header: Option<string>, decode: string -> Option<string>, user: string, password: string)
    requires CheckAdminAuth(header, decode, user, password)
    ensures AdminSubscribersText(header, decode, user, password, Rows([])) == Response(200, TextBody([]), None)
    ensures Split(AdminSubscribersText(header, decode, user, password, Rows([])).body.text, '\n') == [[]]
    ensures Emails([]) == []
  {
  }
}
