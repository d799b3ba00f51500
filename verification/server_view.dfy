/** The request handlers of moninag/server/views.py (`ServerView`), as pure
    functions from a request and the server table to a response and the new
    table. */
module ServerView {
  import opened Optional
  import opened Json
  import ServerModel
  import Validators

  /** `REQUIREMENTS`: the exact key set of a POST or PUT body, which is the
      server's four columns. */
  const Requirements: set<string> := ServerModel.Columns

  const NotFoundMessage := "Server with specified id was not found."
  const BadFormatMessage := "Incorect JSON format."
  const NotCreatedMessage := "Server was not created."
  const NotUpdatedMessage := "Server was not updated."

  /** A request after routing and JSON decoding. */
  datatype Request =
    | GetRequest(optionalId: Option<int>)
    | PostRequest(payload: map<string, Value>)
    | PutRequest(targetId: int, payload: map<string, Value>)
    | DeleteRequest(targetId: int)

  /** `JsonResponse` carries a JSON object; `HttpResponse` only a status. */
  datatype Response =
    | JsonResponse(status: int, json: map<string, Value>)
    | HttpResponse(status: int)

  datatype Outcome = Outcome(response: Response, store: ServerModel.Store)

  function Reply(status: int, value: Value): Response {
    JsonResponse(status, map["response" := value])
  }

  function Error(status: int, message: string): Response {
    JsonResponse(status, map["error" := Str(message)])
  }

  /** Python truthiness of the optional path id: absent and 0 are falsy. */
  predicate IdGiven(serverId: Option<int>) {
    serverId.Some? && serverId.value != 0
  }

  /** `v` lists the wire forms of `rows`, in order. */
  predicate Lists(v: Value, rows: seq<ServerModel.Server>) {
    && v.Array?
    && |v.items| == |rows|
    && forall i :: 0 <= i < |rows| ==> v.items[i] == Object(ServerModel.ToDict(rows[i]))
  }

  /** The keyword arguments PUT passes to `Server.update`: the body plus the path id. */
  function UpdateArgs(body: map<string, Value>, serverId: int): map<string, Value> {
    body["id" := Int(serverId)]
  }

  /** `ServerView.get`: one server by a truthy id (404 when missing), else all of them. */
  function Get(st: ServerModel.Store, serverId: Option<int>): (o: Outcome)
    ensures o.store == st
    ensures IdGiven(serverId) && ServerModel.Contains(st, serverId.value) ==>
              exists s :: s in st.rows && s.id == serverId.value &&
                          o.response == Reply(200, Object(ServerModel.ToDict(s)))
    ensures IdGiven(serverId) && !ServerModel.Contains(st, serverId.value) ==>
              o.response == Error(404, NotFoundMessage)
    ensures !IdGiven(serverId) ==>
              && o.response.JsonResponse? && o.response.status == 200
              && o.response.json.Keys == {"response"}
              && Lists(o.response.json["response"], st.rows)
  {
    if IdGiven(serverId) then
      match ServerModel.GetById(st, serverId.value)
      case Some(s) => Outcome(Reply(200, Object(ServerModel.ToDict(s))), st)
      case None => Outcome(Error(404, NotFoundMessage), st)
    else
      var all := ServerModel.All(st);
      var items := seq(|all|, i requires 0 <= i < |all| => Object(ServerModel.ToDict(all[i])));
      Outcome(Reply(200, Array(items)), st)
  }

  /** `ServerView.post`: validate the body, then create. */
  function Post(st: ServerModel.Store, body: map<string, Value>, accepted: bool): (o: Outcome)
    ensures !Validators.ValidateDict(body, Requirements) ==>
              o == Outcome(Error(400, BadFormatMessage), st)
    ensures Validators.ValidateDict(body, Requirements) ==>
              (o.response.status == 201 <==> accepted)
    ensures o.response.status == 201 ==>
              && |o.store.rows| == |st.rows| + 1
              && o.store.rows[..|st.rows|] == st.rows
              && var s := o.store.rows[|st.rows|];
                 o.response == Reply(201, Object(ServerModel.ToDict(s))) && ServerModel.Carries(s, body)
    ensures o.response.status != 201 ==> o.store == st
    ensures Validators.ValidateDict(body, Requirements) && !accepted ==>
              o.response == Error(400, NotCreatedMessage)
  {
    if !Validators.ValidateDict(body, Requirements) then
      Outcome(Error(400, BadFormatMessage), st)
    else
      match ServerModel.Create(st, body, accepted)
      case Some(w) => Outcome(Reply(201, Object(ServerModel.ToDict(w.server))), w.store)
      case None => Outcome(Error(400, NotCreatedMessage), st)
  }

  /** `ServerView.put`: validate the body, add the path id, then fully replace. */
  function Put(st: ServerModel.Store, serverId: int, body: map<string, Value>, accepted: bool): (o: Outcome)
    ensures !Validators.ValidateDict(body, Requirements) ==>
              o == Outcome(Error(400, BadFormatMessage), st)
    ensures Validators.ValidateDict(body, Requirements) ==>
              (o.response.status == 200 <==> accepted && ServerModel.Contains(st, serverId))
    ensures o.response.status == 200 ==>
              var s := ServerModel.Server(serverId, body["name"], body["address"], body["state"], body["user_id"]);
              && o.response == Reply(200, Object(ServerModel.ToDict(s)))
              && s in o.store.rows
              && |o.store.rows| == |st.rows|
              && forall i :: 0 <= i < |st.rows| && st.rows[i].id != serverId ==> o.store.rows[i] == st.rows[i]
    ensures o.response.status != 200 ==> o.store == st
    ensures Validators.ValidateDict(body, Requirements) && o.response.status != 200 ==>
              o.response == Error(400, NotUpdatedMessage)
  {
    if !Validators.ValidateDict(body, Requirements) then
      Outcome(Error(400, BadFormatMessage), st)
    else
      match ServerModel.Update(st, UpdateArgs(body, serverId), accepted)
      case Some(w) => Outcome(Reply(200, Object(ServerModel.ToDict(w.server))), w.store)
      case None => Outcome(Error(400, NotUpdatedMessage), st)
  }

  /** `ServerView.delete`: a bare 200 when a row went, a bare 400 otherwise. */
  function Delete(st: ServerModel.Store, serverId: int): (o: Outcome)
    ensures o.response == HttpResponse(200) <==> ServerModel.Contains(st, serverId)
    ensures o.response != HttpResponse(200) ==> o.response == HttpResponse(400) && o.store == st
    ensures forall s :: s in o.store.rows <==> s in st.rows && s.id != serverId
  {
    var removal := ServerModel.Remove(st, serverId);
    if removal.deleted then Outcome(HttpResponse(200), removal.store)
    else Outcome(HttpResponse(400), st)
  }

  /** Dispatch on the HTTP verb. `accepted` stands for the database's verdict on
      a create or update, whose integrity checks are not part of this model.
      GET and every failure leave the table alone, and no request breaks the
      table invariant. */
  function Handle(req: Request, st: ServerModel.Store, accepted: bool): (o: Outcome)
    ensures req.GetRequest? ==> o.store == st
    ensures o.response.status !in {200, 201} ==> o.store == st
    ensures ServerModel.Valid(st) ==> ServerModel.Valid(o.store)
  {
    match req
    case GetRequest(id) => Get(st, id)
    case PostRequest(body) => Post(st, body, accepted)
    case PutRequest(id, body) => Put(st, id, body, accepted)
    case DeleteRequest(id) => Delete(st, id)
  }

  /** In a valid table, GET with a truthy id answers 200 with exactly that server. */
  lemma GetFound(st: ServerModel.Store, s: ServerModel.Server)
    requires ServerModel.Valid(st) && s in st.rows && s.id != 0
    ensures Get(st, Some(s.id)) == Outcome(Reply(200, Object(ServerModel.ToDict(s))), st)
  {
  }

  /** Listing an empty table is an empty list, not an error. */
  lemma GetAllOfEmptyTable(nextId: int)
    ensures Get(ServerModel.Store([], nextId), None).response == Reply(200, Array([]))
  {
  }

  /** A body that passes validation cannot carry `id`, so PUT hands `Server.update`
      exactly the required keys plus the path id, with the body's values. */
  lemma UpdateArgsExact(body: map<string, Value>, serverId: int)
    requires Validators.ValidateDict(body, Requirements)
    ensures "id" !in body
    ensures UpdateArgs(body, serverId).Keys == Requirements + {"id"}
    ensures UpdateArgs(body, serverId)["id"] == Int(serverId)
    ensures forall k :: k in Requirements ==> UpdateArgs(body, serverId)[k] == body[k]
  {
  }

  /** Deleting is not idempotent: the second delete of an id always fails. */
  lemma DeleteTwice(st: ServerModel.Store, serverId: int)
    ensures Delete(st, serverId).response == HttpResponse(200) <==> ServerModel.Contains(st, serverId)
    ensures Delete(Delete(st, serverId).store, serverId).response == HttpResponse(400)
  {
  }

  /** Every JSON body has one top-level key: `response` on 200/201, `error` on
      400/404; bare responses come from DELETE only. */
  lemma ResponseShape(req: Request, st: ServerModel.Store, accepted: bool)
    ensures var r := Handle(req, st, accepted).response;
            && (r.JsonResponse? ==>
                  || (r.json.Keys == {"response"} && r.status in {200, 201})
                  || (r.json.Keys == {"error"} && r.status in {400, 404}))
            && (r.HttpResponse? ==> req.DeleteRequest? && r.status in {200, 400})
  {
  }

  /** Example: POST of a well-formed server answers 201 with the new row's wire form. */
  lemma PostExample(st: ServerModel.Store)
    ensures var body := map["name" := Str("web1"), "address" := Str("10.0.0.1"),
                            "state" := Str("up"), "user_id" := Int(1)];
            var o := Post(st, body, true);
            && o.response.status == 201
            && o.response.json["response"].fields["name"] == Str("web1")
            && "id" in o.response.json["response"].fields
            && o.response.json["response"].fields["id"].Int?
  {
  }

  /** Example: GET of an id the table lacks answers 404 with the fixed message. */
  lemma GetMissingExample(st: ServerModel.Store)
    requires forall i :: 0 <= i < |st.rows| ==> st.rows[i].id != 999
    ensures Get(st, Some(999)).response ==
            JsonResponse(404, map["error" := Str("Server with specified id was not found.")])
  {
  }
}
