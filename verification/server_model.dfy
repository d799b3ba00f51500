/** The Server model the server view calls (`Server.get`, `get_by_id`, `create`,
    `update`, `remove`, `to_dict`). Its source is not part of this model, so the
    store below is a reference implementation of the contracts the view relies
    on: lookups answer with an Option, writes fail rather than raise, and update
    and remove fail when the id is absent. */
module ServerModel {
  import opened Optional
  import opened Json
  import Query

  /** The columns a server is created from and fully replaced with. */
  const Columns: set<string> := {"name", "address", "state", "user_id"}

  /** One server row; the non-key columns hold the decoded request values. */
  datatype Server = Server(id: int, name: Value, address: Value, state: Value, userId: Value)

  /** The server table: rows in table order and the next primary key to hand out. */
  datatype Store = Store(rows: seq<Server>, nextId: int)

  /** The result of a successful write: the written row and the new table. */
  datatype Written = Written(server: Server, store: Store)

  /** The result of a removal: whether a row went, and the new table. */
  datatype Removal = Removal(deleted: bool, store: Store)

  function IdOf(s: Server): int {
    s.id
  }

  /** The table invariant the database keeps: primary keys are unique and below
      the next key to be handed out. */
  predicate Valid(st: Store) {
    && Query.DistinctBy(st.rows, IdOf)
    && forall i :: 0 <= i < |st.rows| ==> st.rows[i].id < st.nextId
  }

  predicate Contains(st: Store, id: int) {
    exists i :: 0 <= i < |st.rows| && st.rows[i].id == id
  }

  /** `to_dict`: the wire form of a server. */
  function ToDict(s: Server): (d: map<string, Value>)
    ensures d.Keys == Columns + {"id"}
    ensures d["id"] == Int(s.id) && d["name"] == s.name && d["address"] == s.address
    ensures d["state"] == s.state && d["user_id"] == s.userId
  {
    map["id" := Int(s.id), "name" := s.name, "address" := s.address,
        "state" := s.state, "user_id" := s.userId]
  }

  /** The row carries the given column values. */
  predicate Carries(s: Server, fields: map<string, Value>)
    requires Columns <= fields.Keys
  {
    forall k :: k in Columns ==> ToDict(s)[k] == fields[k]
  }

  /** The wire form loses nothing: two servers serialise alike exactly when they are equal. */
  lemma ToDictInjective(a: Server, b: Server)
    ensures ToDict(a) == ToDict(b) <==> a == b
  {
  }

  /** `Server.get()`: every server, in table order. */
  function All(st: Store): (r: seq<Server>)
    ensures |r| == |st.rows| && forall i :: 0 <= i < |r| ==> r[i] == st.rows[i]
    ensures forall id :: Contains(st, id) <==> exists i :: 0 <= i < |r| && r[i].id == id
    ensures Valid(st) ==> Query.DistinctBy(r, IdOf)
  {
    st.rows
  }

  /** `Server.get_by_id`: the server with this id, or None. */
  function GetById(st: Store, id: int): (r: Option<Server>)
    ensures r.Some? <==> Contains(st, id)
    ensures r.Some? ==> r.value in st.rows && r.value.id == id
  {
    Query.Find(st.rows, (s: Server) => s.id == id)
  }

  /** In a valid table the lookup returns the one row with that id. */
  lemma GetByIdFindsRow(st: Store, s: Server)
    requires Valid(st) && s in st.rows
    ensures GetById(st, s.id) == Some(s)
  {
  }

  /** `Server.create(**fields)`: appends a row under a fresh key when the
      database accepts it, and otherwise fails without touching the table. */
  function Create(st: Store, fields: map<string, Value>, accepted: bool): (r: Option<Written>)
    requires fields.Keys == Columns
    ensures r.Some? <==> accepted
    ensures r.Some? ==> r.value.store.rows == st.rows + [r.value.server]
    ensures r.Some? ==> Carries(r.value.server, fields)
    ensures r.Some? && Valid(st) ==> !Contains(st, r.value.server.id) && Valid(r.value.store)
  {
    if !accepted then None
    else
      var s := Server(st.nextId, fields["name"], fields["address"], fields["state"], fields["user_id"]);
      Some(Written(s, Store(st.rows + [s], st.nextId + 1)))
  }

  /** Round trip: the wire form of a created server is the request body plus the new id. */
  lemma CreateRoundTrip(st: Store, fields: map<string, Value>)
    requires fields.Keys == Columns
    ensures Create(st, fields, true).Some?
    ensures var created := Create(st, fields, true).value.server;
            ToDict(created) == fields["id" := Int(created.id)]
  {
  }

  /** The table with every row keyed like `s` replaced by `s`. */
  function Replace(rows: seq<Server>, s: Server): (r: seq<Server>)
    ensures |r| == |rows|
    ensures forall i :: 0 <= i < |r| ==> r[i] == (if rows[i].id == s.id then s else rows[i])
  {
    seq(|rows|, i requires 0 <= i < |rows| => if rows[i].id == s.id then s else rows[i])
  }

  /** `Server.update(**fields)`: full replacement of the row whose key is
      `fields["id"]`; fails when that row is absent or the database refuses. */
  function Update(st: Store, fields: map<string, Value>, accepted: bool): (r: Option<Written>)
    requires fields.Keys == Columns + {"id"} && fields["id"].Int?
    ensures r.Some? <==> accepted && Contains(st, fields["id"].i)
    ensures r.Some? ==> r.value.server.id == fields["id"].i && Carries(r.value.server, fields)
    ensures r.Some? ==> r.value.server in r.value.store.rows && r.value.store.nextId == st.nextId
    ensures r.Some? ==> |r.value.store.rows| == |st.rows|
    ensures r.Some? ==> forall i :: 0 <= i < |st.rows| && st.rows[i].id != r.value.server.id ==>
                                    r.value.store.rows[i] == st.rows[i]
    ensures r.Some? && Valid(st) ==> Valid(r.value.store)
  {
    var id := fields["id"].i;
    if !accepted || !Contains(st, id) then None
    else
      var s := Server(id, fields["name"], fields["address"], fields["state"], fields["user_id"]);
      var rows := Replace(st.rows, s);
      assert s in rows by {
        var k :| 0 <= k < |st.rows| && st.rows[k].id == id;
        assert rows[k] == s;
      }
      Some(Written(s, Store(rows, st.nextId)))
  }

  /** `Server.remove(id)`: deletes the row with that key; reports false and
      leaves the table alone when there is none. */
  function Remove(st: Store, id: int): (r: Removal)
    ensures r.deleted <==> Contains(st, id)
    ensures !Contains(r.store, id)
    ensures forall s :: s in r.store.rows <==> s in st.rows && s.id != id
    ensures !r.deleted ==> r.store == st
    ensures Valid(st) ==> Valid(r.store)
  {
    var keep := (s: Server) => s.id != id;
    var rows := Query.Filter(st.rows, keep);
    var deleted := Contains(st, id);
    assert !Contains(Store(rows, st.nextId), id) by {
      forall i | 0 <= i < |rows|
        ensures rows[i].id != id
      {
        assert rows[i] in rows;
      }
    }
    Query.FilterKeepsDistinct(st.rows, keep, IdOf);
    assert forall i :: 0 <= i < |rows| ==> rows[i] in st.rows;
    Removal(deleted, Store(rows, st.nextId))
  }
}
