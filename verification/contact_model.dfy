/** The Contact model of moninag/contact/models.py: the record, its partial
    update and save, its lookups and its wire form. The contact table is a
    sequence of rows. */
module ContactModel {
  import opened Optional
  import opened Json
  import Query

  datatype Contact = Contact(
    id: int,
    firstName: string,
    secondName: string,
    email: string,
    isActive: bool,
    activationKey: string,
    user: int)

  /** `save` fails when another row already holds the email (the column is unique). */
  datatype SaveError = IntegrityError

  /** A new contact: inactive and without an activation key until registration sets one. */
  function New(id: int, firstName: string, secondName: string, email: string, user: int): (c: Contact)
    ensures !c.isActive && c.activationKey == ""
    ensures c.id == id && c.user == user && c.email == email
    ensures c.firstName == firstName && c.secondName == secondName
  {
    Contact(id, firstName, secondName, email, false, "", user)
  }

  function IdOf(c: Contact): int {
    c.id
  }

  function EmailOf(c: Contact): string {
    c.email
  }

  /** The table invariant the database keeps: ids and emails are unique. */
  predicate Valid(table: seq<Contact>) {
    Query.DistinctBy(table, IdOf) && Query.DistinctBy(table, EmailOf)
  }

  /** Python truthiness of an optional text argument: None and '' are falsy. */
  predicate Truthy(arg: Option<string>) {
    arg.Some? && arg.value != ""
  }

  /** The field update `update` makes before saving: each truthy argument
      overwrites its field; everything else is kept. */
  function Update(c: Contact, firstName: Option<string>, secondName: Option<string>, email: Option<string>): (u: Contact)
    ensures Truthy(firstName) ==> u.firstName == firstName.value
    ensures !Truthy(firstName) ==> u.firstName == c.firstName
    ensures Truthy(secondName) ==> u.secondName == secondName.value
    ensures !Truthy(secondName) ==> u.secondName == c.secondName
    ensures Truthy(email) ==> u.email == email.value
    ensures !Truthy(email) ==> u.email == c.email
    ensures u.id == c.id && u.isActive == c.isActive
    ensures u.activationKey == c.activationKey && u.user == c.user
  {
    c.(firstName := if Truthy(firstName) then firstName.value else c.firstName,
       secondName := if Truthy(secondName) then secondName.value else c.secondName,
       email := if Truthy(email) then email.value else c.email)
  }

  /** Another row already holds the email of `c`. */
  predicate EmailTaken(table: seq<Contact>, c: Contact) {
    exists i :: 0 <= i < |table| && table[i].id != c.id && table[i].email == c.email
  }

  predicate HasId(table: seq<Contact>, id: int) {
    exists i :: 0 <= i < |table| && table[i].id == id
  }

  /** `save`: writes the row over the one with its id, or inserts it when there
      is none; the unique email column refuses a duplicate. */
  function Save(table: seq<Contact>, c: Contact): (r: Result<seq<Contact>, SaveError>)
    ensures r.Err? <==> EmailTaken(table, c)
    ensures r.Ok? ==> c in r.value
    ensures r.Ok? ==> forall d :: d in r.value ==> d == c || (d in table && d.id != c.id)
    ensures r.Ok? ==> forall d :: d in table && d.id != c.id ==> d in r.value
    ensures r.Ok? && Valid(table) ==> Valid(r.value)
  {
    if EmailTaken(table, c) then Err(IntegrityError)
    else if HasId(table, c.id) then
      var rows := seq(|table|, i requires 0 <= i < |table| => if table[i].id == c.id then c else table[i]);
      assert c in rows by {
        var k :| 0 <= k < |table| && table[k].id == c.id;
        assert rows[k] == c;
      }
      assert forall i :: 0 <= i < |table| && table[i].id != c.id ==> rows[i] == table[i];
      Ok(rows)
    else
      Ok(table + [c])
  }

  /** `Contact.update`: the partial field update followed by `save`. */
  function UpdateAndSave(table: seq<Contact>, c: Contact, firstName: Option<string>,
                         secondName: Option<string>, email: Option<string>): (r: Result<seq<Contact>, SaveError>)
    ensures r.Ok? ==> Update(c, firstName, secondName, email) in r.value
    ensures r.Ok? ==> forall d :: d in r.value ==> d == Update(c, firstName, secondName, email) || (d in table && d.id != c.id)
    ensures r.Ok? ==> forall d :: d in table && d.id != c.id ==> d in r.value
    ensures r.Ok? && Valid(table) ==> Valid(r.value)
    ensures r.Err? <==> EmailTaken(table, Update(c, firstName, secondName, email))
    ensures !Truthy(email) && Valid(table) && c in table ==> r.Ok?
  {
    var u := Update(c, firstName, secondName, email);
    assert !Truthy(email) && Valid(table) && c in table ==> !EmailTaken(table, u);
    Save(table, u)
  }

  /** `get_by_id`: the contact with this id, None when there is none. */
  function GetById(table: seq<Contact>, id: int): (r: Result<Option<Contact>, Query.LookupError>)
    ensures r == Ok(None) <==> !HasId(table, id)
    ensures r.Ok? && r.value.Some? ==> r.value.value in table && r.value.value.id == id
    ensures Valid(table) ==> r.Ok?
  {
    Query.DistinctKeyIsAtMostOne(table, IdOf, id);
    Query.GetOne(table, (c: Contact) => IdOf(c) == id)
  }

  /** `get_by_user_id`: the contacts owned by the user, in table order. */
  function GetByUserId(table: seq<Contact>, userId: int): (r: seq<Contact>)
    ensures forall c :: c in r <==> c in table && c.user == userId
    ensures |r| == 0 <==> forall i :: 0 <= i < |table| ==> table[i].user != userId
    ensures forall c :: multiset(r)[c] == (if c.user == userId then multiset(table)[c] else 0)
    ensures Valid(table) ==> Query.DistinctBy(r, IdOf)
  {
    var owned := (c: Contact) => c.user == userId;
    Query.FilterCounts(table, owned);
    Query.FilterKeepsDistinct(table, owned, IdOf);
    Query.Filter(table, owned)
  }

  /** `get_by_email`: the contact with this email, None when there is none. */
  function GetByEmail(table: seq<Contact>, email: string): (r: Result<Option<Contact>, Query.LookupError>)
    ensures r == Ok(None) <==> forall i :: 0 <= i < |table| ==> table[i].email != email
    ensures r.Ok? && r.value.Some? ==> r.value.value in table && r.value.value.email == email
    ensures Valid(table) ==> r.Ok?
  {
    Query.DistinctKeyIsAtMostOne(table, EmailOf, email);
    Query.GetOne(table, (c: Contact) => EmailOf(c) == email)
  }

  /** `to_dict`: the wire form of a contact. */
  function ToDict(c: Contact): (d: map<string, Value>)
    ensures d.Keys == {"id", "first_name", "second_name", "email", "is_active"}
    ensures d["id"] == Int(c.id) && d["is_active"] == Bool(c.isActive)
    ensures d["first_name"] == Str(c.firstName) && d["second_name"] == Str(c.secondName)
    ensures d["email"] == Str(c.email)
  {
    map["id" := Int(c.id), "first_name" := Str(c.firstName), "second_name" := Str(c.secondName),
        "email" := Str(c.email), "is_active" := Bool(c.isActive)]
  }

  /** In a valid table, the id lookup returns the one contact with that id. */
  lemma GetByIdFindsRow(table: seq<Contact>, c: Contact)
    requires Valid(table) && c in table
    ensures GetById(table, c.id) == Ok(Some(c))
  {
  }

  /** With unique emails, the email lookup returns the one contact holding it. */
  lemma GetByEmailFindsRow(table: seq<Contact>, c: Contact)
    requires Valid(table) && c in table
    ensures GetByEmail(table, c.email) == Ok(Some(c))
  {
  }

  /** Repeating an update with the same arguments changes nothing more. */
  lemma UpdateIdempotent(c: Contact, firstName: Option<string>, secondName: Option<string>, email: Option<string>)
    ensures Update(Update(c, firstName, secondName, email), firstName, secondName, email)
            == Update(c, firstName, secondName, email)
  {
  }

  /** With no truthy argument the record is unchanged, yet it is still saved. */
  lemma UpdateWithoutArguments(table: seq<Contact>, c: Contact, firstName: Option<string>,
                               secondName: Option<string>, email: Option<string>)
    requires !Truthy(firstName) && !Truthy(secondName) && !Truthy(email)
    ensures Update(c, firstName, secondName, email) == c
    ensures UpdateAndSave(table, c, firstName, secondName, email) == Save(table, c)
  {
  }

  /** Saving an unchanged row of a valid table leaves the table as it was. */
  lemma SaveUnchanged(table: seq<Contact>, c: Contact)
    requires Valid(table) && c in table
    ensures Save(table, c) == Ok(table)
  {
    Query.DistinctKeyIsAtMostOne(table, EmailOf, c.email);
    Query.DistinctKeyIsAtMostOne(table, IdOf, c.id);
    forall i | 0 <= i < |table| && table[i].email == c.email
      ensures table[i].id == c.id
    {
      Query.AtMostOneMatch(table, (x: Contact) => EmailOf(x) == c.email, table[i], c);
    }
    var rows := Save(table, c).value;
    forall i | 0 <= i < |table|
      ensures rows[i] == table[i]
    {
      if table[i].id == c.id {
        Query.AtMostOneMatch(table, (x: Contact) => IdOf(x) == c.id, table[i], c);
      }
    }
    assert rows == table;
  }

  /** The wire form never shows the activation key or the owner. */
  lemma ToDictHidesPrivateFields(c: Contact, activationKey: string, user: int)
    ensures ToDict(c) == ToDict(c.(activationKey := activationKey, user := user))
    ensures "activation_key" !in ToDict(c) && "user" !in ToDict(c)
  {
  }

  /** Two contacts serialise alike exactly when their public fields agree. */
  lemma ToDictDeterminesPublicFields(a: Contact, b: Contact)
    ensures ToDict(a) == ToDict(b) <==>
            a.id == b.id && a.firstName == b.firstName && a.secondName == b.secondName
            && a.email == b.email && a.isActive == b.isActive
  {
  }

  /** An update's truthy arguments show up in the wire form; its falsy ones
      leave the old wire values. */
  lemma UpdateShowsInWireForm(c: Contact, firstName: Option<string>, secondName: Option<string>, email: Option<string>)
    ensures var d := ToDict(Update(c, firstName, secondName, email));
            && d["first_name"] == (if Truthy(firstName) then Str(firstName.value) else ToDict(c)["first_name"])
            && d["second_name"] == (if Truthy(secondName) then Str(secondName.value) else ToDict(c)["second_name"])
            && d["email"] == (if Truthy(email) then Str(email.value) else ToDict(c)["email"])
            && d["id"] == ToDict(c)["id"] && d["is_active"] == ToDict(c)["is_active"]
  {
  }
}
