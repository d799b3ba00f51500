# MoniNag CRUD core in Dafny

MoniNag is a small monitoring-inventory backend built on Django. Three parts of it
carry logic that can be stated exactly, and this project models them:

- the exact-key request validator `validate_dict` (`validators.dfy`, module `Validators`);
- the server resource controller `ServerView`, whose GET/POST/PUT/DELETE handlers
  are pure functions from a decoded request and the server table to a response and
  the new table (`server_view.dfy`, module `ServerView`). The handlers call the
  `Server` model, whose source is not part of this model. `server_model.dfy`
  (module `ServerModel`) gives a reference store with the contracts the view relies
  on. Lookups answer with an Option. Create and update fail instead of raising.
  Update and remove fail when the id is absent;
- the `Contact` record: field defaults, partial `update` followed by `save`, the
  lookups `get_by_id`, `get_by_user_id` and `get_by_email`, and `to_dict`
  (`contact_model.dfy`, module `ContactModel`).

Shared pieces: `optional.dfy` (Option and Result), `json.dfy` (decoded JSON
values) and `query.dfy` (module `Query`). `Query` models the ORM's
`objects.filter` and `objects.get` over a table held as a sequence of rows.
`objects.get` yields the single match, `None` when the caller catches
`DoesNotExist`, and the error `MultipleObjectsReturned` when several rows match.
That error is uncaught in the source. The table invariants (unique ids, unique
contact emails) rule it out.

Modelling decisions:

- A table is a sequence of rows in table order, so "all servers" has an order. The
  server table also holds the next primary key.
- Whether the database accepts a server create or update is the parameter
  `accepted`. Its integrity checks live in the `Server` model, which is not part of
  this model.
- The optional GET path id is an `Option<int>`. It is falsy when absent or 0,
  which is Python's truthiness of an integer.
- A contact's partial-update arguments are `Option<string>`. `None` and `''` are
  falsy.
- `save` of a contact overwrites the row with its id, or inserts when there is
  none. It fails with `IntegrityError` when another row already holds the email.
  The source does not catch that error: `Contact.update` lets it propagate.
- `Server.to_dict` is not visible. It is assumed to give `id` plus the four
  columns of `REQUIREMENTS`.

## Model

| member | source | states |
|---|---|---|
| `Validators.ValidateDict` | moninag/utils/validators.py:1-12 | an empty symmetric difference means the dictionary's key set equals the required set |
| `Validators.ExtraKeyRejected` | moninag/utils/validators.py:12 | all required keys plus one extra key is rejected |
| `Validators.MissingKeyRejected` | moninag/utils/validators.py:12 | a missing required key is rejected whatever other keys are present |
| `Validators.KeysDecide` | moninag/utils/validators.py:12 | two dictionaries with the same keys get the same verdict, whatever their values |
| `Validators.EmptyRequirements` | moninag/utils/validators.py:12 | with no required keys, only the empty dictionary validates |
| `Query.Filter` | moninag/contact/models.py:62 | the result holds exactly the table rows that satisfy the condition; it is empty exactly when none does |
| `Query.FilterCounts` | moninag/contact/models.py:62 | each matching row appears as often as in the table, and no other row appears |
| `Query.FilterAppend` | moninag/contact/models.py:62 | filtering keeps table order: the filter of two concatenated tables is the concatenation of their filters |
| `Query.GetOne` | moninag/contact/models.py:50-54 | None exactly when no row matches; a found row matches and is in the table; MultipleObjectsReturned exactly when two or more rows match |
| `Query.FilterOfAtMostOne` | moninag/contact/models.py:71 | at most one row matches exactly when the filter returns at most one row |
| `ServerModel.All` | moninag/server/views.py:45 | every row of the table, in table order; each id in it once when the table is valid |
| `ServerModel.ToDict` | moninag/server/views.py:38 | the wire form has `id` and the four columns, each carrying the server's own value |
| `ServerModel.GetById` | moninag/server/views.py:35-37 | Some exactly when a row has the id, and the row returned has that id |
| `ServerModel.GetByIdFindsRow` | moninag/server/views.py:35-38 | in a table with unique ids the lookup returns that very row |
| `ServerModel.Create` | moninag/server/views.py:79-81 | succeeds exactly when accepted; appends one row carrying the body's values under a key not yet used; keeps the table valid |
| `ServerModel.CreateRoundTrip` | moninag/server/views.py:79-82 | an accepted create succeeds, and the created server's wire form is the request body plus an `id` entry holding the new row's id |
| `ServerModel.Update` | moninag/server/views.py:111-114 | succeeds exactly when accepted and the id is present; replaces that row with the body's values and leaves every other row and the row count alone |
| `ServerModel.Remove` | moninag/server/views.py:130-132 | reports deletion exactly when the id was present; afterwards no row has it, all other rows stay, and a miss changes nothing |
| `ServerModel.ToDictInjective` | moninag/server/views.py:38 | two servers have the same wire form exactly when they are equal |
| `ServerView.Get` | moninag/server/views.py:15-47 | truthy id present: 200 with that server's wire form; truthy id absent: 404 with the fixed message; otherwise 200 listing every row's wire form in table order; the table never changes |
| `ServerView.Post` | moninag/server/views.py:49-86 | bad key set: 400 "Incorect JSON format." and no change; else 201 exactly when accepted, with the appended row carrying the body, otherwise 400 "Server was not created." and no change |
| `ServerView.Put` | moninag/server/views.py:88-119 | bad key set: 400 and no change; else 200 exactly when accepted and the id exists, answering with the replaced row; otherwise 400 "Server was not updated." and no change |
| `ServerView.Delete` | moninag/server/views.py:121-135 | bare 200 exactly when a row had the id, otherwise bare 400 and no change; the surviving rows are the old rows without that id |
| `ServerView.GetFound` | moninag/server/views.py:33-39 | in a valid table, GET with a non-zero id of an existing row answers 200 with exactly that row's wire form |
| `ServerView.GetAllOfEmptyTable` | moninag/server/views.py:44-47 | listing an empty table gives 200 with an empty list |
| `ServerView.UpdateArgsExact` | moninag/server/views.py:107-112 | after validation the body cannot hold `id`; update receives exactly the required keys plus `id`, which equals the path id |
| `ServerView.DeleteTwice` | moninag/server/views.py:130-135 | the first delete answers 200 exactly when the id exists; a second delete of the same id always answers 400 |
| `ServerView.ResponseShape` | moninag/server/views.py:31-135 | every JSON body has one key: `response` with 200/201 or `error` with 400/404; bodiless responses come only from DELETE, with 200 or 400 |
| `ServerView.Handle` | moninag/server/views.py:12-135 | dispatch by verb: GET and every failed request leave the table unchanged, and no request breaks unique ids in the server table |
| `ServerView.PostExample` | moninag/server/views.py:75-83 | POST of name web1, address, state and user_id answers 201 with name web1 and an integer id |
| `ServerView.GetMissingExample` | moninag/server/views.py:41-42 | GET of id 999 on a table without it answers 404 with the fixed message |
| `ContactModel.New` | moninag/contact/models.py:20-25 | a new contact is inactive and has an empty activation key |
| `ContactModel.Update` | moninag/contact/models.py:27-39 | each truthy argument overwrites its field, a falsy one keeps it; id, is_active, activation_key and user never change |
| `ContactModel.UpdateIdempotent` | moninag/contact/models.py:27-39 | updating twice with the same arguments equals updating once |
| `ContactModel.Save` | moninag/contact/models.py:41 | fails exactly when another row holds the email; otherwise the row is stored, other ids keep their rows, and the table stays valid |
| `ContactModel.UpdateAndSave` | moninag/contact/models.py:27-41 | the updated record is stored unless its email is taken; an update without an email argument of a stored contact never fails |
| `ContactModel.UpdateWithoutArguments` | moninag/contact/models.py:27-41 | with no truthy argument the record is unchanged but still goes through save |
| `ContactModel.SaveUnchanged` | moninag/contact/models.py:41 | saving a stored contact unchanged leaves a valid table as it was |
| `ContactModel.GetById` | moninag/contact/models.py:43-54 | None exactly when no row has the id; a found contact has it; a valid table never raises |
| `ContactModel.GetByIdFindsRow` | moninag/contact/models.py:50-54 | in a valid table the id lookup returns that very contact |
| `ContactModel.GetByUserId` | moninag/contact/models.py:56-62 | exactly the contacts whose owner is the user, each as often as in the table; empty exactly when there are none; no contact twice in a valid table |
| `ContactModel.GetByEmail` | moninag/contact/models.py:64-74 | None exactly when no row has the email; a found contact has it; with unique emails it never raises |
| `ContactModel.GetByEmailFindsRow` | moninag/contact/models.py:64-74 | with unique emails the email lookup returns that very contact |
| `ContactModel.ToDict` | moninag/contact/models.py:76-95 | the wire form has exactly the keys id, first_name, second_name, email, is_active, each carrying the record's field of that name |
| `ContactModel.UpdateShowsInWireForm` | moninag/contact/models.py:27-39 | after an update, the wire form shows each truthy argument and the old value for each falsy one; id and is_active keep their wire values |
| `ContactModel.ToDictHidesPrivateFields` | moninag/contact/models.py:89-95 | changing activation_key or user does not change the wire form, and neither key appears |
| `ContactModel.ToDictDeterminesPublicFields` | moninag/contact/models.py:89-95 | two contacts have the same wire form exactly when id, names, email and is_active agree |

## Left out

- The `Server` model (`server/models.py`) is not part of this model. `ServerModel` is an assumed reference store. Its create and update verdicts are the parameter `accepted`, and nothing about its real internals is verified.
- JSON decoding and encoding, and the HTTP request and response objects. Bodies arrive as decoded maps. Malformed JSON, and a body that is not a JSON object, are not handled by the source either.
- JSON object key order: objects are maps, so the key order of `to_dict` is not modelled.
- Floating-point JSON numbers: the `Json.Value` type has integers only.
- Path ids as text: the model takes the path id as an integer. With Django 1.10 `url()` routing the id would arrive as text, and then `"0"` would be truthy. The server URL table is not part of this model.
- ORM persistence internals (`objects.get`, `filter`, `save`) and transactions. They are modelled by the sequence table and the `Query` functions.
- Database integrity errors other than the duplicate contact email: blank names and email syntax are form-level checks.
- Field length limits: 200 for the names, 1000 for the activation key, and 254 for the email, which is the default of Django's `EmailField`. They are left to the database backend: whether a value that is too long makes `save` fail or get truncated depends on the backend, and the model does not check lengths.
- The service `status` choices migration: schema history with no behaviour.
- The registration URL table and the authentication, registration and session views: routing and framework glue.
- Purity of `validate_dict`: the model is a pure function, so it cannot change the dictionary or the requirement set.
