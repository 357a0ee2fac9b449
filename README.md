# Flames Blue API gateway: document access and reporting core

A Dafny model of the logic inside `main.py`, the FastAPI gateway of a
MongoDB-backed users and products service. The model covers five pieces:

- **Document serializer** (`serialize_id`, `serialize_doc`). It turns a
  stored document into its JSON-safe form by replacing `_id` with a text
  `id`. It is modelled as a map function `Serializer.Serialize`. Beside it
  is a `Dict` class whose method `Serializer.SerializeDoc` copies and edits
  the dict in place, as the source does.
- **List endpoints** (`list_users`, `list_products`). The page size is
  clamped to [1, 200] before the store is asked.
- **Lookup endpoints** (`get_user`, `get_product`). They answer 400 for a
  malformed id, 404 for no document, 500 for a store error, and otherwise
  200 with the serialized document.
- **Health report** (`health`, also served as `/test`). A method builds
  the report key by key, then the legacy environment keys overwrite two of
  them.
- **Schema description** (`get_schema`). A `for` loop builds one entry per
  pydantic model from an explicit list of the schemas module's members.
  A model's fields are a `Schema.FieldList`, whose names are distinct,
  as the keys of the `model_fields` dict are.

Foreign collaborators are parameters:

- Python's `str` on an identifier is `toText: Value -> Option<string>`;
  `None` means `str` raised.
- `ObjectId.is_valid` is `isValid: string -> bool`.
- `find_one` is `findOne: (string, string) -> LookupAnswer`, taking the
  collection and the id.
- `get_documents` is `getDocuments: (string, int) -> ListAnswer`, taking
  the collection and the limit.
- The database module's import outcome, the `db` handle and its
  `list_collection_names()` answer are the `Health.DbModule` datatype.
- The environment variables are `Health.Env`. An unset or empty variable
  is false, as in Python.

Modules: `Values` (field values, responses, slicing helpers),
`Serializer`, `Endpoints`, `Health` and `Schema`.

The model follows the code; in particular:

- A lookup or list store error gives a 500 whose detail is the full
  `str(e)`. Only the health report truncates error text to 100 characters.
- `serialize_doc` returns an empty document as the very same dict, not a
  copy.
- A lookup whose `find_one` returns an empty (falsy) dict answers 404,
  like a missing document.

## Model

| member | source | states |
|---|---|---|
| `Serializer.SerializeId` | main.py:34-38 | The identifier's text when `str` succeeds; the identifier itself when `str` raises |
| `Serializer.Serialize` | main.py:40-46 | With `_id` present: no `_id` in the output, and `id` holds the serialized identifier, replacing any earlier `id`. Without `_id`, including the empty document: the output is the input. Every other key is kept with its value, and no key is added or dropped |
| `Serializer.SerializeKeys` | main.py:43-46 | The output's key set is the input's with `_id` replaced by `id`, or unchanged when there is no `_id` |
| `Serializer.SerializeSize` | main.py:43-46 | The output has as many keys as the input, or one fewer exactly when the input had both `_id` and `id` (no field is lost) |
| `Serializer.SerializeIdempotent` | main.py:40-46 | Serializing an already serialized document changes nothing |
| `Serializer.SerializeRestores` | main.py:43-45 | Round trip: for a document with `_id` and no `id`, dropping `id` from the output and putting back the original `_id` value gives the original document |
| `Serializer.SerializeAll` | main.py:129 | The list comprehension gives one serialized document per fetched document, in the same order |
| `Serializer.Dict.constructor` | main.py:43 | `dict(doc)` holds exactly the given entries |
| `Serializer.Dict.Pop` | main.py:45 | `pop` returns the key's value and removes only that key |
| `Serializer.Dict.Store` | main.py:45 | Key assignment sets one key and leaves the others alone |
| `Serializer.SerializeDoc` | main.py:40-46 | An empty dict comes back as the same object. Any other dict comes back as a fresh copy. The result's entries are `Serialize` of the input, and the caller's dict is not modified |
| `Endpoints.ClampLimit` | main.py:128 | The limit lies in [1, 200]. A request already in range is kept; one below range becomes 1, and one above becomes 200 |
| `Endpoints.ListDocuments` | main.py:125-131 | 200 or 500 only. The store is asked at the clamped limit: success holds exactly when it returned documents there, and the body is those documents serialized. A store error gives a 500 carrying its text. A success is always the store's answer to some limit in [1, 200] |
| `Endpoints.ListClamps` | main.py:128 | Any request gets the response of its clamped request: below 1 that of 1, above 200 that of 200 |
| `Endpoints.DefaultListAsksFifty` | main.py:126-128 | Without a `limit` parameter the response depends only on the store's answer for 50 documents of the kind's collection |
| `Endpoints.ListAsksOnlyInRange` | main.py:128 | The response depends only on the store's answers for the kind's own collection at limits in [1, 200] |
| `Endpoints.ListUsesRequestedLimit` | main.py:128 | An in-range request is passed to the store unchanged. Documents are serialized; a store error becomes a 500 carrying its text |
| `Endpoints.ListBounded` | main.py:128-129 | If the store returns at most the limit it is given, a response holds at most the clamped limit of documents: 1 below range, 200 above, `limit` otherwise |
| `Endpoints.GetDocument` | main.py:133-144 | Status 400 exactly when the id is invalid, with the detail "Invalid user id" or "Invalid product id". For a valid id: 500 exactly on a store error, carrying its text; 404 exactly when no document or an empty one is found, with "User not found" or "Product not found"; 200 exactly when a non-empty document is found, with that document serialized |
| `Endpoints.InvalidIdSkipsStore` | main.py:137-138 | For an invalid id the response is the same whatever the store holds: the store is never consulted |
| `Endpoints.FoundCarriesExternalId` | main.py:139-142 | A found document with `_id` is answered with 200, with no `_id` and with `id` holding the serialized identifier |
| `Health.SetLabel` | main.py:84-87 | "✅ Set" exactly when the variable is set and non-empty, otherwise "❌ Not Set" |
| `Health.ErrorText` | main.py:75 | The message is the prefix followed by exactly the first 100 characters of a longer error, and by all of an error no longer than 100 |
| `Values.Take` | main.py:71 | Python's `s[:n]`: the first `n` elements, or all of `s` when it is no longer than `n` |
| `Values.Truthy` | main.py:85-86 | An unset variable and the empty string are false; every non-empty string is true |
| `Health.Health` | main.py:54-89 | The report has exactly the six keys. `backend` is always running. `database_url` and `database_name` are always the set/not-set labels of the two variables, whatever the connection outcome. `connection_status` is "Connected" and `database` is "✅ Connected & Working" exactly when listing succeeded. `collections` is the first 10 names in store order then, and empty otherwise. Each failure path has its own `database` text, and error texts are truncated |
| `Schema.LowerChar` | main.py:106 | ASCII upper-case letters map to their lower-case letter; every other character is unchanged; no upper-case letter remains |
| `Schema.Lower` | main.py:106 | Same length, each character lower-cased |
| `Schema.LowerIdempotent` | main.py:106 | Lower-casing twice is lower-casing once |
| `Schema.DistinctFieldsAgree` | main.py:107-108 | In a model's field list, whose names are distinct like the keys of `model_fields`, a name is listed as required exactly when its field is flagged required |
| `Schema.FieldTypes` | main.py:107 | The keys are exactly the declared field names. Each maps to the annotation of its last declaration |
| `Schema.RequiredNames` | main.py:108 | Holds exactly the names of the fields flagged required, and is no longer than the field list |
| `Schema.RequiredNamesAppend` | main.py:108 | The required names follow declaration order: the list for `a + b` is the list for `a` followed by the list for `b` |
| `Schema.Describe` | main.py:105-108 | `collection` is the lower-cased model name. `fields` maps each declared name to its annotation and has no other keys. `required` is the required fields' names in declaration order: a field is listed exactly when it is flagged required, and every listed name is a key of `fields` |
| `Schema.ModelNamesSnoc` | main.py:102-103 | Adding a member adds its name to the model names exactly when it is a model |
| `Schema.MapsLastModelsStep` | main.py:102-105 | Storing a member's entry keeps every other unshadowed model's entry, and the stored member wins its name |
| `Schema.GetSchema` | main.py:97-110 | The keys are exactly the names of the model classes; `BaseModel` itself and non-models are skipped. Each model's entry is its description, the last model of a name winning. Every entry has `collection == lower(name)` and `required` ⊆ `fields` |

## Left out

- FastAPI app construction, CORS, route decorators and the uvicorn start-up with `PORT` parsing: framework plumbing.
- `read_root` and `hello`: fixed greeting payloads with no logic.
- `create_user` and `create_product`: they pass the record to `create_document`, which is not part of this model. Any exception becomes a 500.
- `PyObjectId.validate` and the `ObjectId` constructor: the bson library is not part of this model. Identifier validity is the `isValid` parameter, and no encode/decode round trip is claimed.
- `Serializer.SerializeId`: `str` of an arbitrary object is the `toText` parameter, not an implementation.
- `Endpoints.ListDocuments`, `Endpoints.GetDocument`: only PyMongoError is modelled as a store error. Other exceptions are not modelled, such as a failing `from database import db` or `db` being `None` in a lookup; they escape the handler to the framework's generic 500.
- `Endpoints.ListBounded`: the limit bound is conditional on the store honouring the limit, because `get_documents` is not part of this model.
- `Health.Health`: `db.name` is modelled as present or absent (`hasattr`). A `name` attribute whose lookup raises something other than AttributeError is not modelled.
- `Schema.Lower`, `Schema.LowerChar`: lower-case ASCII letters only; Python's full Unicode case mapping is not modelled.
- `Schema.GetSchema`: the members come from an explicit list in place of `inspect.getmembers`. Each field's annotation text is given in place of `str(v.annotation)`, and each required flag in place of `is_required()`.
