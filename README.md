# Picture store model

A Dafny model of the in-memory picture store behind the Flask back end in
`backend/routes.py`. The store is a module-global list of picture records,
loaded once from a JSON file. Each record is a JSON object that carries an
integer `"id"`. Five request handlers act on the list:

- count the records;
- look one up by id;
- create one under a path id;
- merge fields into one;
- delete one.

Each mutation rewrites the whole JSON file.

The model has three files:

- `records.dfy` (module `Records`) holds the values.
  - A record is a `map<string, Value>`. `Value` is an integer or an opaque JSON value.
  - `FirstIndexOf` is the first-match scan that every handler uses.
  - `WithId` forces the path id into a body. `Merged` is the shallow merge. `RemoveFirst` is Python's `list.remove`.
  - The lemmas about id uniqueness and lookups across operations live here too.
- `routes.dfy` (module `Routes`) holds the class `PictureStore`.
  - Its field `data` is the global list. The handlers are its methods, and each returns a `Response`: a status code plus the body `jsonify` would serialise.
  - The ghost field `persisted` stands for the backing file. It is set to the whole collection after every successful create, update and delete, and left alone on every error path.
  - `MergeFields` is the update handler's `for key, value in ... .items()` loop.
  - `CreateScenario` calls create, get and a duplicate create (302). `UpdateDeleteScenario` starts from the collection that the first part leaves, then calls update, delete, delete again (404) and count. The verifier proves each outcome from the handlers' contracts alone.
- `decimal.dfy` (module `Decimal`) holds the decimal rendering of an int. The duplicate-id message uses it, and a parse round trip shows it loses nothing.

The class invariant `Valid()` says that every record carries an `"id"` key.
The scans read `item["id"]` on every record before the match, so a record
without that key would raise `KeyError`. Id uniqueness is not a class
invariant, because the update handler may overwrite `"id"`. Instead, lemmas
show which operations keep ids unique.

Three behaviours of the code are easy to misread:

- `count` tests `if data:`. An **empty** list therefore answers 500 with `{"message": "Internal server error"}`, not length 0.
- `create_picture` tests `if not request.json:`. An **empty** JSON object is therefore rejected with 400 as well, not just an absent body.
- `delete_picture` uses `data.remove(picture)`, which removes the first element *equal* to the found record. It does not remove by identity. `RemoveFirstAtFirstMatch` proves that this is always the position of the first record with the id: any earlier equal record would carry the same id and would have been found first.

## Model

| member | source | states |
|---|---|---|
| `Records.FirstIndexOf` | backend/routes.py:45 | the result is the lowest index holding a record whose `"id"` equals the id, and it is None exactly when no record has that id |
| `Records.FirstMatchUnique` | backend/routes.py:45 | any index that is the first match is the one the scan returns |
| `Records.WithId` | backend/routes.py:69 | the stored record carries the path id under `"id"`; every other key of the body keeps its value and no key is lost |
| `Records.Merged` | backend/routes.py:98-99 | shallow merge: the keys are the union, every body key takes the body's value, and every other key keeps the record's value |
| `Records.HasId` | backend/routes.py:45 | definition of `item["id"] == id`, used by the contract of `FirstIndexOf`: true exactly when the record carries an "id" whose value is the integer id |
| `Records.RemoveFirst` | backend/routes.py:122 | `list.remove` of an element that is present: the result is the list without the first element equal to it, the others in their order, one shorter |
| `Records.RemoveFirstAtFirstMatch` | backend/routes.py:115-122 | removing the first element equal to the first record with an id removes exactly that position; the remaining records keep their order |
| `Records.CreateKeepsIdsUnique` | backend/routes.py:64-72 | if ids are distinct and the id is absent, they stay distinct after the body with the forced id is appended |
| `Records.LookupAfterCreate` | backend/routes.py:45-72 | after a successful create, the scan for that id finds the appended record at the old length |
| `Records.DeleteRemovesId` | backend/routes.py:115-122 | with distinct ids, deleting leaves no record with that id and keeps ids distinct |
| `Records.UpdateKeepsIdsUnique` | backend/routes.py:88-99 | an update whose body does not carry a different `"id"` keeps ids distinct, and the record is still found at the same position |
| `Records.UpdateMayDuplicateIds` | backend/routes.py:98-99 | for any collection with distinct ids, merging a body that carries another record's id into the first match leaves two records sharing that id: update does not protect `"id"` |
| `Decimal.NatToDecimal` | backend/routes.py:66 | the digits of a natural number: non-empty, all digits, no leading zero, ending in the digit of `n % 10` |
| `Decimal.IntToDecimal` | backend/routes.py:66 | `{id}` formatting: a leading minus sign exactly for negative ids, digits otherwise, and no leading zero except for 0 itself |
| `Decimal.NatRoundTrip` | backend/routes.py:66 | parsing the digits of `n` gives back `n` |
| `Decimal.NegativeRoundTrip` | backend/routes.py:66 | parsing a minus sign followed by the digits of `m` gives back `-m` |
| `Decimal.IntRoundTrip` | backend/routes.py:66 | parsing the rendering of any int gives back that int |
| `Decimal.IntToDecimalInjective` | backend/routes.py:66 | distinct ids have distinct decimal renderings |
| `Routes.DuplicateMessage` | backend/routes.py:66 | the 302 body is `{"Message": "Picture with id <id> already present"}` with the decimal id |
| `Routes.DuplicateMessageInjective` | backend/routes.py:66 | distinct ids give distinct 302 messages |
| `Routes.Truthy` | backend/routes.py:58 | definition, used by the contract of `CreatePicture`, of Python truthiness of the request body: present and holding at least one key, so an absent body and `{}` both take the 400 branch |
| `Routes.PictureStore.constructor` | backend/routes.py:8 | the store starts as the loaded list, and the file holds the same list |
| `Routes.PictureStore.Count` | backend/routes.py:25-30 | a non-empty collection answers 200 with its length; an empty one answers 500 with the internal-error message |
| `Routes.PictureStore.GetPictureById` | backend/routes.py:44-50 | 404 exactly when no record has the id; otherwise 200 with the first record having it; the collection is not changed |
| `Routes.PictureStore.CreatePicture` | backend/routes.py:56-79 | a falsy body gives 400 with no change; an id already present gives 302 with the message and no change; otherwise the body with the forced id is appended at the end, returned with 201 and persisted |
| `Routes.PictureStore.UpdatePicture` | backend/routes.py:86-106 | a missing id gives 404 with no change; otherwise only the first matching record becomes its shallow merge with the body, the length and all other records are unchanged, and the merged record is returned with 200 and persisted |
| `Routes.PictureStore.DeletePicture` | backend/routes.py:113-129 | a missing id gives 404 with no change; otherwise exactly the first matching record is removed, the others keep their order, the length drops by one, and the answer is 204 with an empty body and the file is rewritten |
| `Routes.MergeFields` | backend/routes.py:98-99 | the key-by-key assignment loop produces the shallow merge of the body into the record |

## Left out

- Flask routing, the `<int:id>` path converter, `jsonify`, `abort` and `make_response` are framework behaviour. Handlers take the id as an `int` and return a status code and a `Body` value. `abort(code)` becomes the `Aborted` body.
- File I/O: `json.load` at start-up becomes the constructor's argument. Each `json.dump(..., indent=4)` becomes the ghost assignment `persisted := data`. The byte format of the file is not modelled.
- The `health` and `get_pictures` handlers return a constant and the whole list, and have no logic of their own.
- Concurrent requests on the shared list: the code has no locking, and interleavings are not modelled.
- Request bodies that are not JSON objects, such as a list, a string or a number. Create takes an optional object (`Option<Record>`). Update takes an object (`Record`). When the update's id is found, a missing or non-object body fails inside `.items()` (routes.py:98). When the id is not found, the handler answers 404 whatever the body is, because `abort(404)` comes before `request.json` is read. The model always takes an object body, so it does not cover a 404 with a non-object body.
- Records without an `"id"` key in the loaded file are excluded by the constructor's precondition. The code would raise `KeyError` while scanning them.
- Python equality across JSON types: `True == 1` and `1.0 == 1` would let a boolean or float `"id"` match an int path id. The model matches only integer values.
- Dict key order: a create or an update adds new keys at the end of the record. For example, `new_picture["id"] = id` puts `"id"` last when the body lacks it. This affects only the serialised order of keys.
- Aliasing: the handlers mutate a dict object in the list. The model treats records as values and replaces the record at its position. This is the same as long as no dict appears twice in the list, which neither the loaded JSON nor the handlers can cause.
- Records.RemoveFirst: requires the element to be in the list. Python's `list.remove` raises `ValueError` otherwise, and the delete handler only removes a record it has just found in the list.
