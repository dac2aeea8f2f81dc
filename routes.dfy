/**
 The request handlers of the picture service over the shared, in-memory
 list of records. Each handler becomes a method of `PictureStore`, whose
 `data` field is the module-global list; a handler's HTTP answer is a
 `Response` holding the status code and what `jsonify` would serialise.
 The JSON file mirror is the ghost field `persisted`, set to the whole
 collection after each successful mutation.
 */
module Routes {
  import opened Records
  import Decimal

  const StatusOk := 200
  const StatusCreated := 201
  const StatusNoContent := 204
  const StatusFound := 302
  const StatusBadRequest := 400
  const StatusNotFound := 404
  const StatusInternalServerError := 500

  /** What a handler sends back, before serialisation. */
  datatype Body =
    | Picture(record: Record)           // `jsonify(picture)`
    | Length(length: nat)               // `jsonify(length=...)`
    | Message(key: string, text: string) // a one-entry JSON object
    | Aborted                           // the framework's error page after `abort(code)`
    | NoContent                         // the empty body of a 204

  datatype Response = Response(status: int, body: Body)

  /** Python truthiness of the request body: present and holding at least one key. */
  function Truthy(body: Option<Record>): (b: bool)
    ensures b <==> body.Some? && |body.value| > 0
  {
    body.Some? && body.value != map[]
  }

  function DuplicateMessage(id: int): (b: Body)
    ensures b.Message? && b.key == "Message"
    ensures b.text == "Picture with id " + Decimal.IntToDecimal(id) + " already present"
  {
    Message("Message", "Picture with id " + Decimal.IntToDecimal(id) + " already present")
  }

  /** The 302 message names the id unambiguously: distinct ids give distinct messages. */
  lemma DuplicateMessageInjective(a: int, b: int)
    requires DuplicateMessage(a) == DuplicateMessage(b)
    ensures a == b
  {
    var sa, sb := Decimal.IntToDecimal(a), Decimal.IntToDecimal(b);
    var text := DuplicateMessage(a).text;
    assert |sa| == |sb|;
    assert text[16..16 + |sa|] == sa;
    assert DuplicateMessage(b).text[16..16 + |sb|] == sb;
    Decimal.IntToDecimalInjective(a, b);
  }

  const ServerErrorMessage: Body := Message("message", "Internal server error")

  class PictureStore {
    /** The module-global list `data`, in insertion order. */
    var data: seq<Record>
    /** The collection as last written to the backing JSON file. */
    ghost var persisted: seq<Record>

    ghost predicate Valid()
      reads this
    {
      AllCarryIds(data)
    }

    /** The list as `json.load` produced it at start-up; the file holds the same. */
    constructor (loaded: seq<Record>)
      requires AllCarryIds(loaded)
      ensures Valid()
      ensures data == loaded && persisted == loaded
    {
      data := loaded;
      persisted := loaded;
    }

    /** GET /count: the size of a non-empty collection; 500 when it is empty. */
    method Count() returns (resp: Response)
      requires Valid()
      ensures |data| > 0 ==> resp == Response(StatusOk, Length(|data|))
      ensures |data| == 0 ==> resp == Response(StatusInternalServerError, ServerErrorMessage)
    {
      if |data| > 0 {
        resp := Response(StatusOk, Length(|data|));
      } else {
        resp := Response(StatusInternalServerError, ServerErrorMessage);
      }
    }

    /** GET /picture/{id}: the first record with the id, or 404. */
    method GetPictureById(id: int) returns (resp: Response)
      requires Valid()
      ensures Absent(data, id) <==> resp == Response(StatusNotFound, Aborted)
      ensures forall k :: IsFirstMatch(data, id, k) ==> resp == Response(StatusOk, Picture(data[k]))
    {
      var found := FirstIndexOf(data, id);
      match found {
        case None =>
          resp := Response(StatusNotFound, Aborted);
        case Some(k) =>
          resp := Response(StatusOk, Picture(data[k]));
          forall j | IsFirstMatch(data, id, j) ensures j == k {
            FirstMatchUnique(data, id, j);
          }
      }
    }

    /**
     POST /picture/{id}: a falsy body is rejected with 400, an id already
     present with 302 and a message; otherwise the body, with "id" forced to
     the path id, is appended and written to the file.
     */
    method CreatePicture(id: int, body: Option<Record>) returns (resp: Response)
      requires Valid()
      modifies this
      ensures Valid()
      ensures !Truthy(body) ==>
        resp == Response(StatusBadRequest, Aborted) && data == old(data) && persisted == old(persisted)
      ensures Truthy(body) && !Absent(old(data), id) ==>
        resp == Response(StatusFound, DuplicateMessage(id)) && data == old(data) && persisted == old(persisted)
      ensures Truthy(body) && Absent(old(data), id) ==>
        && data == old(data) + [WithId(body.value, id)]
        && resp == Response(StatusCreated, Picture(WithId(body.value, id)))
        && persisted == data
    {
      if !Truthy(body) {
        resp := Response(StatusBadRequest, Aborted);
        return;
      }
      var newPicture := body.value;
      var existing := FirstIndexOf(data, id);
      // `if existing_picture:` tests the found record's truthiness; a record
      // with an "id" is never the empty object.
      if existing.Some? && data[existing.value] != map[] {
        resp := Response(StatusFound, DuplicateMessage(id));
        return;
      }
      newPicture := WithId(newPicture, id);
      data := data + [newPicture];
      persisted := data;
      resp := Response(StatusCreated, Picture(newPicture));
    }

    /**
     PUT /picture/{id}: 404 for a missing id; otherwise the body is merged
     into the first matching record and the collection written to the file.
     */
    method UpdatePicture(id: int, body: Record) returns (resp: Response)
      requires Valid()
      modifies this
      ensures Valid()
      ensures Absent(old(data), id) ==>
        resp == Response(StatusNotFound, Aborted) && data == old(data) && persisted == old(persisted)
      ensures forall i :: IsFirstMatch(old(data), id, i) ==>
        && data == old(data)[i := Merged(old(data)[i], body)]
        && resp == Response(StatusOk, Picture(data[i]))
        && persisted == data
    {
      var found := FirstIndexOf(data, id);
      if found.None? {
        resp := Response(StatusNotFound, Aborted);
        return;
      }
      var i := found.value;
      var updated := MergeFields(data[i], body);
      data := data[i := updated];
      persisted := data;
      resp := Response(StatusOk, Picture(updated));
      forall j | IsFirstMatch(old(data), id, j) ensures j == i {
        FirstMatchUnique(old(data), id, j);
      }
    }

    /**
     DELETE /picture/{id}: 404 for a missing id; otherwise `data.remove`
     drops the first matching record and the collection is written to the file.
     */
    method DeletePicture(id: int) returns (resp: Response)
      requires Valid()
      modifies this
      ensures Valid()
      ensures Absent(old(data), id) ==>
        resp == Response(StatusNotFound, Aborted) && data == old(data) && persisted == old(persisted)
      ensures forall i :: IsFirstMatch(old(data), id, i) ==>
        && data == old(data)[..i] + old(data)[i + 1..]
        && |data| == |old(data)| - 1
        && resp == Response(StatusNoContent, NoContent)
        && persisted == data
    {
      var found := FirstIndexOf(data, id);
      if found.None? {
        resp := Response(StatusNotFound, Aborted);
        return;
      }
      var i := found.value;
      RemoveFirstAtFirstMatch(data, id, i);
      data := RemoveFirst(data, data[i]);
      persisted := data;
      resp := Response(StatusNoContent, NoContent);
      forall j | IsFirstMatch(old(data), id, j) ensures j == i {
        FirstMatchUnique(old(data), id, j);
      }
    }
  }

  /**
   The loop `for key, value in body.items(): picture[key] = value`, one key
   at a time: the result is the shallow merge of the body into the picture.
   */
  method MergeFields(picture: Record, body: Record) returns (updated: Record)
    ensures updated == Merged(picture, body)
  {
    updated := picture;
    var todo := body.Keys;
    while todo != {}
      invariant todo <= body.Keys
      invariant updated.Keys == picture.Keys + (body.Keys - todo)
      invariant forall k :: k in body && k !in todo ==> updated[k] == body[k]
      invariant forall k :: k in picture && k !in body.Keys - todo ==> updated[k] == picture[k]
      decreases todo
    {
      var key :| key in todo;
      updated := updated[key := body[key]];
      todo := todo - {key};
    }
    assert updated == Merged(picture, body);
  }

  /**
   A client of the handlers, first part: create 42 with a title, read it
   back, and create it again. Every outcome follows from the handlers'
   contracts alone.
   */
  method CreateScenario()
  {
    var title := Other(1);
    var tag := Other(2);
    var store := new PictureStore([map[IdKey := Int(1)]]);

    assert Absent(store.data, 42) by { assert !HasId(store.data[0], 42); }
    assert "title" in map["title" := title];
    var r := store.CreatePicture(42, Some(map["title" := title]));
    var stored := map[IdKey := Int(42), "title" := title];
    assert WithId(map["title" := title], 42) == stored;
    assert r == Response(StatusCreated, Picture(stored));
    assert store.data == [map[IdKey := Int(1)], stored];

    assert IsFirstMatch(store.data, 42, 1);
    r := store.GetPictureById(42);
    assert r == Response(StatusOk, Picture(stored));

    assert !Absent(store.data, 42);
    assert "title" in map["title" := tag];
    r := store.CreatePicture(42, Some(map["title" := tag]));
    assert r.status == StatusFound && store.data == [map[IdKey := Int(1)], stored];
  }

  /**
   A client of the handlers, second part, starting from the collection the
   first part leaves: merge a tag into 42, delete it, delete it again, and
   count.
   */
  method UpdateDeleteScenario()
  {
    var title := Other(1);
    var tag := Other(2);
    var stored := map[IdKey := Int(42), "title" := title];
    var store := new PictureStore([map[IdKey := Int(1)], stored]);

    assert IsFirstMatch(store.data, 42, 1);
    var r := store.UpdatePicture(42, map["tag" := tag]);
    var merged := map[IdKey := Int(42), "title" := title, "tag" := tag];
    assert Merged(stored, map["tag" := tag]) == merged;
    assert store.data == [map[IdKey := Int(1)], merged];

    assert IsFirstMatch(store.data, 42, 1);
    r := store.DeletePicture(42);
    assert r.status == StatusNoContent && store.data == [map[IdKey := Int(1)]];

    assert Absent(store.data, 42) by { assert !HasId(store.data[0], 42); }
    r := store.DeletePicture(42);
    assert r.status == StatusNotFound;

    r := store.Count();
    assert r == Response(StatusOk, Length(1));
  }
}
