/**
 The picture records and the pure searches over the collection.

 A record is a JSON object: a map from string keys to JSON values. Only the
 value under "id" is ever interpreted, and only by comparing it with the
 integer id taken from the request path; every other value is opaque.
 */
module Records {

  datatype Option<T> = None | Some(value: T)

  /** A JSON value: an integer, or any other value, known only by identity. */
  datatype Value = Int(i: int) | Other(token: nat)

  type Record = map<string, Value>

  const IdKey: string := "id"

  /**
   `item["id"] == id`: the record carries an "id" whose value is the integer
   `id`. A value of any other kind never equals the path id.
   */
  function HasId(r: Record, id: int): (b: bool)
    ensures b ==> IdKey in r
    ensures b <==> IdKey in r && r[IdKey].Int? && r[IdKey].i == id
  {
    IdKey in r && r[IdKey] == Int(id)
  }

  /** Every record carries an "id" key, so the scans never raise KeyError. */
  ghost predicate AllCarryIds(s: seq<Record>) {
    forall k :: 0 <= k < |s| ==> IdKey in s[k]
  }

  /** Position `k` holds the first record with the given id. */
  ghost predicate IsFirstMatch(s: seq<Record>, id: int, k: int) {
    0 <= k < |s| && HasId(s[k], id) && forall j :: 0 <= j < k ==> !HasId(s[j], id)
  }

  ghost predicate Absent(s: seq<Record>, id: int) {
    forall k :: 0 <= k < |s| ==> !HasId(s[k], id)
  }

  /** No two records share a value under "id". */
  ghost predicate UniqueIds(s: seq<Record>) {
    forall i, j :: 0 <= i < |s| && 0 <= j < |s| && i != j && IdKey in s[i] && IdKey in s[j] ==>
      s[i][IdKey] != s[j][IdKey]
  }

  /**
   The first-match scan `next((item for item in data if item["id"] == id), None)`
   shared by every handler: the lowest index of a record with that id, or None.
   */
  function FirstIndexOf(s: seq<Record>, id: int): (r: Option<nat>)
    ensures r.Some? ==> IsFirstMatch(s, id, r.value)
    ensures r.None? <==> Absent(s, id)
  {
    if |s| == 0 then None
    else if HasId(s[0], id) then Some(0)
    else match FirstIndexOf(s[1..], id) {
      case None => None
      case Some(k) => Some(k + 1)
    }
  }

  /** There is only one first match: any index meeting it is the one the scan finds. */
  lemma FirstMatchUnique(s: seq<Record>, id: int, k: int)
    requires IsFirstMatch(s, id, k)
    ensures FirstIndexOf(s, id) == Some(k)
  {
  }

  /** `new_picture["id"] = id`: the body with its "id" forced to the path id. */
  function WithId(body: Record, id: int): (r: Record)
    ensures HasId(r, id)
    ensures r.Keys == body.Keys + {IdKey}
    ensures forall k :: k in body && k != IdKey ==> r[k] == body[k]
  {
    body[IdKey := Int(id)]
  }

  /**
   The shallow merge `for key, value in body.items(): picture[key] = value`:
   every key of the body takes the body's value, every other key of the
   picture keeps its own.
   */
  function Merged(picture: Record, body: Record): (r: Record)
    ensures r.Keys == picture.Keys + body.Keys
    ensures forall k :: k in body ==> r[k] == body[k]
    ensures forall k :: k in picture && k !in body ==> r[k] == picture[k]
  {
    picture + body
  }

  /** Position `i` holds the first element of `s` equal to `x`. */
  ghost predicate IsFirstOccurrence(s: seq<Record>, x: Record, i: int) {
    0 <= i < |s| && s[i] == x && x !in s[..i]
  }

  /**
   Python's `list.remove(x)`: the list without its first element equal to
   `x`, the others in their order. Python raises ValueError when `x` is not
   in the list; the delete handler only removes a record it has just found.
   */
  function RemoveFirst(s: seq<Record>, x: Record): (r: seq<Record>)
    requires x in s
    ensures |r| == |s| - 1
    ensures exists i :: IsFirstOccurrence(s, x, i) && r == s[..i] + s[i + 1..]
  {
    if s[0] == x then
      assert IsFirstOccurrence(s, x, 0) && s[1..] == s[..0] + s[1..];
      s[1..]
    else
      var t := RemoveFirst(s[1..], x);
      RemoveFirstStep(s, x, t);
      [s[0]] + t
  }

  /** One step of `RemoveFirst`: a head that differs from `x` is kept in front. */
  lemma RemoveFirstStep(s: seq<Record>, x: Record, t: seq<Record>)
    requires |s| > 0 && s[0] != x
    requires exists j :: IsFirstOccurrence(s[1..], x, j) && t == s[1..][..j] + s[1..][j + 1..]
    ensures exists i :: IsFirstOccurrence(s, x, i) && [s[0]] + t == s[..i] + s[i + 1..]
  {
    var j :| IsFirstOccurrence(s[1..], x, j) && t == s[1..][..j] + s[1..][j + 1..];
    assert s[..j + 1] == [s[0]] + s[1..][..j];
    assert s[j + 2..] == s[1..][j + 1..];
    assert IsFirstOccurrence(s, x, j + 1);
  }

  /**
   Removing the first element equal to the first record with a given id
   removes exactly that position: an earlier equal record would carry the
   same id and would have been found first.
   */
  lemma RemoveFirstAtFirstMatch(s: seq<Record>, id: int, i: nat)
    requires IsFirstMatch(s, id, i)
    ensures s[i] in s && RemoveFirst(s, s[i]) == s[..i] + s[i + 1..]
  {
  }

  /** A successful create keeps the ids distinct. */
  lemma CreateKeepsIdsUnique(s: seq<Record>, id: int, body: Record)
    requires UniqueIds(s) && Absent(s, id)
    ensures UniqueIds(s + [WithId(body, id)])
  {
  }

  /** After a successful create, looking the id up finds the appended record. */
  lemma LookupAfterCreate(s: seq<Record>, id: int, body: Record)
    requires Absent(s, id)
    ensures FirstIndexOf(s + [WithId(body, id)], id) == Some(|s|)
  {
    var t := s + [WithId(body, id)];
    assert IsFirstMatch(t, id, |s|) by {
      forall j | 0 <= j < |s| ensures !HasId(t[j], id) {
        assert t[j] == s[j];
      }
    }
    FirstMatchUnique(t, id, |s|);
  }

  /** A delete with distinct ids leaves no record with that id, and keeps the ids distinct. */
  lemma DeleteRemovesId(s: seq<Record>, id: int, i: nat)
    requires UniqueIds(s) && IsFirstMatch(s, id, i)
    ensures Absent(s[..i] + s[i + 1..], id)
    ensures UniqueIds(s[..i] + s[i + 1..])
  {
  }

  /**
   An update whose body leaves "id" alone (or sets it to the value it already
   has) keeps the ids distinct and keeps the record reachable at the same
   position.
   */
  lemma UpdateKeepsIdsUnique(s: seq<Record>, id: int, i: nat, body: Record)
    requires UniqueIds(s) && IsFirstMatch(s, id, i)
    requires IdKey in body ==> body[IdKey] == Int(id)
    ensures UniqueIds(s[i := Merged(s[i], body)])
    ensures FirstIndexOf(s[i := Merged(s[i], body)], id) == Some(i)
  {
    var t := s[i := Merged(s[i], body)];
    assert t[i][IdKey] == s[i][IdKey];
    assert IsFirstMatch(t, id, i);
    FirstMatchUnique(t, id, i);
  }

  /**
   The update handler does not protect "id": a body carrying another
   record's id leaves two records with the same id.
   */
  lemma UpdateMayDuplicateIds(s: seq<Record>, id: int, i: nat, j: nat, body: Record)
    requires UniqueIds(s) && IsFirstMatch(s, id, i)
    requires j < |s| && j != i && IdKey in s[j]
    requires IdKey in body && body[IdKey] == s[j][IdKey]
    ensures !UniqueIds(s[i := Merged(s[i], body)])
  {
    var t := s[i := Merged(s[i], body)];
    assert t[i][IdKey] == t[j][IdKey];
  }
}
