/**
 * The route handlers of main.py over the item table. The table is the
 * `barang` relation in storage order, `nextId` is its auto-increment
 * counter, and `uploads` is the set of recorded image paths whose files
 * are taken to exist.
 */
module Api {
  import opened Wrappers
  import opened Text
  import opened Upload
  import opened Items

  /** `all([nama_barang, kategori, jumlah])`: every field present and truthy (so quantity 0 is refused). */
  predicate FieldsPresent(name: Option<string>, category: Option<string>, quantity: Option<int>)
    ensures FieldsPresent(name, category, quantity) <==>
      name !in {None, Some("")} && category !in {None, Some("")} && quantity !in {None, Some(0)}
  {
    && name.Some? && name.value != ""
    && category.Some? && category.value != ""
    && quantity.Some? && quantity.value != 0
  }

  /** The file a truthy image path names, as a set. */
  function FileOf(imagePath: Option<string>): (r: set<string>)
    ensures imagePath.Some? && imagePath.value != "" ==> r == {imagePath.value}
    ensures imagePath.None? || imagePath.value == "" ==> r == {}
  {
    if imagePath.Some? && imagePath.value != "" then {imagePath.value} else {}
  }

  class Store {
    var rows: seq<Barang>
    var nextId: nat
    var uploads: set<string>

    ghost predicate Valid()
      reads this
    {
      TableInvariant(rows, nextId)
    }

    /** An empty table whose first id will be 1, and an empty upload folder. */
    constructor ()
      ensures Valid() && rows == [] && nextId == 1 && uploads == {}
    {
      rows := [];
      nextId := 1;
      uploads := {};
    }

    /** `GET /barangku`: the caller's records (all of them for the admin), `[]` without an identity. */
    method GetAll(header: Option<string>, hostUrl: string) returns (resp: Response)
      ensures resp == Response(200, ListBody(Views(Listing(rows, header), hostUrl)))
    {
      resp := Response(200, ListBody(Views(Listing(rows, header), hostUrl)));
    }

    /** `GET /barangku/<id>`: 401, 404 or 403 in that order, else the record's representation. */
    method Get(id: nat, header: Option<string>, hostUrl: string) returns (resp: Response)
      ensures Access(rows, id, header).Err? ==> resp == Failure(Access(rows, id, header).error)
      ensures Access(rows, id, header).Ok? ==>
        resp == Response(200, ItemBody(ToDict(rows[Access(rows, id, header).value], hostUrl)))
    {
      var who := Identity(header);
      if who.Err? {
        return Failure(who.error);
      }
      var found := Authorize(rows, id, who.value);
      if found.Err? {
        return Failure(found.error);
      }
      assert Access(rows, id, header) == found;
      resp := Response(200, ItemBody(ToDict(rows[found.value], hostUrl)));
    }

    /**
     * `POST /barangku`: 401 without an identity, 400 for a missing field,
     * then 400 for a disallowed image; otherwise the image is stored, one
     * record owned by the caller is appended with a fresh id, and 201.
     */
    method Create(header: Option<string>, image: Option<string>, name: Option<string>,
                  category: Option<string>, quantity: Option<int>, stamp: string)
      returns (resp: Response)
      requires Valid()
      modifies this
      ensures Valid()
      ensures MissingIdentity(header) ==> resp == Failure(Unauthenticated) && unchanged(this)
      ensures !MissingIdentity(header) && !FieldsPresent(name, category, quantity) ==>
        resp == Failure(EmptyField) && unchanged(this)
      ensures (!MissingIdentity(header) && FieldsPresent(name, category, quantity)
               && HasFile(image) && !AllowedFile(image.value)) ==>
        resp == Failure(BadImageFormat) && unchanged(this)
      ensures (!MissingIdentity(header) && FieldsPresent(name, category, quantity)
               && (!HasFile(image) || AllowedFile(image.value))) ==>
        var path := SaveImage(image, header.value, stamp);
        && resp == Response(201, CreatedBody(old(nextId)))
        && rows == old(rows) + [Barang(old(nextId), header.value, path, name, category, quantity)]
        && nextId == old(nextId) + 1
        && uploads == old(uploads) + FileOf(path)
      ensures resp.code == 201 ==> forall b :: b in old(rows) ==> b.id != resp.body.newId
    {
      var who := Identity(header);
      if who.Err? {
        return Failure(who.error);
      }
      var email := who.value;
      if !FieldsPresent(name, category, quantity) {
        return Failure(EmptyField);
      }
      var imagePath: Option<string> := None;
      if HasFile(image) {
        if AllowedFile(image.value) {
          imagePath := SaveImage(image, email, stamp);
          uploads := uploads + {imagePath.value};
        } else {
          return Failure(BadImageFormat);
        }
      }
      rows := rows + [Barang(nextId, email, imagePath, name, category, quantity)];
      resp := Response(201, CreatedBody(nextId));
      nextId := nextId + 1;
    }

    /**
     * `PUT /barangku/<id>`: after the access check, name, category and
     * quantity are overwritten with the submitted values, present or not;
     * nothing else changes.
     */
    method Update(id: nat, header: Option<string>, name: Option<string>,
                  category: Option<string>, quantity: Option<int>)
      returns (resp: Response)
      requires Valid()
      modifies this
      ensures Valid()
      ensures nextId == old(nextId) && uploads == old(uploads)
      ensures Access(old(rows), id, header).Err? ==>
        resp == Failure(Access(old(rows), id, header).error) && rows == old(rows)
      ensures Access(old(rows), id, header).Ok? ==>
        var k := Access(old(rows), id, header).value;
        && resp == Response(200, SuccessBody("Barang updated"))
        && rows == old(rows)[k := old(rows)[k].(name := name, category := category, quantity := quantity)]
      ensures |rows| == |old(rows)|
      ensures forall i :: 0 <= i < |rows| ==>
        rows[i].id == old(rows)[i].id && rows[i].owner == old(rows)[i].owner
        && rows[i].imagePath == old(rows)[i].imagePath
    {
      var who := Identity(header);
      if who.Err? {
        return Failure(who.error);
      }
      var found := Authorize(rows, id, who.value);
      if found.Err? {
        return Failure(found.error);
      }
      assert Access(rows, id, header) == found;
      var k := found.value;
      rows := rows[k := rows[k].(name := name, category := category, quantity := quantity)];
      resp := Response(200, SuccessBody("Barang updated"));
    }

    /**
     * `DELETE /barangku/<id>`: after the access check, the record's image
     * file is removed if it has one, then the record; the other records stay
     * in their order.
     */
    method Delete(id: nat, header: Option<string>) returns (resp: Response)
      requires Valid()
      modifies this
      ensures Valid()
      ensures nextId == old(nextId)
      ensures Access(old(rows), id, header).Err? ==>
        resp == Failure(Access(old(rows), id, header).error) && unchanged(this)
      ensures Access(old(rows), id, header).Ok? ==>
        var k := Access(old(rows), id, header).value;
        && resp == Response(200, SuccessBody("Barang terhapus"))
        && rows == RemoveAt(old(rows), k)
        && uploads == old(uploads) - FileOf(old(rows)[k].imagePath)
      ensures resp.code == 200 ==>
        && (forall b :: b in rows <==> b in old(rows) && b.id != id)
        && Subsequence(rows, old(rows))
    {
      var who := Identity(header);
      if who.Err? {
        return Failure(who.error);
      }
      var found := Authorize(rows, id, who.value);
      if found.Err? {
        return Failure(found.error);
      }
      assert Access(rows, id, header) == found;
      var k := found.value;
      var path := rows[k].imagePath;
      if path.Some? && path.value != "" {
        uploads := uploads - {path.value};
      }
      RemoveAtKeepsOthers(rows, k);
      RemoveAtInvariant(rows, nextId, k);
      rows := RemoveAt(rows, k);
      resp := Response(200, SuccessBody("Barang terhapus"));
    }
  }

  /**
   * A caller who is neither the admin nor the owner cannot delete a record:
   * the answer is 403 and the table keeps it.
   */
  method ForeignDeleteRefused(s: Store, k: nat, header: Option<string>) returns (resp: Response)
    requires s.Valid() && k < |s.rows|
    requires !MissingIdentity(header) && header.value != Admin && s.rows[k].owner != header.value
    modifies s
    ensures resp == Failure(Forbidden)
    ensures s.rows == old(s.rows) && s.uploads == old(s.uploads) && s.rows[k] in s.rows
  {
    IncreasingIsUnique(s.rows);
    ForeignRecordForbidden(s.rows, s.rows[k].id, header, k);
    resp := s.Delete(s.rows[k].id, header);
  }

  /**
   * Creating a record without an image and fetching it back under the same
   * identity returns the submitted fields and a `null` image URL.
   */
  method CreateThenGet(s: Store, header: Option<string>, name: Option<string>, category: Option<string>,
                       quantity: Option<int>, stamp: string, hostUrl: string)
    returns (created: Response, fetched: Response)
    requires s.Valid() && !MissingIdentity(header) && FieldsPresent(name, category, quantity)
    modifies s
    ensures s.Valid()
    ensures created == Response(201, CreatedBody(old(s.nextId)))
    ensures fetched == Response(200, ItemBody(ItemDict(old(s.nextId), None, name, category, quantity)))
  {
    created := s.Create(header, None, name, category, quantity, stamp);
    var n := |s.rows| - 1;
    assert s.rows[n].id == created.body.newId;
    assert Find(s.rows, created.body.newId) == Some(n);
    fetched := s.Get(created.body.newId, header, hostUrl);
  }
}
