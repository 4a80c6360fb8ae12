/**
 * The item table's records and the pure decisions the route handlers of
 * main.py make over them: `Barang.to_dict`, `get_user_email_or_401`,
 * `get_barang_or_404` and the listing filter of `get_all_barang`.
 */
module Items {
  import opened Wrappers
  import opened Text
  import opened Upload

  /** The identity that may see and change every record. */
  const Admin: string := "__admin__"

  /**
   * A row of the `barang` table: `id`, `user_id`, `image_path`,
   * `nama_barang`, `kategori`, `jumlah`. The last three are optional because
   * an update may write `None` into them.
   */
  datatype Barang = Barang(
    id: nat,
    owner: string,
    imagePath: Option<string>,
    name: Option<string>,
    category: Option<string>,
    quantity: Option<int>)

  /** The JSON object `to_dict` builds (`None` is JSON `null`). */
  datatype ItemDict = ItemDict(
    id: nat,
    imageUrl: Option<string>,
    namaBarang: Option<string>,
    kategori: Option<string>,
    jumlah: Option<int>)

  /** The failures the handlers report. */
  datatype Error = Unauthenticated | NotFound | Forbidden | EmptyField | BadImageFormat

  function StatusCode(e: Error): (code: int)
    ensures 400 <= code < 500
    ensures code == 400 <==> e == EmptyField || e == BadImageFormat
  {
    match e
    case Unauthenticated => 401
    case NotFound => 404
    case Forbidden => 403
    case EmptyField => 400
    case BadImageFormat => 400
  }

  function Message(e: Error): (m: string)
    ensures m != ""
  {
    match e
    case Unauthenticated => "Anda harus login terlebih dahulu"
    case NotFound => "Barang tidak ditemukan"
    case Forbidden => "Forbidden: Anda tidak memiliki akses"
    case EmptyField => "Data tidak boleh kosong"
    case BadImageFormat => "Format gambar salah (hanya JPG, JPEG, PNG)"
  }

  /** The JSON bodies the handlers return. */
  datatype Body =
    | ErrorBody(message: string)        // {'status': 'error', 'message': ...}
    | ItemBody(item: ItemDict)
    | ListBody(items: seq<ItemDict>)
    | CreatedBody(newId: nat)           // {'status': 'success', 'id': ...}
    | SuccessBody(message: string)      // {'status': 'success', 'message': ...}

  /** A status code and a body. */
  datatype Response = Response(code: int, body: Body)

  function Failure(e: Error): (r: Response)
    ensures r.code == StatusCode(e) && r.body.ErrorBody?
  {
    Response(StatusCode(e), ErrorBody(Message(e)))
  }

  // ---------------------------------------------------------------------
  // Representation

  /**
   * The `imageUrl` field: `null` when the record has no (or an empty) path,
   * otherwise the host URL without its trailing slashes, one slash, and the path.
   */
  function ImageUrl(hostUrl: string, imagePath: Option<string>): (r: Option<string>)
    ensures r.None? <==> imagePath.None? || imagePath.value == ""
    ensures r.Some? ==> EndsWith(r.value, "/" + imagePath.value)
  {
    if imagePath.None? || imagePath.value == "" then None
    else
      Affixes(StripTrailing(hostUrl, '/'), "/" + imagePath.value);
      Some(StripTrailing(hostUrl, '/') + ("/" + imagePath.value))
  }

  /** Joining never doubles the slash: the URL is a prefix of the host URL with no trailing `/`, then `/`, then the path. */
  lemma ImageUrlJoin(hostUrl: string, path: string)
    requires path != ""
    ensures ImageUrl(hostUrl, Some(path)).Some?
    ensures var url := ImageUrl(hostUrl, Some(path)).value;
      var k := |url| - |path| - 1;
      && 0 <= k <= |hostUrl|
      && url[..k] == hostUrl[..k]
      && (k > 0 ==> url[k - 1] != '/')
      && (forall i :: k <= i < |hostUrl| ==> hostUrl[i] == '/')
      && url[k] == '/'
      && url[k + 1..] == path
  {
    var base := StripTrailing(hostUrl, '/');
    var url := base + "/" + path;
    assert ImageUrl(hostUrl, Some(path)).value == url;
    assert url[..|base|] == base;
    assert url[|base| + 1..] == path;
  }

  /** `barang.to_dict()` against the request's `host_url`; the owner is not exposed. */
  function ToDict(b: Barang, hostUrl: string): (d: ItemDict)
    ensures d.id == b.id && d.namaBarang == b.name && d.kategori == b.category && d.jumlah == b.quantity
    ensures d.imageUrl.None? <==> b.imagePath.None? || b.imagePath.value == ""
    ensures d.imageUrl == ImageUrl(hostUrl, b.imagePath)
  {
    ItemDict(b.id, ImageUrl(hostUrl, b.imagePath), b.name, b.category, b.quantity)
  }

  /** `[b.to_dict() for b in rows]`. */
  function Views(rows: seq<Barang>, hostUrl: string): (r: seq<ItemDict>)
    ensures |r| == |rows|
    ensures forall i :: 0 <= i < |rows| ==> r[i] == ToDict(rows[i], hostUrl)
  {
    seq(|rows|, i requires 0 <= i < |rows| => ToDict(rows[i], hostUrl))
  }

  // ---------------------------------------------------------------------
  // Identity and authorisation

  /** `not request.headers.get('Authorization')`: no header, or an empty one. */
  predicate MissingIdentity(header: Option<string>)
    ensures MissingIdentity(header) <==> header == None || header == Some("")
  {
    header.None? || header.value == ""
  }

  /** `get_user_email_or_401`: the header's value, or 401. */
  function Identity(header: Option<string>): (r: Result<string, Error>)
    ensures r.Ok? <==> !MissingIdentity(header)
    ensures r.Ok? ==> r.value == header.value && r.value != ""
    ensures r.Err? ==> r.error == Unauthenticated
  {
    if MissingIdentity(header) then Err(Unauthenticated) else Ok(header.value)
  }

  /** `Barang.query.filter_by(id=id).first()`: the position of the first row with that id. */
  function Find(rows: seq<Barang>, id: nat): (r: Option<nat>)
    ensures r.None? <==> forall i :: 0 <= i < |rows| ==> rows[i].id != id
    ensures r.Some? ==> r.value < |rows| && rows[r.value].id == id
    ensures r.Some? ==> forall i :: 0 <= i < r.value ==> rows[i].id != id
  {
    if rows == [] then None
    else if rows[0].id == id then Some(0)
    else
      match Find(rows[1..], id)
      case None => None
      case Some(k) => Some(k + 1)
  }

  /** `barang.user_id == email or email == '__admin__'`. */
  predicate MayAccess(email: string, b: Barang)
    ensures email == Admin ==> MayAccess(email, b)
    ensures MayAccess(email, b) && email != Admin ==> b.owner == email
  {
    b.owner == email || email == Admin
  }

  /** `get_barang_or_404(id, email)`: the record's position, or 404, or 403. */
  function Authorize(rows: seq<Barang>, id: nat, email: string): (r: Result<nat, Error>)
    ensures r.Ok? ==> r.value < |rows| && rows[r.value].id == id && MayAccess(email, rows[r.value])
    ensures r == Err(NotFound) <==> forall i :: 0 <= i < |rows| ==> rows[i].id != id
    ensures r.Err? ==> r.error == NotFound || r.error == Forbidden
    ensures Find(rows, id).Some? ==> (r.Ok? <==> MayAccess(email, rows[Find(rows, id).value]))
    ensures r.Ok? ==> r.value == Find(rows, id).value
  {
    match Find(rows, id)
    case None => Err(NotFound)
    case Some(k) => if MayAccess(email, rows[k]) then Ok(k) else Err(Forbidden)
  }

  /**
   * The guard every single-record handler runs: identity first (401), then
   * the lookup (404), then ownership (403).
   */
  function Access(rows: seq<Barang>, id: nat, header: Option<string>): (r: Result<nat, Error>)
    ensures MissingIdentity(header) ==> r == Err(Unauthenticated)
    ensures !MissingIdentity(header) && (forall i :: 0 <= i < |rows| ==> rows[i].id != id) ==> r == Err(NotFound)
    ensures !MissingIdentity(header) && Find(rows, id).Some? ==>
      (r.Ok? <==> MayAccess(header.value, rows[Find(rows, id).value]))
    ensures !MissingIdentity(header) && Find(rows, id).Some? && r.Err? ==> r.error == Forbidden
    ensures r.Ok? ==> r.value < |rows| && rows[r.value].id == id && MayAccess(header.value, rows[r.value])
  {
    match Identity(header)
    case Err(e) => Err(e)
    case Ok(email) => Authorize(rows, id, email)
  }

  /** With unique ids, a present, non-admin caller that does not own the record with `id` is refused with 403. */
  lemma ForeignRecordForbidden(rows: seq<Barang>, id: nat, header: Option<string>, k: nat)
    requires UniqueIds(rows) && k < |rows| && rows[k].id == id
    requires !MissingIdentity(header) && header.value != Admin && rows[k].owner != header.value
    ensures Access(rows, id, header) == Err(Forbidden)
  {
    var f := Find(rows, id).value;
    assert f == k;
  }

  /** With unique ids, the admin and the owner reach the record with `id`. */
  lemma OwnerAndAdminAllowed(rows: seq<Barang>, id: nat, header: Option<string>, k: nat)
    requires UniqueIds(rows) && k < |rows| && rows[k].id == id
    requires !MissingIdentity(header) && (header.value == Admin || rows[k].owner == header.value)
    ensures Access(rows, id, header) == Ok(k)
  {
    var f := Find(rows, id).value;
    assert f == k;
  }

  // ---------------------------------------------------------------------
  // Listing

  /** `Barang.query.filter_by(user_id=email).all()`. */
  function Owned(rows: seq<Barang>, email: string): (r: seq<Barang>)
    ensures forall b :: b in r <==> b in rows && b.owner == email
    ensures forall b :: multiset(r)[b] == if b.owner == email then multiset(rows)[b] else 0
    ensures Subsequence(r, rows)
  {
    if rows == [] then []
    else
      assert rows == [rows[0]] + rows[1..];
      if rows[0].owner == email then [rows[0]] + Owned(rows[1..], email)
      else Owned(rows[1..], email)
  }

  /** `a` is `b` with some elements left out, the rest in the same order. */
  ghost predicate Subsequence<T>(a: seq<T>, b: seq<T>)
    decreases |b|
  {
    a == [] || (b != [] && ((a[0] == b[0] && Subsequence(a[1..], b[1..])) || Subsequence(a, b[1..])))
  }

  /** The records `get_all_barang` returns, in storage order. */
  function Listing(rows: seq<Barang>, header: Option<string>): (r: seq<Barang>)
    ensures MissingIdentity(header) ==> r == []
    ensures !MissingIdentity(header) && header.value == Admin ==> r == rows
    ensures !MissingIdentity(header) ==>
      forall b :: b in r <==> b in rows && MayAccess(header.value, b)
    ensures !MissingIdentity(header) ==>
      forall b :: multiset(r)[b] == if MayAccess(header.value, b) then multiset(rows)[b] else 0
    ensures Subsequence(r, rows)
  {
    if MissingIdentity(header) then []
    else if header.value == Admin then
      SubsequenceRefl(rows);
      rows
    else Owned(rows, header.value)
  }

  lemma {:induction false} SubsequenceRefl<T>(s: seq<T>)
    ensures Subsequence(s, s)
    decreases |s|
  {
    if s != [] {
      SubsequenceRefl(s[1..]);
    }
  }

  /** The admin listing contains every other caller's listing. */
  lemma AdminListingContainsAll(rows: seq<Barang>, header: Option<string>)
    ensures forall b :: b in Listing(rows, header) ==> b in Listing(rows, Some(Admin))
  {
  }

  // ---------------------------------------------------------------------
  // Table invariant

  /** Storage order is insertion order, and auto-increment ids grow along it. */
  ghost predicate IdsIncreasing(rows: seq<Barang>)
  {
    forall i, j :: 0 <= i < j < |rows| ==> rows[i].id < rows[j].id
  }

  ghost predicate UniqueIds(rows: seq<Barang>)
  {
    forall i, j :: 0 <= i < |rows| && 0 <= j < |rows| && rows[i].id == rows[j].id ==> i == j
  }

  /** What every stored row satisfies: a positive id, a non-empty owner, and an image path built for that owner. */
  ghost predicate WellFormed(b: Barang)
  {
    && 1 <= b.id
    && b.owner != ""
    && (b.imagePath.Some? ==> IsUploadPathFor(b.owner, b.imagePath.value))
  }

  ghost predicate TableInvariant(rows: seq<Barang>, nextId: nat)
  {
    && 1 <= nextId
    && IdsIncreasing(rows)
    && (forall i :: 0 <= i < |rows| ==> rows[i].id < nextId && WellFormed(rows[i]))
  }

  lemma IncreasingIsUnique(rows: seq<Barang>)
    requires IdsIncreasing(rows)
    ensures UniqueIds(rows)
  {
  }

  /** `rows` without the record at `k`. */
  function RemoveAt(rows: seq<Barang>, k: nat): (r: seq<Barang>)
    requires k < |rows|
    ensures |r| == |rows| - 1
  {
    rows[..k] + rows[k + 1..]
  }

  /**
   * Removing the record at `k` from a table with increasing ids removes
   * exactly the record with that id and keeps the others in their order.
   */
  lemma RemoveAtKeepsOthers(rows: seq<Barang>, k: nat)
    requires k < |rows| && IdsIncreasing(rows)
    ensures forall b :: b in RemoveAt(rows, k) <==> b in rows && b.id != rows[k].id
    ensures Subsequence(RemoveAt(rows, k), rows)
    ensures IdsIncreasing(RemoveAt(rows, k))
  {
    RemoveAtMembers(rows, k);
    RemoveAtSubsequence(rows, k);
    RemoveAtIncreasing(rows, k);
  }

  /** Removing a record keeps the table invariant. */
  lemma RemoveAtInvariant(rows: seq<Barang>, nextId: nat, k: nat)
    requires k < |rows| && TableInvariant(rows, nextId)
    ensures TableInvariant(RemoveAt(rows, k), nextId)
  {
    var r := RemoveAt(rows, k);
    RemoveAtIncreasing(rows, k);
    forall i | 0 <= i < |r| ensures r[i].id < nextId && WellFormed(r[i]) {
      if i < k { assert r[i] == rows[i]; } else { assert r[i] == rows[i + 1]; }
    }
  }

  lemma RemoveAtMembers(rows: seq<Barang>, k: nat)
    requires k < |rows| && IdsIncreasing(rows)
    ensures forall b :: b in RemoveAt(rows, k) <==> b in rows && b.id != rows[k].id
  {
    forall b | b in RemoveAt(rows, k) ensures b in rows && b.id != rows[k].id {
      RemovedAreKept(rows, k, b);
    }
    forall b | b in rows && b.id != rows[k].id ensures b in RemoveAt(rows, k) {
      KeptAreRemoved(rows, k, b);
    }
  }

  lemma RemovedAreKept(rows: seq<Barang>, k: nat, b: Barang)
    requires k < |rows| && IdsIncreasing(rows) && b in RemoveAt(rows, k)
    ensures b in rows && b.id != rows[k].id
  {
    var r := RemoveAt(rows, k);
    var i :| 0 <= i < |r| && r[i] == b;
    if i < k { assert r[i] == rows[i]; } else { assert r[i] == rows[i + 1]; }
  }

  lemma KeptAreRemoved(rows: seq<Barang>, k: nat, b: Barang)
    requires k < |rows| && b in rows && b.id != rows[k].id
    ensures b in RemoveAt(rows, k)
  {
    var r := RemoveAt(rows, k);
    var i :| 0 <= i < |rows| && rows[i] == b;
    if i < k { assert r[i] == b; } else { assert r[i - 1] == b; }
  }

  lemma RemoveAtIncreasing(rows: seq<Barang>, k: nat)
    requires k < |rows| && IdsIncreasing(rows)
    ensures IdsIncreasing(RemoveAt(rows, k))
  {
    var r := RemoveAt(rows, k);
    forall i, j | 0 <= i < j < |r| ensures r[i].id < r[j].id {
      var i' := if i < k then i else i + 1;
      var j' := if j < k then j else j + 1;
      assert r[i] == rows[i'] && r[j] == rows[j'];
    }
  }

  lemma {:induction false} RemoveAtSubsequence<T>(s: seq<T>, k: nat)
    requires k < |s|
    ensures Subsequence(s[..k] + s[k + 1..], s)
    decreases k
  {
    if k == 0 {
      assert s[..0] + s[1..] == s[1..];
      SubsequenceRefl(s[1..]);
    } else {
      RemoveAtSubsequence(s[1..], k - 1);
      assert s[1..][..k - 1] + s[1..][k..] == (s[..k] + s[k + 1..])[1..];
    }
  }
}
