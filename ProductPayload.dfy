/**
 * The change set the modal submits (`handleAddOrEditProduct`): the scalar
 * fields, the files of the added entries and the ids of the entries marked
 * for deletion. The multipart encoding itself is not modelled.
 */
module ProductPayload {
  import opened Wrappers
  import opened Seqs
  import opened ProductModels
  import opened ModalProducts

  /** The form values handed to the submit handler. */
  datatype FormValues = FormValues(price: int, name: string, description: Option<string>, images: seq<FileAndType>)

  /** The logical parts of the submitted form data. */
  datatype Payload = Payload(
    name: string,
    price: int,
    files: seq<FileRef>,
    imagesToDelete: seq<ImageId>,
    description: Option<string>,
    productId: Option<string>)

  /** Every added entry carries its file (what `filesForAdd[i].file!` takes for granted). */
  ghost predicate AddsCarryFiles(images: seq<FileAndType>)
  {
    forall e :: e in images && e.kind == Add ==> e.file.Some?
  }

  predicate IsAdd(e: FileAndType)
  {
    e.kind == Add
  }

  predicate IsMarkedDelete(e: FileAndType)
  {
    e.kind == Delete
  }

  /** The files of a list of entries that all hold one, in order. */
  function FilesOf(entries: seq<FileAndType>): (r: seq<FileRef>)
    requires forall e :: e in entries ==> e.file.Some?
    ensures |r| == |entries|
    ensures forall i :: 0 <= i < |entries| ==> Some(r[i]) == entries[i].file
  {
    if entries == [] then [] else [entries[0].file.value] + FilesOf(entries[1..])
  }

  /** The ids of a list of entries, in order. */
  function IdsOf(entries: seq<FileAndType>): (r: seq<ImageId>)
    ensures |r| == |entries|
    ensures forall i :: 0 <= i < |entries| ==> r[i] == entries[i].id
  {
    if entries == [] then [] else [entries[0].id] + IdsOf(entries[1..])
  }

  /** The uploaded files: those of the `Add` entries, in list order (`filesForAdd`). */
  function Uploads(images: seq<FileAndType>): (r: seq<FileRef>)
    requires AddsCarryFiles(images)
    ensures |r| <= |images|
  {
    FilterMembership(images, IsAdd);
    FilesOf(Filter(images, IsAdd))
  }

  /** A file is uploaded exactly when some `Add` entry of the list holds it. */
  lemma UploadsMembership(images: seq<FileAndType>)
    requires AddsCarryFiles(images)
    ensures forall f :: f in Uploads(images) <==> exists e :: e in images && e.kind == Add && e.file == Some(f)
  {
    var adds := Filter(images, IsAdd);
    var r := Uploads(images);
    FilterMembership(images, IsAdd);
    forall f | f in r ensures exists e :: e in images && e.kind == Add && e.file == Some(f) {
      var i :| 0 <= i < |r| && r[i] == f;
      assert adds[i] in adds;
    }
    forall e | e in images && e.kind == Add ensures e.file.value in r {
      assert e in adds;
      var j :| 0 <= j < |adds| && adds[j] == e;
      assert r[j] == e.file.value;
    }
  }

  /** The ids sent as `imagesToDelete`: those of the `Delete` entries, in list order (`filesForDelete`). */
  function DeleteIds(images: seq<FileAndType>): (r: seq<ImageId>)
    ensures |r| <= |images|
  {
    IdsOf(Filter(images, IsMarkedDelete))
  }

  /** An id is sent for deletion exactly when some `Delete` entry of the list has it. */
  lemma DeleteIdsMembership(images: seq<FileAndType>)
    ensures forall id :: id in DeleteIds(images) <==> exists e :: e in images && e.kind == Delete && e.id == id
  {
    var deletes := Filter(images, IsMarkedDelete);
    var r := DeleteIds(images);
    FilterMembership(images, IsMarkedDelete);
    forall id | id in r ensures exists e :: e in images && e.kind == Delete && e.id == id {
      var i :| 0 <= i < |r| && r[i] == id;
      assert deletes[i] in deletes;
    }
    forall e | e in images && e.kind == Delete ensures e.id in r {
      assert e in deletes;
      var j :| 0 <= j < |deletes| && deletes[j] == e;
      assert r[j] == e.id;
    }
  }

  /**
   * The payload of one submit. Name and price are always sent; the
   * description only when it is a non-empty string; the product id only when
   * an edited product with a non-empty `_id` is given.
   */
  function BuildPayload(data: FormValues, productToEdit: Option<Product>): (r: Payload)
    requires AddsCarryFiles(data.images)
    ensures r.name == data.name && r.price == data.price
    ensures r.files == Uploads(data.images) && r.imagesToDelete == DeleteIds(data.images)
    ensures r.description.Some? <==> data.description.Some? && data.description.value != ""
    ensures r.description.Some? ==> r.description == data.description
    ensures r.productId.Some? <==> productToEdit.Some? && productToEdit.value.id != ""
    ensures r.productId.Some? ==> r.productId == Some(productToEdit.value.id)
  {
    Payload(
      data.name,
      data.price,
      Uploads(data.images),
      DeleteIds(data.images),
      if data.description.Some? && data.description.value != "" then data.description else Option.None,
      if productToEdit.Some? && productToEdit.value.id != "" then Some(productToEdit.value.id) else Option.None)
  }

  /**
   * `handleAddOrEditProduct` up to the network call: filters the entries,
   * appends the files of the added ones one by one, and fills in the rest.
   */
  method AddOrEditProduct(data: FormValues, productToEdit: Option<Product>) returns (p: Payload)
    requires AddsCarryFiles(data.images)
    ensures p == BuildPayload(data, productToEdit)
  {
    var requestImages := data.images;
    var filesForAdd := Filter(requestImages, IsAdd);
    var filesForDelete := Filter(requestImages, IsMarkedDelete);
    FilterMembership(requestImages, IsAdd);
    var files: seq<FileRef> := [];
    for i := 0 to |filesForAdd|
      invariant |files| == i
      invariant forall j :: 0 <= j < i ==> filesForAdd[j].file == Some(files[j])
    {
      assert filesForAdd[i] in requestImages;
      files := files + [filesForAdd[i].file.value];
    }
    var imagesToDelete := IdsOf(filesForDelete);
    var description := Option.None;
    if data.description.Some? && data.description.value != "" {
      description := data.description;
    }
    var productId := Option.None;
    if productToEdit.Some? && productToEdit.value.id != "" {
      productId := Some(productToEdit.value.id);
    }
    p := Payload(data.name, data.price, files, imagesToDelete, description, productId);
  }

  // ---------------------------------------------------------------- lemmas

  lemma FilesOfConcat(a: seq<FileAndType>, b: seq<FileAndType>, c: seq<FileAndType>)
    requires forall e :: e in a + b + c ==> e.file.Some?
    ensures FilesOf(a + b + c) == FilesOf(a) + FilesOf(b) + FilesOf(c)
  {
    var s := a + b + c;
    var l, r := FilesOf(s), FilesOf(a) + FilesOf(b) + FilesOf(c);
    forall i | 0 <= i < |l| ensures l[i] == r[i] {
      if i < |a| { assert s[i] == a[i]; }
      else if i < |a| + |b| { assert s[i] == b[i - |a|]; }
      else { assert s[i] == c[i - |a| - |b|]; }
    }
  }

  lemma IdsOfConcat(a: seq<FileAndType>, b: seq<FileAndType>, c: seq<FileAndType>)
    ensures IdsOf(a + b + c) == IdsOf(a) + IdsOf(b) + IdsOf(c)
  {
    var s := a + b + c;
    var l, r := IdsOf(s), IdsOf(a) + IdsOf(b) + IdsOf(c);
    forall i | 0 <= i < |l| ensures l[i] == r[i] {
      if i < |a| { assert s[i] == a[i]; }
      else if i < |a| + |b| { assert s[i] == b[i - |a|]; }
      else { assert s[i] == c[i - |a| - |b|]; }
    }
  }

  lemma AddsCarryFilesConcat(a: seq<FileAndType>, b: seq<FileAndType>)
    ensures AddsCarryFiles(a + b) <==> AddsCarryFiles(a) && AddsCarryFiles(b)
  {
    assert forall e :: e in a + b <==> e in a || e in b;
  }

  /** Both lists of a concatenation are the concatenations of the lists. */
  lemma UploadsConcat(a: seq<FileAndType>, b: seq<FileAndType>)
    requires AddsCarryFiles(a) && AddsCarryFiles(b)
    ensures AddsCarryFiles(a + b)
    ensures Uploads(a + b) == Uploads(a) + Uploads(b)
  {
    AddsCarryFilesConcat(a, b);
    FilterConcat(a, b, IsAdd);
    var fa, fb := Filter(a, IsAdd), Filter(b, IsAdd);
    FilterMembership(a + b, IsAdd);
    assert forall e :: e in fa + fb ==> e in a + b && e.kind == Add;
    FilesOfConcat(fa, fb, []);
    assert fa + fb + [] == Filter(a + b, IsAdd);
  }

  lemma DeleteIdsConcat(a: seq<FileAndType>, b: seq<FileAndType>)
    ensures DeleteIds(a + b) == DeleteIds(a) + DeleteIds(b)
  {
    FilterConcat(a, b, IsMarkedDelete);
    IdsOfConcat(Filter(a, IsMarkedDelete), Filter(b, IsMarkedDelete), []);
    assert Filter(a, IsMarkedDelete) + Filter(b, IsMarkedDelete) + [] == Filter(a + b, IsMarkedDelete);
  }

  /** A single entry: an `Add` entry uploads its file, a `Delete` entry sends its id, a `None` entry nothing. */
  lemma SingleEntryPayload(e: FileAndType)
    requires e.kind == Add ==> e.file.Some?
    ensures AddsCarryFiles([e])
    ensures Uploads([e]) == if e.kind == Add then [e.file.value] else []
    ensures DeleteIds([e]) == if e.kind == Delete then [e.id] else []
  {
    assert [e][1..] == [];
  }

  /** Each entry contributes to the two lists at its own place in the list. */
  lemma PayloadAround(a: seq<FileAndType>, e: FileAndType, b: seq<FileAndType>)
    requires AddsCarryFiles(a) && AddsCarryFiles(b) && (e.kind == Add ==> e.file.Some?)
    ensures AddsCarryFiles(a + [e] + b)
    ensures Uploads(a + [e] + b) == Uploads(a) + (if e.kind == Add then [e.file.value] else []) + Uploads(b)
    ensures DeleteIds(a + [e] + b) == DeleteIds(a) + (if e.kind == Delete then [e.id] else []) + DeleteIds(b)
  {
    SingleEntryPayload(e);
    UploadsConcat(a, [e]);
    UploadsConcat(a + [e], b);
    DeleteIdsConcat(a, [e]);
    DeleteIdsConcat(a + [e], b);
  }

  /** The entries around position `k` keep the property of the whole list. */
  lemma CarryAround(images: seq<FileAndType>, k: nat)
    requires AddsCarryFiles(images) && k < |images|
    ensures AddsCarryFiles(images[..k]) && AddsCarryFiles(images[k + 1..])
    ensures images[k].kind == Add ==> images[k].file.Some?
  {
    assert images[k] in images;
    forall e | e in images[..k] ensures e in images {
      var j :| 0 <= j < k && images[..k][j] == e;
      assert images[j] == e;
    }
    forall e | e in images[k + 1..] ensures e in images {
      var j :| 0 <= j < |images| - k - 1 && images[k + 1..][j] == e;
      assert images[k + 1 + j] == e;
    }
  }

  /** An unchanged entry contributes to neither list. */
  lemma PayloadAroundKept(a: seq<FileAndType>, e: FileAndType, b: seq<FileAndType>)
    requires AddsCarryFiles(a) && AddsCarryFiles(b) && e.kind == FileType.None
    ensures AddsCarryFiles(a + [e] + b)
    ensures Uploads(a + [e] + b) == Uploads(a) + Uploads(b)
    ensures DeleteIds(a + [e] + b) == DeleteIds(a) + DeleteIds(b)
  {
    PayloadAround(a, e, b);
    ConcatEmpty(Uploads(a), Uploads(b));
    ConcatEmpty(DeleteIds(a), DeleteIds(b));
  }

  /** An entry marked `Delete` contributes its id to the delete list at its place and nothing to the uploads. */
  lemma PayloadAroundMarked(a: seq<FileAndType>, e: FileAndType, b: seq<FileAndType>)
    requires AddsCarryFiles(a) && AddsCarryFiles(b) && e.kind == Delete
    ensures AddsCarryFiles(a + [e] + b)
    ensures Uploads(a + [e] + b) == Uploads(a) + Uploads(b)
    ensures DeleteIds(a + [e] + b) == DeleteIds(a) + [e.id] + DeleteIds(b)
  {
    PayloadAround(a, e, b);
    ConcatEmpty(Uploads(a), Uploads(b));
  }

  /** Putting one entry in front of a list puts its contribution in front of both lists. */
  lemma PayloadFront(e: FileAndType, b: seq<FileAndType>)
    requires AddsCarryFiles(b) && (e.kind == Add ==> e.file.Some?)
    ensures AddsCarryFiles([e] + b)
    ensures Uploads([e] + b) == (if e.kind == Add then [e.file.value] else []) + Uploads(b)
    ensures DeleteIds([e] + b) == (if e.kind == Delete then [e.id] else []) + DeleteIds(b)
  {
    PayloadAround([], e, b);
    ConcatEmpty([e], b);
    assert Uploads([]) == [] && DeleteIds([]) == [];
    ConcatEmpty(if e.kind == Add then [e.file.value] else [], Uploads(b));
    ConcatEmpty(if e.kind == Delete then [e.id] else [], DeleteIds(b));
  }

  /** Freshly converted files are all uploaded, in order, and none is deleted. */
  lemma AddedFilesPayload(files: seq<FileRef>, ids: seq<ImageId>)
    requires |ids| == |files|
    ensures AddsCarryFiles(AddFiles(files, ids))
    ensures Uploads(AddFiles(files, ids)) == files
    ensures DeleteIds(AddFiles(files, ids)) == []
  {
    var converted := AddFiles(files, ids);
    FilterAll(converted, IsAdd);
    FilterNone(converted, IsMarkedDelete);
  }

  // ---------------------------------------------------------------- the operations' effect on the diff

  /** A gallery add uploads the chosen files after the earlier uploads and deletes nothing new. */
  lemma GalleryAddPayload(current: seq<FileAndType>, files: seq<FileRef>, ids: seq<ImageId>)
    requires |ids| == |files| && AddsCarryFiles(current)
    ensures AddsCarryFiles(ImagesChange(current, AddFiles(files, ids), true))
    ensures Uploads(ImagesChange(current, AddFiles(files, ids), true)) == Uploads(current) + files
    ensures DeleteIds(ImagesChange(current, AddFiles(files, ids), true)) == DeleteIds(current)
  {
    var converted := AddFiles(files, ids);
    var next := ImagesChange(current, converted, true);
    assert next == current + converted;
    AddedFilesPayload(files, ids);
    UploadsConcat(current, converted);
    DeleteIdsConcat(current, converted);
  }

  /**
   * A cover change uploads the new cover first; the entry it displaces leaves
   * both lists whatever its type, so with distinct ids its id is not deleted.
   */
  lemma CoverChangePayload(current: seq<FileAndType>, files: seq<FileRef>, ids: seq<ImageId>)
    requires |ids| == |files| && |files| > 0 && |current| > 0 && AddsCarryFiles(current)
    ensures AddsCarryFiles(current[1..])
    ensures AddsCarryFiles(ImagesChange(current, AddFiles(files, ids), false))
    ensures Uploads(ImagesChange(current, AddFiles(files, ids), false)) == [files[0]] + Uploads(current[1..])
    ensures DeleteIds(ImagesChange(current, AddFiles(files, ids), false)) == DeleteIds(current[1..])
    ensures UniqueIds(current) ==> current[0].id !in DeleteIds(ImagesChange(current, AddFiles(files, ids), false))
  {
    var cover := AddFiles(files, ids)[0];
    CoverChangeSplit(current, AddFiles(files, ids));
    CarryAround(current, 0);
    PayloadFront(cover, current[1..]);
    if UniqueIds(current) {
      DisplacedIdNotDeleted(current);
    }
  }

  /** With distinct ids, no entry after the first has the first entry's id, so none deletes it. */
  lemma DisplacedIdNotDeleted(current: seq<FileAndType>)
    requires UniqueIds(current) && |current| > 0
    ensures current[0].id !in DeleteIds(current[1..])
  {
    var rest := current[1..];
    DeleteIdsMembership(rest);
    forall e | e in rest ensures e.id != current[0].id {
      var j :| 0 <= j < |rest| && rest[j] == e;
      DistinctAt(current, j + 1, 0);
    }
  }

  /**
   * Removing a local entry (distinct ids) drops exactly its contribution:
   * both lists become those of the entries before and after it.
   */
  lemma DeleteLocalPayload(images: seq<FileAndType>, k: nat)
    requires UniqueIds(images) && AddsCarryFiles(images)
    requires k < |images| && images[k].file.Some?
    ensures AddsCarryFiles(images[..k]) && AddsCarryFiles(images[k + 1..])
    ensures DeleteImage(images, images[k].id) == images[..k] + images[k + 1..]
    ensures Uploads(DeleteImage(images, images[k].id)) == Uploads(images[..k]) + Uploads(images[k + 1..])
    ensures DeleteIds(DeleteImage(images, images[k].id)) == DeleteIds(images[..k]) + DeleteIds(images[k + 1..])
    ensures images[k].id !in DeleteIds(DeleteImage(images, images[k].id))
  {
    var before, after := images[..k], images[k + 1..];
    OthersHaveOtherIds(images, k);
    DeleteLocalEntry(images, k);
    WithoutUnique(images, k);
    assert images == before + [images[k]] + after;
    AddsCarryFilesConcat(before + [images[k]], after);
    AddsCarryFilesConcat(before, [images[k]]);
    UploadsConcat(before, after);
    DeleteIdsConcat(before, after);
    RemovedIdNotDeleted(images, k);
  }

  /** With distinct ids, the entries around position `k` never delete the id of the entry at `k`. */
  lemma RemovedIdNotDeleted(images: seq<FileAndType>, k: nat)
    requires UniqueIds(images) && k < |images|
    ensures images[k].id !in DeleteIds(images[..k] + images[k + 1..])
  {
    var others := images[..k] + images[k + 1..];
    DeleteIdsMembership(others);
    forall e | e in others ensures e.id != images[k].id {
      var j :| 0 <= j < |others| && others[j] == e;
      if j < k { DistinctAt(images, j, k); } else { DistinctAt(images, j + 1, k); }
    }
  }

  /**
   * Marking a server entry adds its id to the delete list at its place and
   * leaves the upload list as it was.
   */
  lemma DeleteServerPayload(images: seq<FileAndType>, k: nat)
    requires AddsCarryFiles(images)
    requires k < |images| && images[k].file.None? && images[k].kind != Delete
    requires forall j :: 0 <= j < k ==> images[j].id != images[k].id
    ensures AddsCarryFiles(DeleteImage(images, images[k].id))
    ensures Uploads(DeleteImage(images, images[k].id)) == Uploads(images)
    ensures DeleteIds(DeleteImage(images, images[k].id))
         == DeleteIds(images[..k]) + [images[k].id] + DeleteIds(images[k + 1..])
    ensures DeleteIds(images) == DeleteIds(images[..k]) + DeleteIds(images[k + 1..])
  {
    var e := images[k];
    var before, after := images[..k], images[k + 1..];
    DeleteServerSplit(images, k);
    CarryAround(images, k);
    PayloadAroundKept(before, e, after);
    PayloadAroundMarked(before, e.(kind := Delete), after);
  }
}
