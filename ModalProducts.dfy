/**
 * The staged image list of the product create/edit modal
 * (`src/widgets/ModalProducts/ModalProducts.tsx`): its entries, the pure list
 * constructions the modal performs on it, and the view it renders.
 */
module ModalProducts {
  import opened Wrappers
  import opened Seqs
  import opened ProductModels

  /** A file the user chose in the browser; its contents are never inspected. */
  type FileRef(==, !new)

  /** The edit state of one entry: kept as it is on the server, marked for deletion, or newly added. */
  datatype FileType = None | Delete | Add

  /**
   * One entry of the list (`FileAndType`). An entry from the server carries a
   * link; a chosen file carries the file. `kind` is the source's `type` field.
   */
  datatype FileAndType = FileAndType(id: ImageId, file: Option<FileRef>, link: Option<string>, kind: FileType)

  /** The id at position `i`; uniqueness is stated through it so that it is only used where asked for. */
  ghost function IdAt(s: seq<FileAndType>, i: nat): ImageId
    requires i < |s|
  {
    s[i].id
  }

  /** Entry ids are pairwise distinct. */
  ghost predicate UniqueIds(s: seq<FileAndType>)
  {
    forall i, j :: 0 <= i < j < |s| ==> IdAt(s, i) != IdAt(s, j)
  }

  /** Exactly the added entries hold a local file. */
  ghost predicate FilesOnlyOnAdds(s: seq<FileAndType>)
  {
    forall e :: e in s ==> (e.file.Some? <==> e.kind == Add)
  }

  // ---------------------------------------------------------------- seeding

  /** `handleImageLoad`: one unchanged entry per server image, in server order. */
  function ImageLoad(files: seq<ProductImage>): (r: seq<FileAndType>)
    ensures |r| == |files|
    ensures forall i :: 0 <= i < |files| ==>
      && r[i].id == files[i].key
      && r[i].link == Some(files[i].link)
      && r[i].file.None?
      && r[i].kind == FileType.None
  {
    if files == [] then []
    else [FileAndType(files[0].key, Option.None, Some(files[0].link), FileType.None)] + ImageLoad(files[1..])
  }

  /** `handleAddFiles`: one added entry per chosen file, in order; `ids` stands for the random ids. */
  function AddFiles(files: seq<FileRef>, ids: seq<ImageId>): (r: seq<FileAndType>)
    requires |ids| == |files|
    ensures |r| == |files|
    ensures forall i :: 0 <= i < |files| ==>
      && r[i].id == ids[i]
      && r[i].file == Some(files[i])
      && r[i].link.None?
      && r[i].kind == Add
  {
    if files == [] then []
    else [FileAndType(ids[0], Some(files[0]), Option.None, Add)] + AddFiles(files[1..], ids[1..])
  }

  // ---------------------------------------------------------------- the view

  predicate IsShown(e: FileAndType)
  {
    e.kind != Delete
  }

  /** `filteredImages`: the entries not marked for deletion, in list order. */
  function Filtered(images: seq<FileAndType>): (r: seq<FileAndType>)
    ensures |r| <= |images|
  {
    Filter(images, IsShown)
  }

  /** The view holds exactly the entries not marked for deletion. */
  lemma ViewMembership(images: seq<FileAndType>)
    ensures forall e :: e in Filtered(images) <==> e in images && e.kind != Delete
  {
    FilterMembership(images, IsShown);
  }

  /** The gallery row: view positions 1 to 9 (`filteredImages.slice(1, 10)`). */
  function Gallery(view: seq<FileAndType>): (r: seq<FileAndType>)
    ensures |r| <= 9
    ensures |r| == if |view| <= 1 then 0 else if |view| < 10 then |view| - 1 else 9
    ensures forall i :: 0 <= i < |r| ==> r[i] == view[i + 1]
  {
    if |view| <= 1 then [] else view[1..if |view| < 10 then |view| else 10]
  }

  /** Whether the add-to-gallery button is rendered: while the view holds fewer than ten entries. */
  function ShowsAddGalleryButton(view: seq<FileAndType>): (r: bool)
    ensures |view| > 0 ==> (r <==> |Gallery(view)| < 9)
    ensures r ==> |Gallery(view)| < 9
  {
    |view| < 10
  }

  // ---------------------------------------------------------------- adding

  /**
   * The list `handleImagesChange` builds: gallery files (`isSmall`) go after
   * every existing entry; a cover file takes position 0, and whatever stood
   * there leaves the list. There is no cap on the length.
   */
  function ImagesChange(current: seq<FileAndType>, converted: seq<FileAndType>, isSmall: bool): (r: seq<FileAndType>)
    requires isSmall || |converted| > 0
    ensures isSmall ==> |r| == |current| + |converted|
    ensures isSmall ==> forall i :: 0 <= i < |current| ==> r[i] == current[i]
    ensures isSmall ==> forall i :: 0 <= i < |converted| ==> r[|current| + i] == converted[i]
    ensures !isSmall ==> |r| == (if |current| == 0 then 1 else |current|)
    ensures !isSmall ==> r[0] == converted[0]
    ensures !isSmall ==> forall i :: 1 <= i < |current| ==> r[i] == current[i]
  {
    if isSmall then current + converted
    else [converted[0]] + (if |current| == 0 then [] else current[1..])
  }

  // ---------------------------------------------------------------- deleting

  /** `Array.prototype.find` by id: the first position holding `id`, if any. */
  function Find(images: seq<FileAndType>, id: ImageId): (r: Option<nat>)
    ensures r.None? <==> forall j :: 0 <= j < |images| ==> images[j].id != id
    ensures r.Some? ==> r.value < |images| && images[r.value].id == id
    ensures r.Some? ==> forall j :: 0 <= j < r.value ==> images[j].id != id
  {
    if images == [] then Option.None
    else if images[0].id == id then Some(0)
    else match Find(images[1..], id)
      case None => Option.None
      case Some(k) => Some(k + 1)
  }

  /** The list without any entry whose id is `id`, the rest in order. */
  function Without(images: seq<FileAndType>, id: ImageId): (r: seq<FileAndType>)
    ensures |r| <= |images|
  {
    if images == [] then []
    else if images[0].id != id then [images[0]] + Without(images[1..], id)
    else Without(images[1..], id)
  }

  /** Exactly the entries with another id remain. */
  lemma {:induction false} WithoutMembership(images: seq<FileAndType>, id: ImageId)
    ensures forall e :: e in Without(images, id) <==> e in images && e.id != id
  {
    if images != [] {
      WithoutMembership(images[1..], id);
      assert images == [images[0]] + images[1..];
    }
  }

  /**
   * The list `handleDeleteImg` leaves behind for the entry with this id: an
   * unknown id changes nothing; a local file is removed together with every
   * entry sharing its id; any other entry is marked `Delete` where it stands.
   */
  function DeleteImage(images: seq<FileAndType>, id: ImageId): (r: seq<FileAndType>)
    ensures |r| <= |images|
    ensures r != images ==> Find(images, id).Some?
  {
    match Find(images, id)
    case None => images
    case Some(k) =>
      if images[k].file.Some? then Without(images, id)
      else images[k := images[k].(kind := Delete)]
  }

  // ---------------------------------------------------------------- lemmas

  /** Distinct ids, used at two given positions. */
  lemma DistinctAt(s: seq<FileAndType>, i: nat, j: nat)
    requires UniqueIds(s) && i < |s| && j < |s| && i != j
    ensures s[i].id != s[j].id
  {
    if i < j {
      assert IdAt(s, i) != IdAt(s, j);
    } else {
      assert IdAt(s, j) != IdAt(s, i);
    }
  }

  lemma DistinctTail(s: seq<FileAndType>)
    requires UniqueIds(s) && |s| > 0
    ensures UniqueIds(s[1..])
  {
    var t := s[1..];
    forall i, j | 0 <= i < j < |t| ensures IdAt(t, i) != IdAt(t, j) {
      DistinctAt(s, i + 1, j + 1);
    }
  }

  lemma {:induction false} FilterKeepsUniqueIds(s: seq<FileAndType>, p: FileAndType -> bool)
    requires UniqueIds(s)
    ensures UniqueIds(Filter(s, p))
  {
    if s != [] {
      DistinctTail(s);
      FilterKeepsUniqueIds(s[1..], p);
      var rest := Filter(s[1..], p);
      if p(s[0]) {
        FilterMembership(s[1..], p);
        forall e | e in rest ensures e.id != s[0].id {
          var j :| 0 <= j < |s[1..]| && s[1..][j] == e;
          DistinctAt(s, 0, j + 1);
        }
        var r := [s[0]] + rest;
        forall i, j | 0 <= i < j < |r| ensures IdAt(r, i) != IdAt(r, j) {
          if i == 0 {
            assert r[j] in rest;
          } else {
            assert r[i] == rest[i - 1] && r[j] == rest[j - 1];
            DistinctAt(rest, i - 1, j - 1);
          }
        }
      }
    }
  }

  /** Loading distinct server keys gives distinct ids, and no entry holds a file. */
  lemma ImageLoadWellFormed(files: seq<ProductImage>)
    requires DistinctKeys(files)
    ensures UniqueIds(ImageLoad(files)) && FilesOnlyOnAdds(ImageLoad(files))
  {
    var r := ImageLoad(files);
    forall i, j | 0 <= i < j < |r| ensures IdAt(r, i) != IdAt(r, j) {
      assert r[i].id == files[i].key && r[j].id == files[j].key;
    }
    forall e | e in r ensures e.file.None? && e.kind == FileType.None {
      var i :| 0 <= i < |r| && r[i] == e;
    }
  }

  /** A gallery add appends the new entries to the view; earlier view entries remain as they were. */
  lemma GalleryAddView(current: seq<FileAndType>, files: seq<FileRef>, ids: seq<ImageId>)
    requires |ids| == |files|
    ensures Filtered(ImagesChange(current, AddFiles(files, ids), true)) == Filtered(current) + AddFiles(files, ids)
    ensures |Filtered(ImagesChange(current, AddFiles(files, ids), true))| == |Filtered(current)| + |files|
  {
    var converted := AddFiles(files, ids);
    assert ImagesChange(current, converted, true) == current + converted;
    FilterConcat(current, converted, IsShown);
    FilterAll(converted, IsShown);
  }

  /**
   * A cover change over a shown cover replaces exactly the shown cover: the
   * new entry heads the view and the gallery is what it was.
   */
  lemma CoverChangeView(current: seq<FileAndType>, files: seq<FileRef>, ids: seq<ImageId>)
    requires |ids| == |files| && |files| > 0
    requires |current| > 0 && current[0].kind != Delete
    ensures |Filtered(current)| > 0
    ensures Filtered(ImagesChange(current, AddFiles(files, ids), false))
         == [AddFiles(files, ids)[0]] + Filtered(current)[1..]
  {
    var c := AddFiles(files, ids)[0];
    assert current == [current[0]] + current[1..];
    FilterConcat([current[0]], current[1..], IsShown);
    assert ImagesChange(current, AddFiles(files, ids), false) == [c] + current[1..];
    FilterConcat([c], current[1..], IsShown);
  }

  /**
   * Over a cover already marked `Delete`, a cover change grows the view by
   * one: the new cover is placed in front of the entry that was shown first.
   */
  lemma CoverChangeOverDeletedCover(current: seq<FileAndType>, files: seq<FileRef>, ids: seq<ImageId>)
    requires |ids| == |files| && |files| > 0
    requires |current| > 0 && current[0].kind == Delete
    ensures Filtered(ImagesChange(current, AddFiles(files, ids), false))
         == [AddFiles(files, ids)[0]] + Filtered(current)
  {
    var c := AddFiles(files, ids)[0];
    assert current == [current[0]] + current[1..];
    FilterConcat([current[0]], current[1..], IsShown);
    assert ImagesChange(current, AddFiles(files, ids), false) == [c] + current[1..];
    FilterConcat([c], current[1..], IsShown);
  }

  /** Deleting an id no entry holds leaves the list unchanged. */
  lemma DeleteUnknownId(images: seq<FileAndType>, id: ImageId)
    requires forall j :: 0 <= j < |images| ==> images[j].id != id
    ensures DeleteImage(images, id) == images
  {
  }

  /**
   * Deleting the first entry with this id, when it holds a local file, removes
   * every entry with that id and keeps all others in order.
   */
  lemma DeleteLocalEntry(images: seq<FileAndType>, k: nat)
    requires k < |images| && images[k].file.Some?
    requires forall j :: 0 <= j < k ==> images[j].id != images[k].id
    ensures DeleteImage(images, images[k].id) == Without(images, images[k].id)
    ensures forall e :: e in DeleteImage(images, images[k].id) <==> e in images && e.id != images[k].id
  {
    assert Find(images, images[k].id) == Some(k);
    WithoutMembership(images, images[k].id);
  }

  /**
   * Deleting the first entry with this id, when it holds no file, keeps the
   * length, turns that entry's type into `Delete` and changes nothing else.
   */
  lemma DeleteServerEntry(images: seq<FileAndType>, k: nat)
    requires k < |images| && images[k].file.None?
    requires forall j :: 0 <= j < k ==> images[j].id != images[k].id
    ensures |DeleteImage(images, images[k].id)| == |images|
    ensures DeleteImage(images, images[k].id)[k] == images[k].(kind := Delete)
    ensures forall j :: 0 <= j < |images| && j != k ==> DeleteImage(images, images[k].id)[j] == images[j]
    ensures DeleteImage(images, images[k].id) == images[..k] + [images[k].(kind := Delete)] + images[k + 1..]
  {
    assert Find(images, images[k].id) == Some(k);
  }

  /** Marking the first server entry with this id rebuilds the list around the marked entry. */
  lemma DeleteServerSplit(images: seq<FileAndType>, k: nat)
    requires k < |images| && images[k].file.None?
    requires forall j :: 0 <= j < k ==> images[j].id != images[k].id
    ensures images == images[..k] + [images[k]] + images[k + 1..]
    ensures DeleteImage(images, images[k].id) == images[..k] + [images[k].(kind := Delete)] + images[k + 1..]
  {
    DeleteServerEntry(images, k);
    assert images == images[..k] + [images[k]] + images[k + 1..];
  }

  /** A cover change puts the first converted entry in front of the entries after the old cover. */
  lemma CoverChangeSplit(current: seq<FileAndType>, converted: seq<FileAndType>)
    requires |current| > 0 && |converted| > 0
    ensures current == [current[0]] + current[1..]
    ensures ImagesChange(current, converted, false) == [converted[0]] + current[1..]
  {
  }

  /** With distinct ids, a deleted entry is gone from the view. */
  lemma DeletedLeavesView(images: seq<FileAndType>, k: nat)
    requires UniqueIds(images) && k < |images|
    ensures forall e :: e in Filtered(DeleteImage(images, images[k].id)) ==> e.id != images[k].id
  {
    OthersHaveOtherIds(images, k);
    ViewMembership(DeleteImage(images, images[k].id));
    if images[k].file.Some? {
      DeleteLocalEntry(images, k);
      WithoutUnique(images, k);
    } else {
      DeleteServerEntry(images, k);
    }
  }

  /** With distinct ids, no entry around position `k` has the id of the entry at `k`. */
  lemma OthersHaveOtherIds(images: seq<FileAndType>, k: nat)
    requires UniqueIds(images) && k < |images|
    ensures forall e :: e in images[..k] ==> e.id != images[k].id
    ensures forall e :: e in images[k + 1..] ==> e.id != images[k].id
    ensures forall j :: 0 <= j < k ==> images[j].id != images[k].id
  {
    forall j | 0 <= j < k ensures images[j].id != images[k].id {
      DistinctAt(images, j, k);
    }
    forall e | e in images[..k] ensures e.id != images[k].id {
      var j :| 0 <= j < k && images[..k][j] == e;
      DistinctAt(images, j, k);
    }
    forall e | e in images[k + 1..] ensures e.id != images[k].id {
      var j :| 0 <= j < |images| - k - 1 && images[k + 1..][j] == e;
      DistinctAt(images, k + 1 + j, k);
    }
  }

  /** Deleting keeps ids distinct. */
  lemma DeleteKeepsUniqueIds(images: seq<FileAndType>, id: ImageId)
    requires UniqueIds(images)
    ensures UniqueIds(DeleteImage(images, id))
  {
    var r := DeleteImage(images, id);
    match Find(images, id)
    case None =>
    case Some(k) =>
      if images[k].file.Some? {
        WithoutUnique(images, k);
        forall i, j | 0 <= i < j < |r| ensures IdAt(r, i) != IdAt(r, j) {
          var i', j' := if i < k then i else i + 1, if j < k then j else j + 1;
          assert r[i] == images[i'] && r[j] == images[j'];
          DistinctAt(images, i', j');
        }
      } else {
        forall i, j | 0 <= i < j < |r| ensures IdAt(r, i) != IdAt(r, j) {
          assert r[i].id == images[i].id && r[j].id == images[j].id;
          DistinctAt(images, i, j);
        }
      }
  }

  /** Removing an id no entry has changes nothing. */
  lemma {:induction false} WithoutAbsent(images: seq<FileAndType>, id: ImageId)
    requires forall i :: 0 <= i < |images| ==> images[i].id != id
    ensures Without(images, id) == images
  {
    if images != [] {
      WithoutAbsent(images[1..], id);
    }
  }

  lemma {:induction false} WithoutConcat(a: seq<FileAndType>, b: seq<FileAndType>, id: ImageId)
    ensures Without(a + b, id) == Without(a, id) + Without(b, id)
  {
    if a == [] {
      assert a + b == b;
    } else {
      assert (a + b)[0] == a[0];
      assert (a + b)[1..] == a[1..] + b;
      WithoutConcat(a[1..], b, id);
    }
  }

  /** With distinct ids, removing the id of the entry at `k` removes exactly that entry. */
  lemma WithoutUnique(images: seq<FileAndType>, k: nat)
    requires UniqueIds(images) && k < |images|
    ensures Without(images, images[k].id) == images[..k] + images[k + 1..]
  {
    var id := images[k].id;
    var before, after := images[..k], images[k + 1..];
    assert images == before + ([images[k]] + after);
    WithoutConcat(before, [images[k]] + after, id);
    WithoutConcat([images[k]], after, id);
    assert Without([images[k]], id) == [] by {
      assert [images[k]][1..] == [];
    }
    forall i | 0 <= i < |before| ensures before[i].id != id {
      assert before[i] == images[i];
      DistinctAt(images, i, k);
    }
    forall i | 0 <= i < |after| ensures after[i].id != id {
      assert after[i] == images[k + 1 + i];
      DistinctAt(images, k + 1 + i, k);
    }
    WithoutAbsent(before, id);
    WithoutAbsent(after, id);
  }
}
