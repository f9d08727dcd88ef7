/**
 * What the rendered modal lets a user do to the image list, and the invariant
 * those actions keep: ids stay distinct, exactly the added entries hold a
 * file, and the first entry of the list is never marked for deletion, so the
 * cover the modal shows is the first entry of the list.
 */
module CoverInvariant {
  import opened Wrappers
  import opened Seqs
  import opened ProductModels
  import opened ModalProducts
  import opened ProductPayload

  /** One user action on the rendered modal. */
  datatype Event =
    | GalleryAdd(files: seq<FileRef>, ids: seq<ImageId>)   // the gallery's plus button, several files
    | CoverChange(files: seq<FileRef>, ids: seq<ImageId>)  // the "Add Cover" button
    | DeleteAt(pos: nat)                                    // the delete icon of view position `pos`

  /** The random ids of one batch differ from each other and from every id already in the list. */
  ghost predicate FreshIds(images: seq<FileAndType>, ids: seq<ImageId>)
  {
    && (forall i, j :: 0 <= i < j < |ids| ==> ids[i] != ids[j])
    && (forall i, j :: 0 <= i < |ids| && 0 <= j < |images| ==> ids[i] != images[j].id)
  }

  /**
   * When the modal offers the action: the gallery's plus button while the view
   * holds fewer than ten entries; the cover button only while the view is
   * empty; a delete icon only on the gallery row, view positions 1 to 9.
   */
  ghost predicate Allowed(images: seq<FileAndType>, ev: Event): (r: bool)
    ensures r && ev.GalleryAdd? ==> |Gallery(Filtered(images))| < 9
    ensures r && ev.DeleteAt? ==>
      1 <= ev.pos <= |Gallery(Filtered(images))| && Filtered(images)[ev.pos] == Gallery(Filtered(images))[ev.pos - 1]
  {
    match ev
    case GalleryAdd(files, ids) =>
      |ids| == |files| && FreshIds(images, ids) && ShowsAddGalleryButton(Filtered(images))
    case CoverChange(files, ids) =>
      |ids| == |files| && |files| > 0 && FreshIds(images, ids) && |Filtered(images)| == 0
    case DeleteAt(pos) =>
      1 <= pos < |Filtered(images)| && pos < 10
  }

  /** The list after one action: `handleImagesChange` with the chosen files, or `handleDeleteImg` on the clicked entry. */
  function Step(images: seq<FileAndType>, ev: Event): (r: seq<FileAndType>)
    requires Allowed(images, ev)
    ensures ev.GalleryAdd? ==> |r| == |images| + |ev.files|
    ensures ev.CoverChange? ==> |r| == if |images| == 0 then 1 else |images|
    ensures ev.DeleteAt? ==> |r| <= |images|
  {
    match ev
    case GalleryAdd(files, ids) => ImagesChange(images, AddFiles(files, ids), true)
    case CoverChange(files, ids) => ImagesChange(images, AddFiles(files, ids), false)
    case DeleteAt(pos) => DeleteImage(images, Filtered(images)[pos].id)
  }

  /** A sequence of actions each of which the modal offers at the time. */
  ghost predicate AllowedRun(images: seq<FileAndType>, evs: seq<Event>)
    decreases evs
  {
    evs == [] || (Allowed(images, evs[0]) && AllowedRun(Step(images, evs[0]), evs[1..]))
  }

  /** The list after a sequence of offered actions. */
  function Run(images: seq<FileAndType>, evs: seq<Event>): seq<FileAndType>
    requires AllowedRun(images, evs)
    decreases evs
  {
    if evs == [] then images else Run(Step(images, evs[0]), evs[1..])
  }

  /** The invariant of the staged list. */
  ghost predicate Inv(s: seq<FileAndType>)
  {
    && UniqueIds(s)
    && FilesOnlyOnAdds(s)
    && (|s| > 0 ==> s[0].kind != Delete)
  }

  // ---------------------------------------------------------------- consequences of the invariant

  /** The cover the modal shows (`filteredImages[0]`) is the first entry of the list. */
  lemma CoverIsShown(s: seq<FileAndType>)
    requires Inv(s) && |s| > 0
    ensures |Filtered(s)| > 0 && Filtered(s)[0] == s[0]
  {
    assert s == [s[0]] + s[1..];
    FilterConcat([s[0]], s[1..], IsShown);
  }

  /** The view is empty only when the list is, so a cover change never displaces an entry. */
  lemma EmptyViewEmptyList(s: seq<FileAndType>)
    requires Inv(s)
    ensures |Filtered(s)| == 0 <==> s == []
  {
    if s != [] {
      CoverIsShown(s);
    }
  }

  /** The invariant gives what the submit handler takes for granted of every added entry. */
  lemma InvCarriesFiles(s: seq<FileAndType>)
    requires Inv(s)
    ensures AddsCarryFiles(s)
  {
  }

  /**
   * The view is not capped: the gallery's plus button is offered at nine
   * entries, and one multi-file choice of three files makes the view twelve
   * long, of which the cover and the gallery row show ten.
   */
  lemma OfferedGalleryAddExceedsTen(images: seq<FileAndType>, files: seq<FileRef>, ids: seq<ImageId>)
    requires |Filtered(images)| == 9 && |files| == 3
    requires Allowed(images, GalleryAdd(files, ids))
    ensures |Filtered(Step(images, GalleryAdd(files, ids)))| == 12
    ensures |Gallery(Filtered(Step(images, GalleryAdd(files, ids))))| == 9
  {
    GalleryAddView(images, files, ids);
  }

  // ---------------------------------------------------------------- the invariant is kept

  lemma AppendKeepsUniqueIds(s: seq<FileAndType>, t: seq<FileAndType>)
    requires UniqueIds(s) && UniqueIds(t)
    requires forall i, j :: 0 <= i < |s| && 0 <= j < |t| ==> s[i].id != t[j].id
    ensures UniqueIds(s + t)
  {
    var r := s + t;
    forall i, j | 0 <= i < j < |r| ensures IdAt(r, i) != IdAt(r, j) {
      if j < |s| {
        assert r[i] == s[i] && r[j] == s[j];
        DistinctAt(s, i, j);
      } else if i >= |s| {
        assert r[i] == t[i - |s|] && r[j] == t[j - |s|];
        DistinctAt(t, i - |s|, j - |s|);
      } else {
        assert r[i] == s[i] && r[j] == t[j - |s|];
      }
    }
  }

  /** A batch with fresh ids is well formed and its ids avoid the list's. */
  lemma FreshBatch(images: seq<FileAndType>, files: seq<FileRef>, ids: seq<ImageId>)
    requires |ids| == |files| && FreshIds(images, ids)
    ensures UniqueIds(AddFiles(files, ids)) && FilesOnlyOnAdds(AddFiles(files, ids))
    ensures forall i, j :: 0 <= i < |images| && 0 <= j < |files| ==> images[i].id != AddFiles(files, ids)[j].id
  {
    var c := AddFiles(files, ids);
    forall i, j | 0 <= i < j < |c| ensures IdAt(c, i) != IdAt(c, j) {
      assert c[i].id == ids[i] && c[j].id == ids[j];
    }
    forall e | e in c ensures e.file.Some? && e.kind == Add {
      var i :| 0 <= i < |c| && c[i] == e;
    }
  }

  lemma GalleryAddKeepsInv(images: seq<FileAndType>, files: seq<FileRef>, ids: seq<ImageId>)
    requires Inv(images) && |ids| == |files| && FreshIds(images, ids)
    ensures Inv(ImagesChange(images, AddFiles(files, ids), true))
  {
    var c := AddFiles(files, ids);
    var r := ImagesChange(images, c, true);
    FreshBatch(images, files, ids);
    assert r == images + c;
    AppendKeepsUniqueIds(images, c);
    assert forall e :: e in r ==> e in images || e in c;
    if |images| == 0 && |r| > 0 {
      assert r[0] == c[0];
    }
  }

  lemma CoverChangeKeepsInv(images: seq<FileAndType>, files: seq<FileRef>, ids: seq<ImageId>)
    requires Inv(images) && |ids| == |files| && |files| > 0 && FreshIds(images, ids)
    ensures Inv(ImagesChange(images, AddFiles(files, ids), false))
  {
    var c := AddFiles(files, ids);
    var r := ImagesChange(images, c, false);
    FreshBatch(images, files, ids);
    assert [c[0]] == c[..1];
    var rest := if |images| == 0 then [] else images[1..];
    assert r == [c[0]] + rest;
    if |images| > 0 {
      DistinctTail(images);
    }
    assert UniqueIds([c[0]]);
    forall i, j | 0 <= i < 1 && 0 <= j < |rest| ensures [c[0]][i].id != rest[j].id {
      assert rest[j] == images[j + 1];
    }
    AppendKeepsUniqueIds([c[0]], rest);
    forall e | e in r ensures e.file.Some? <==> e.kind == Add {
      if e != c[0] {
        var j :| 0 <= j < |rest| && rest[j] == e;
        assert e == images[j + 1];
      }
    }
  }

  /** A delete of an entry other than the first leaves the first entry where it was. */
  lemma DeleteKeepsCover(images: seq<FileAndType>, id: ImageId)
    requires |images| > 0 && images[0].id != id
    ensures |DeleteImage(images, id)| > 0 && DeleteImage(images, id)[0] == images[0]
  {
    match Find(images, id)
    case None =>
    case Some(k) =>
      if images[k].file.Some? {
        assert Without(images, id) == [images[0]] + Without(images[1..], id);
      }
  }

  lemma DeleteKeepsFilesOnlyOnAdds(images: seq<FileAndType>, id: ImageId)
    requires FilesOnlyOnAdds(images)
    ensures FilesOnlyOnAdds(DeleteImage(images, id))
  {
    var r := DeleteImage(images, id);
    match Find(images, id)
    case None =>
    case Some(k) =>
      if images[k].file.Some? {
        WithoutMembership(images, id);
      } else {
        assert images[k] in images;
        forall e | e in r ensures e.file.Some? <==> e.kind == Add {
          var j :| 0 <= j < |r| && r[j] == e;
          if j != k {
            assert e == images[j];
          }
        }
      }
  }

  lemma DeleteAtKeepsInv(images: seq<FileAndType>, pos: nat)
    requires Inv(images) && 1 <= pos < |Filtered(images)|
    ensures Inv(DeleteImage(images, Filtered(images)[pos].id))
  {
    var view := Filtered(images);
    var id := view[pos].id;
    CoverIsShown(images);
    FilterKeepsUniqueIds(images, IsShown);
    DistinctAt(view, 0, pos);
    DeleteKeepsCover(images, id);
    DeleteKeepsUniqueIds(images, id);
    DeleteKeepsFilesOnlyOnAdds(images, id);
  }

  /** Every action the modal offers keeps the invariant. */
  lemma StepKeepsInv(images: seq<FileAndType>, ev: Event)
    requires Inv(images) && Allowed(images, ev)
    ensures Inv(Step(images, ev))
  {
    match ev
    case GalleryAdd(files, ids) => GalleryAddKeepsInv(images, files, ids);
    case CoverChange(files, ids) => CoverChangeKeepsInv(images, files, ids);
    case DeleteAt(pos) => DeleteAtKeepsInv(images, pos);
  }

  lemma {:induction false} RunKeepsInv(images: seq<FileAndType>, evs: seq<Event>)
    requires Inv(images) && AllowedRun(images, evs)
    ensures Inv(Run(images, evs))
    decreases evs
  {
    if evs != [] {
      StepKeepsInv(images, evs[0]);
      RunKeepsInv(Step(images, evs[0]), evs[1..]);
    }
  }

  /**
   * Once the list is non-empty no offered action changes its first entry: the
   * cover button is offered only on an empty view, and delete icons only from
   * view position 1 on.
   */
  lemma StepKeepsFirst(images: seq<FileAndType>, ev: Event)
    requires Inv(images) && Allowed(images, ev) && |images| > 0
    ensures |Step(images, ev)| > 0 && Step(images, ev)[0] == images[0]
  {
    match ev
    case GalleryAdd(files, ids) =>
    case CoverChange(files, ids) =>
      EmptyViewEmptyList(images);
      assert false;
    case DeleteAt(pos) =>
      var view := Filtered(images);
      CoverIsShown(images);
      FilterKeepsUniqueIds(images, IsShown);
      DistinctAt(view, 0, pos);
      DeleteKeepsCover(images, view[pos].id);
  }

  /** Over any sequence of offered actions, the first entry of a non-empty list stays the first entry. */
  lemma {:induction false} RunKeepsFirst(images: seq<FileAndType>, evs: seq<Event>)
    requires Inv(images) && AllowedRun(images, evs) && |images| > 0
    ensures |Run(images, evs)| > 0 && Run(images, evs)[0] == images[0]
    decreases evs
  {
    if evs != [] {
      StepKeepsFirst(images, evs[0]);
      StepKeepsInv(images, evs[0]);
      RunKeepsFirst(Step(images, evs[0]), evs[1..]);
    }
  }

  /**
   * From the loaded images of a product with distinct keys, whatever the user
   * does through the modal: ids stay distinct, every added entry carries its
   * file (so the submit handler's `file!` holds), and a non-empty list is
   * shown with its first entry as the cover. When the product had images, the
   * cover stays its first server image.
   */
  lemma SessionKeepsCover(server: seq<ProductImage>, evs: seq<Event>)
    requires DistinctKeys(server)
    requires AllowedRun(ImageLoad(server), evs)
    ensures UniqueIds(Run(ImageLoad(server), evs))
    ensures AddsCarryFiles(Run(ImageLoad(server), evs))
    ensures |Run(ImageLoad(server), evs)| > 0 ==>
      |Filtered(Run(ImageLoad(server), evs))| > 0 && Filtered(Run(ImageLoad(server), evs))[0] == Run(ImageLoad(server), evs)[0]
    ensures server != [] ==> |Run(ImageLoad(server), evs)| > 0 && Run(ImageLoad(server), evs)[0] == ImageLoad(server)[0]
  {
    var init := ImageLoad(server);
    ImageLoadWellFormed(server);
    assert |init| > 0 ==> init[0].kind == FileType.None;
    RunKeepsInv(init, evs);
    var s := Run(init, evs);
    InvCarriesFiles(s);
    if |s| > 0 {
      CoverIsShown(s);
    }
    if server != [] {
      RunKeepsFirst(init, evs);
    }
  }
}
