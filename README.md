# Staged image list of the product modal (shopup-front)

This project models the image handling of the product create/edit modal of
shopup-front, `src/widgets/ModalProducts/ModalProducts.tsx`, and proves
properties of it in Dafny.

The modal keeps one piece of form state, `images`. It is an ordered list of
`FileAndType` entries. Each entry has an id, an optional chosen file, an
optional server link and a `FileType`: `None`, `Delete` or `Add`. The model
covers these parts:

- **Seeding.** `handleImageLoad` turns the edited product's images into `None` entries.
- **Converting.** `handleAddFiles` turns chosen files into `Add` entries.
- **Adding.** `handleImagesChange` appends gallery files, or puts a cover file at position 0 and drops whatever stood there.
- **Deleting.** `handleDeleteImg` removes a local entry, or marks a server entry `Delete` in place.
- **The view.** `filteredImages` is the list without `Delete` entries. The view's first entry is the cover and positions 1 to 9 are the gallery row.
- **The change set.** `handleAddOrEditProduct` sends the files of the `Add` entries, the ids of the `Delete` entries, the name, the price, the description when it is non-empty and the product id when it is non-empty.

Modules, in dependency order:

- `Wrappers`: `Option`.
- `Seqs`: order-preserving `Filter` (`Array.prototype.filter`) and its laws.
- `ProductModels`: `ProductImage` and `Product` from `src/entities/Product/product.models.ts`.
- `ModalProducts`: the entry datatype and the pure list constructions. These are load, convert, view, gallery row, add, find and delete.
- `ProductPayload`: the submitted change set.
  - `BuildPayload` specifies it.
  - `AddOrEditProduct` is the handler, with its loop over the added entries.
  - Lemmas give each list operation's effect on the change set.
- `CoverInvariant`: the actions the rendered modal offers, and the invariant they keep (distinct ids, files exactly on `Add` entries, first entry never `Delete`). The invariant implies that the cover shown is the list's first entry.
- `ModalForm`: class `ImageForm`. Its `images` field is replaced by `ChangeImages` and `DeleteImg`. `Submit` builds the change set from it.

Behaviour of the code worth noting:

- **No cap.** Adding gallery files appends every chosen file (`ModalProducts.tsx:131-132`). Nothing clamps the number of shown entries to ten. Only rendering stops at ten: the gallery row shows view positions 1 to 9 (`:193`), and the plus button is hidden from ten shown entries on (`:197`).
  - `GalleryAddView` states that the view grows by the number of files.
  - `OfferedGalleryAddExceedsTen` gives an offered action after which the view holds twelve entries.
- **No preview release.** Preview object URLs are created while rendering (`:174`) and never released. There is no handle lifecycle, so none is modelled.
- **Delete ids are a list.** `imagesToDelete` is sent as a list in list order (`:117`), not as a set.
- **Cover change drops the old cover.** The entry a cover change replaces is dropped (`:133`); it is not marked `Delete`.
- **Behaviour of a delete:**
  - An unknown id is silently ignored (`:157`).
  - A local entry is removed together with every entry sharing its id (`:160`).

## Model

| member | source | states |
|---|---|---|
| `Seqs.Filter` | src/widgets/ModalProducts/ModalProducts.tsx:100 | filtering never lengthens a list |
| `Seqs.FilterMembership` | src/widgets/ModalProducts/ModalProducts.tsx:106-107 | an element survives the filter iff it is in the list and passes the predicate |
| `Seqs.FilterConcat` | src/widgets/ModalProducts/ModalProducts.tsx:100 | filtering distributes over concatenation, i.e. keeps the order of the list |
| `Seqs.FilterAll` | src/widgets/ModalProducts/ModalProducts.tsx:100 | a list all of whose elements pass is unchanged |
| `Seqs.FilterNone` | src/widgets/ModalProducts/ModalProducts.tsx:107 | a list none of whose elements pass filters to empty |
| `ModalProducts.ImageLoad` | src/widgets/ModalProducts/ModalProducts.tsx:31-42 | one entry per server image, same order: id is the key, link is the link, no file, type `None` |
| `ModalProducts.ImageLoadWellFormed` | src/widgets/ModalProducts/ModalProducts.tsx:31-42 | distinct server keys give distinct ids, and no loaded entry holds a file |
| `ModalProducts.AddFiles` | src/widgets/ModalProducts/ModalProducts.tsx:44-56 | one entry per chosen file, same order: the supplied id, the file, no link, type `Add` |
| `ModalProducts.ViewMembership` | src/widgets/ModalProducts/ModalProducts.tsx:100 | the view holds exactly the entries whose type is not `Delete` |
| `ModalProducts.Filtered` | src/widgets/ModalProducts/ModalProducts.tsx:100 | the view is no longer than the list |
| `ModalProducts.Gallery` | src/widgets/ModalProducts/ModalProducts.tsx:193 | the gallery row is view positions 1 to 9: at most 9 entries, its exact length, and entry i is view entry i + 1 |
| `ModalProducts.ShowsAddGalleryButton` | src/widgets/ModalProducts/ModalProducts.tsx:197 | the button is shown iff the gallery row has room (non-empty view), and never when the row is full |
| `ModalProducts.ImagesChange` | src/widgets/ModalProducts/ModalProducts.tsx:126-136 | gallery mode: old entries unchanged in place, then the new ones; cover mode: new entry at 0, entries 1.. unchanged, length kept (1 if empty) |
| `ModalProducts.Find` | src/widgets/ModalProducts/ModalProducts.tsx:156 | none iff no entry has the id; otherwise an in-range index holding the id with no earlier entry holding it |
| `ModalProducts.WithoutMembership` | src/widgets/ModalProducts/ModalProducts.tsx:160 | after removing an id, exactly the entries with another id remain |
| `ModalProducts.Without` | src/widgets/ModalProducts/ModalProducts.tsx:160 | removing an id never lengthens the list |
| `ModalProducts.FilterKeepsUniqueIds` | src/widgets/ModalProducts/ModalProducts.tsx:100 | filtering a list with distinct ids keeps them distinct |
| `ModalProducts.GalleryAddView` | src/widgets/ModalProducts/ModalProducts.tsx:131-132 | a gallery add appends the new entries to the view, which grows by the number of files without bound |
| `ModalProducts.CoverChangeView` | src/widgets/ModalProducts/ModalProducts.tsx:133 | over a shown cover, the new entry replaces exactly the shown cover and the rest of the view is unchanged |
| `ModalProducts.CoverChangeOverDeletedCover` | src/widgets/ModalProducts/ModalProducts.tsx:133 | over a cover marked `Delete`, the new entry is put in front of the whole previous view |
| `ModalProducts.CoverChangeSplit` | src/widgets/ModalProducts/ModalProducts.tsx:133 | a cover change yields the first new entry followed by the old entries from position 1 |
| `ModalProducts.DeleteImage` | src/widgets/ModalProducts/ModalProducts.tsx:154-166 | the list `handleDeleteImg` leaves: never longer than before, and unchanged unless some entry has the id; the three cases are the lemmas below |
| `ModalProducts.DeleteUnknownId` | src/widgets/ModalProducts/ModalProducts.tsx:156-157 | deleting an id no entry has leaves the list unchanged |
| `ModalProducts.DeleteLocalEntry` | src/widgets/ModalProducts/ModalProducts.tsx:159-161 | deleting an entry with a file removes every entry with its id and keeps exactly the others |
| `ModalProducts.DeleteServerEntry` | src/widgets/ModalProducts/ModalProducts.tsx:164-165 | deleting an entry without a file keeps the length, sets only its type to `Delete`, and leaves every other entry unchanged |
| `ModalProducts.DeleteServerSplit` | src/widgets/ModalProducts/ModalProducts.tsx:164-165 | the result is the entries before, the marked entry, the entries after |
| `ModalProducts.DeletedLeavesView` | src/widgets/ModalProducts/ModalProducts.tsx:154-166 | with distinct ids, no entry of the view after a delete has the deleted id |
| `ModalProducts.DeleteKeepsUniqueIds` | src/widgets/ModalProducts/ModalProducts.tsx:154-166 | every delete keeps ids distinct |
| `ModalProducts.WithoutAbsent` | src/widgets/ModalProducts/ModalProducts.tsx:160 | removing an id no entry has changes nothing |
| `ModalProducts.WithoutConcat` | src/widgets/ModalProducts/ModalProducts.tsx:160 | removing an id distributes over concatenation |
| `ModalProducts.WithoutUnique` | src/widgets/ModalProducts/ModalProducts.tsx:159-161 | with distinct ids, removing the id of entry k removes exactly entry k, the rest in order |
| `ProductPayload.FilesOf` | src/widgets/ModalProducts/ModalProducts.tsx:113-115 | one file per entry, in order, the file the entry holds |
| `ProductPayload.IdsOf` | src/widgets/ModalProducts/ModalProducts.tsx:117 | one id per entry, in order |
| `ProductPayload.Uploads` | src/widgets/ModalProducts/ModalProducts.tsx:106 | no more uploads than entries |
| `ProductPayload.UploadsMembership` | src/widgets/ModalProducts/ModalProducts.tsx:106-115 | a file is uploaded iff some `Add` entry holds it |
| `ProductPayload.DeleteIds` | src/widgets/ModalProducts/ModalProducts.tsx:107 | no more delete ids than entries |
| `ProductPayload.DeleteIdsMembership` | src/widgets/ModalProducts/ModalProducts.tsx:107-117 | an id is sent for deletion iff some `Delete` entry has it |
| `ProductPayload.BuildPayload` | src/widgets/ModalProducts/ModalProducts.tsx:102-120 | name and price always; the uploads and delete ids; description iff non-empty; product id iff an edited product with non-empty `_id` |
| `ProductPayload.AddOrEditProduct` | src/widgets/ModalProducts/ModalProducts.tsx:102-120 | the handler's filters and loop produce exactly `BuildPayload` |
| `ProductPayload.UploadsConcat` | src/widgets/ModalProducts/ModalProducts.tsx:106-115 | the uploads of a concatenation are the concatenated uploads |
| `ProductPayload.DeleteIdsConcat` | src/widgets/ModalProducts/ModalProducts.tsx:107-117 | the delete ids of a concatenation are the concatenated delete ids |
| `ProductPayload.SingleEntryPayload` | src/widgets/ModalProducts/ModalProducts.tsx:106-107 | an `Add` entry uploads its file, a `Delete` entry sends its id, a `None` entry contributes nothing |
| `ProductPayload.PayloadAround` | src/widgets/ModalProducts/ModalProducts.tsx:106-117 | each entry contributes to both lists at its own place |
| `ProductPayload.PayloadAroundKept` | src/widgets/ModalProducts/ModalProducts.tsx:106-107 | an unchanged (`None`) entry contributes to neither list |
| `ProductPayload.PayloadAroundMarked` | src/widgets/ModalProducts/ModalProducts.tsx:107-117 | a `Delete` entry contributes its id at its place and no upload |
| `ProductPayload.PayloadFront` | src/widgets/ModalProducts/ModalProducts.tsx:106-117 | an entry put in front puts its contribution in front of both lists |
| `ProductPayload.AddedFilesPayload` | src/widgets/ModalProducts/ModalProducts.tsx:44-56 | freshly converted files are all uploaded, in order, and none is deleted |
| `ProductPayload.GalleryAddPayload` | src/widgets/ModalProducts/ModalProducts.tsx:131-132 | a gallery add uploads the files after the earlier uploads and leaves the delete ids unchanged |
| `ProductPayload.CoverChangePayload` | src/widgets/ModalProducts/ModalProducts.tsx:133 | a cover change uploads the new cover first; the displaced entry leaves both lists; with distinct ids its id is not deleted |
| `ProductPayload.DisplacedIdNotDeleted` | src/widgets/ModalProducts/ModalProducts.tsx:133 | with distinct ids, the entries after the cover never delete the cover's id |
| `ProductPayload.DeleteLocalPayload` | src/widgets/ModalProducts/ModalProducts.tsx:159-161 | removing a local entry drops exactly its contribution, and its id is not deleted |
| `ProductPayload.RemovedIdNotDeleted` | src/widgets/ModalProducts/ModalProducts.tsx:160 | with distinct ids, the other entries never delete a removed entry's id |
| `ProductPayload.DeleteServerPayload` | src/widgets/ModalProducts/ModalProducts.tsx:164-165 | marking a server entry inserts its id into the delete list at its place; uploads unchanged |
| `CoverInvariant.Allowed` | src/widgets/ModalProducts/ModalProducts.tsx:172-209 | the actions the rendered modal offers: a gallery add only while the gallery row has room, a delete only at a position the gallery row shows (view position p is gallery entry p - 1) |
| `CoverInvariant.Step` | src/widgets/ModalProducts/ModalProducts.tsx:172-209 | the effect of an offered action: a gallery add lengthens the list by the number of files, a cover change keeps its length (1 if empty), a delete never lengthens it |
| `CoverInvariant.CoverIsShown` | src/widgets/ModalProducts/ModalProducts.tsx:172-177 | under the invariant, the shown cover `filteredImages[0]` is the list's first entry |
| `CoverInvariant.EmptyViewEmptyList` | src/widgets/ModalProducts/ModalProducts.tsx:172-183 | under the invariant, the view is empty iff the list is, so the cover button never displaces an entry |
| `CoverInvariant.InvCarriesFiles` | src/widgets/ModalProducts/ModalProducts.tsx:114 | under the invariant, every `Add` entry has the file the loop takes with `file!` |
| `CoverInvariant.OfferedGalleryAddExceedsTen` | src/widgets/ModalProducts/ModalProducts.tsx:197-208 | at nine shown entries an offered three-file add gives twelve, of which the gallery row shows nine |
| `CoverInvariant.AppendKeepsUniqueIds` | src/widgets/ModalProducts/ModalProducts.tsx:132 | appending lists with distinct and disjoint ids keeps ids distinct |
| `CoverInvariant.FreshBatch` | src/widgets/ModalProducts/ModalProducts.tsx:44-56 | converted entries with fresh ids have distinct ids, carry files and avoid the list's ids |
| `CoverInvariant.GalleryAddKeepsInv` | src/widgets/ModalProducts/ModalProducts.tsx:131-132 | a gallery add with fresh ids keeps the invariant |
| `CoverInvariant.CoverChangeKeepsInv` | src/widgets/ModalProducts/ModalProducts.tsx:133 | a cover change with fresh ids keeps the invariant |
| `CoverInvariant.DeleteKeepsCover` | src/widgets/ModalProducts/ModalProducts.tsx:154-166 | deleting any id but the first entry's keeps the first entry in place |
| `CoverInvariant.DeleteKeepsFilesOnlyOnAdds` | src/widgets/ModalProducts/ModalProducts.tsx:154-166 | every delete keeps files exactly on `Add` entries |
| `CoverInvariant.DeleteAtKeepsInv` | src/widgets/ModalProducts/ModalProducts.tsx:193-194 | deleting the entry at a gallery position (view position 1 or more) keeps the invariant |
| `CoverInvariant.StepKeepsInv` | src/widgets/ModalProducts/ModalProducts.tsx:184-209 | every action the rendered modal offers keeps the invariant |
| `CoverInvariant.RunKeepsInv` | src/widgets/ModalProducts/ModalProducts.tsx:184-209 | every sequence of offered actions keeps the invariant |
| `CoverInvariant.StepKeepsFirst` | src/widgets/ModalProducts/ModalProducts.tsx:172-194 | under the invariant, no offered action changes the first entry of a non-empty list (the cover button needs an empty view, delete icons start at view position 1) |
| `CoverInvariant.RunKeepsFirst` | src/widgets/ModalProducts/ModalProducts.tsx:172-209 | under the invariant, the first entry of a non-empty list survives every sequence of offered actions |
| `CoverInvariant.SessionKeepsCover` | src/widgets/ModalProducts/ModalProducts.tsx:90-100 | from a loaded product with distinct keys, after any offered actions: distinct ids, files on all `Add` entries, the cover shown is the first entry; from a product with images, the cover stays its first server image |
| `ModalForm.DefaultImages` | src/widgets/ModalProducts/ModalProducts.tsx:93 | `productToEdit?.images ?? []`: the edited product's images, or none |
| `ModalForm.ImageForm.constructor` | src/widgets/ModalProducts/ModalProducts.tsx:90-95 | the form starts from the loaded product images, or empty; with distinct keys it satisfies the invariant |
| `ModalForm.ImageForm.ChangeImages` | src/widgets/ModalProducts/ModalProducts.tsx:126-136 | stores `ImagesChange` of the old list and the converted files; fresh ids keep the invariant |
| `ModalForm.ImageForm.DeleteImg` | src/widgets/ModalProducts/ModalProducts.tsx:154-166 | stores `DeleteImage` of the old list, with the entry changed in place for a server image; deleting any entry but the first keeps the invariant |
| `ModalForm.ImageForm.Submit` | src/widgets/ModalProducts/ModalProducts.tsx:102-120 | the submitted change set of the current form values is `BuildPayload` |

## Left out

- **React, react-hook-form and rendering.** Modal, inputs, buttons and refs are not modelled, and neither are `watch`, `getValues` or `setValue`. The form state is the `images` field of `ImageForm`. From the rendering, the model keeps only which actions are offered (`CoverInvariant.Allowed`): the gallery plus button, the cover button on an empty view, and delete icons on the gallery row.
- **yup validation** (`ModalProducts.tsx:22-27`) is library behaviour and is not modelled. The schema requires a description, yet the payload sends it only when non-empty (`:25` against `:119`). The model follows the payload code: `FormValues.description` is optional.
- **Network and encoding.**
  - The submit mutation, `FormData`, `JSON.stringify` of the ids, the un-awaited call and `onClose` (`:109-123`) are not modelled.
  - The delete-product handler (`:146-148`) is not modelled.
  - The payload is a record of sequences.
- **Preview URLs** from `URL.createObjectURL` (`:174`) are browser calls with no release. They are not modelled.
- **Random ids.** `Math.random` ids (`:47`) are supplied by the caller. The list operations accept any ids, colliding ones included: `AddFiles` and `ImageForm.ChangeImages` take them as given, and when the first entry with the id holds a file, `DeleteImage` removes every entry with that id, server entries included; otherwise it marks only that first entry `Delete`, and a local entry sharing the id stays. Only the invariant results assume there is no collision: `FreshIds` inside `CoverInvariant.Allowed`, and the second `ensures` of `ImageForm.ChangeImages`. How likely a collision of `Math.random` ids is, is not modelled.
- **Shape of an entry.**
  - The entry `id` is optional in the source's type. Every entry the code creates has one, so the model always has one.
  - The source's `type` field is named `kind`.
  - Ids are an opaque type, since they are only compared.
  - The price is an integer, not a floating-point number.
- **Object aliasing.** `handleDeleteImg` changes the found entry object itself (`:164`). Any other holder of that object would see the change. The model updates the list value instead.
- `ProductPayload.AddOrEditProduct`, `ProductPayload.BuildPayload` and `ModalForm.ImageForm.Submit` require every `Add` entry to hold a file. The source asserts this with `file!` (`:114`), and the invariant guarantees it (`InvCarriesFiles`). What the browser would append for a missing file is not modelled.
- `ModalProducts.ImagesChange` requires at least one file in cover mode. Otherwise the source would place `undefined` at position 0 (`:133`).
- **Other files.**
  - `src/pages/Products/ProductsPage.tsx` is modal visibility and delete dispatch; its `handleEditProduct` is unused.
  - `src/widgets/ProductCard/ProductCard.tsx` and `img-with-delete-icon.tsx` are presentation only.
  - `emptyProduct` and `IProduct` in `product.models.ts` are not used by the core.
  - The unused `validFileFormats` (`:20`) is not modelled.
