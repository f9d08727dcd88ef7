/**
 * The modal's form state as far as images go. The `images` form value is
 * replaced by each handler (`setValue('images', …)`); a delete of a server
 * image first changes the entry itself and then stores the same list again.
 */
module ModalForm {
  import opened Wrappers
  import opened ProductModels
  import opened ModalProducts
  import opened ProductPayload
  import opened CoverInvariant

  /** The images the form starts from (`productToEdit?.images ?? []`). */
  function DefaultImages(productToEdit: Option<Product>): (r: seq<ProductImage>)
    ensures productToEdit.None? ==> r == []
    ensures productToEdit.Some? ==> r == productToEdit.value.images
  {
    if productToEdit.Some? then productToEdit.value.images else []
  }

  class ImageForm {
    /** The `images` form value. */
    var images: seq<FileAndType>
    /** The product being edited, if any (`props.productToEdit`). */
    const productToEdit: Option<Product>

    /** The invariant the modal's own actions keep. */
    ghost predicate Valid()
      reads this
    {
      Inv(images)
    }

    /** The form's default values: the edited product's images, or none. */
    constructor (productToEdit: Option<Product>)
      ensures this.productToEdit == productToEdit
      ensures images == ImageLoad(DefaultImages(productToEdit))
      ensures DistinctKeys(DefaultImages(productToEdit)) ==> Valid()
      ensures productToEdit.None? ==> images == []
    {
      this.productToEdit := productToEdit;
      var loaded := DefaultImages(productToEdit);
      images := ImageLoad(loaded);
      if DistinctKeys(loaded) {
        ImageLoadWellFormed(loaded);
      }
    }

    /**
     * `handleImagesChange`: stores the list built from the current one and the
     * chosen files. With fresh ids it keeps the invariant.
     */
    method ChangeImages(files: seq<FileRef>, ids: seq<ImageId>, isSmall: bool)
      requires |ids| == |files| && (isSmall || |files| > 0)
      modifies this
      ensures images == ImagesChange(old(images), AddFiles(files, ids), isSmall)
      ensures old(Valid()) && FreshIds(old(images), ids) ==> Valid()
    {
      var currentSecImages := images;
      var convertedFiles := AddFiles(files, ids);
      if Inv(currentSecImages) && FreshIds(currentSecImages, ids) {
        if isSmall {
          GalleryAddKeepsInv(currentSecImages, files, ids);
        } else {
          CoverChangeKeepsInv(currentSecImages, files, ids);
        }
      }
      images := ImagesChange(currentSecImages, convertedFiles, isSmall);
    }

    /**
     * `handleDeleteImg`: finds the entry with the clicked entry's id; an unknown
     * id changes nothing, a local file is filtered out, and a server image is
     * marked `Delete` where it stands. Deleting anything but the first entry
     * keeps the invariant.
     */
    method DeleteImg(file: FileAndType)
      modifies this
      ensures images == DeleteImage(old(images), file.id)
      ensures old(Valid()) && (|old(images)| > 0 ==> old(images)[0].id != file.id) ==> Valid()
    {
      var getImages := images;
      if Inv(getImages) && (|getImages| > 0 ==> getImages[0].id != file.id) {
        if |getImages| > 0 {
          DeleteKeepsCover(getImages, file.id);
        }
        DeleteKeepsUniqueIds(getImages, file.id);
        DeleteKeepsFilesOnlyOnAdds(getImages, file.id);
      }
      var found := Find(getImages, file.id);
      if found.Some? {
        var k := found.value;
        if getImages[k].file.Some? {
          images := Without(getImages, getImages[k].id);
        } else {
          images := getImages[k := getImages[k].(kind := Delete)];
        }
      }
    }

    /**
     * `handleAddOrEditProduct` on the current form values, up to the network
     * call. It needs only what `file!` takes for granted; `Valid()` implies
     * that (`InvCarriesFiles`).
     */
    method Submit(price: int, name: string, description: Option<string>) returns (p: Payload)
      requires AddsCarryFiles(images)
      ensures p == BuildPayload(FormValues(price, name, description, images), productToEdit)
    {
      p := AddOrEditProduct(FormValues(price, name, description, images), productToEdit);
    }
  }
}
