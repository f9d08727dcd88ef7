/** The product shapes the image list is built from (`src/entities/Product/product.models.ts`). */
module ProductModels {

  /**
   * The identity of a stored or staged image. The source uses strings (the
   * storage key, or a random token for a chosen file) and only ever compares
   * them with `===`, so they are opaque values here.
   */
  type ImageId(==, !new)

  /** One image stored on the server: its storage key and a link to its content. */
  datatype ProductImage = ProductImage(key: ImageId, link: string)

  /**
   * A product as the server returns it (`GetAllProductResponse`); `id` is `_id`.
   * The price is a JavaScript number; it is carried as an integer here.
   */
  datatype Product = Product(id: string, price: int, name: string, description: string, images: seq<ProductImage>)

  /** The storage keys of a product's images are pairwise distinct. */
  ghost predicate DistinctKeys(images: seq<ProductImage>)
  {
    forall i, j :: 0 <= i < j < |images| ==> images[i].key != images[j].key
  }
}
