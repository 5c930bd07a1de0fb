/**
 * The rows of the workbook's sheets and of the merged table. A cell that
 * pandas may hold as NaN is an `Option`; the identifier columns arrive as
 * text.
 */
module Records {
  import opened Options

  /** A row of the update feed (third sheet): columns product_id, store_id, price, quantity. */
  datatype UpdateRow = UpdateRow(productId: string, storeId: string, price: Option<int>, quantity: Option<int>)

  /**
   * A row of the catalogue (second sheet): columns external_id, name_english,
   * category, sub_category and the optional description.
   */
  datatype CatalogEntry = CatalogEntry(
    externalId: string,
    nameEnglish: Option<string>,
    category: Option<string>,
    subCategory: Option<string>,
    description: Option<string>)

  /** A row of the image sheet (fourth sheet): columns external_id, image and PICTURE_ORDER. */
  datatype ImageEntry = ImageEntry(externalId: string, image: Option<string>, pictureOrder: Option<int>)

  /** The image sheet; `hasPictureOrder` tells whether it has a PICTURE_ORDER column at all. */
  datatype ImageSheet = ImageSheet(hasPictureOrder: bool, rows: seq<ImageEntry>)

  /**
   * A row of the merged table: the update row's columns, the catalogue's
   * columns (null without a catalogue match; `externalId` is the catalogue's
   * key column) and the image column (null without an image match).
   */
  datatype Row = Row(
    productId: string,
    storeId: string,
    price: Option<int>,
    quantity: Option<int>,
    externalId: Option<string>,
    nameEnglish: Option<string>,
    category: Option<string>,
    subCategory: Option<string>,
    description: Option<string>,
    image: Option<string>)

  function ProductId(u: UpdateRow): string { u.productId }
  function CatalogId(c: CatalogEntry): string { c.externalId }
  function ImageId(e: ImageEntry): string { e.externalId }
}
