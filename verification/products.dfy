/** The product record of app/types/products.ts. Every field arrives from a
    spreadsheet cell, so it holds the cell's text or is `undefined` (None);
    the declared number and boolean types are never enforced at run time. */
module Products {
  import opened JsValues

  datatype Product = Product(
    title: Option<string>,
    description: Option<string>,
    price: Option<string>,
    quantity: Option<string>,
    who_made: Option<string>,
    when_made: Option<string>,
    taxonomy_id: Option<string>,
    is_digital: Option<string>)

  /** The eight property names a product is projected onto. */
  const FieldKeys: set<string> :=
    {"title", "description", "price", "quantity", "who_made", "when_made", "taxonomy_id", "is_digital"}
}
