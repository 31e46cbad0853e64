/** The fixed list of product categories the carousel pages through.
    Only its length matters to the carousel's logic; the records are kept
    so that the count is the count of an actual list. */
module Catalogue {

  datatype Option<T> = None | Some(value: T)

  /** One card of the carousel: a title, the growing regions in display
      order, an optional blurb and an opaque image reference. */
  datatype ProductCategory = ProductCategory(
    title: string,
    regions: seq<string>,
    description: Option<string>,
    image: string)

  const Products: seq<ProductCategory> := [
    ProductCategory("Matcha Powder",
      ["Kagoshima", "Fukuoka", "Kyoto", "Mie", "Aichi", "Shizuoka"],
      Some("Premium ceremonial and culinary grades for authentic lattes. Several grades are available."),
      "/matcha.png"),
    ProductCategory("Hojicha Powder",
      ["Kyoto", "Mie", "Aichi", "Shizuoka"],
      Some("Roasted green tea powder with a nutty, caramel-like flavor. Several grades are available."),
      "/hojicha-powder.png"),
    ProductCategory("Matcha Paste",
      ["Kagoshima", "Kyoto"],
      Some("Highly concentrated paste ideal for bakery fillings and sauces."),
      "/matcha-paste.png"),
    ProductCategory("Sencha",
      ["Kagoshima", "Fukuoka", "Kyoto", "Mie", "Aichi"],
      Some("The classic steamed green tea of Japan. Refreshing and grassy."),
      "/sencha.png"),
    ProductCategory("Flavored Sencha",
      ["Kagoshima", "Fukuoka", "Kyoto"],
      Some("Traditional tea blended with yuzu, sakura, or other botanicals."),
      "/flavored-sencha.png"),
    ProductCategory("Genmaicha",
      ["Fukuoka", "Kyoto", "Mie", "Aichi"],
      Some("Green tea mixed with roasted popped brown rice."),
      "/genmaicha.png")
  ]

  /** Number of cards on the track: the catalogue holds six categories. */
  function ItemCount(): (n: nat)
    ensures n == 6
  {
    |Products|
  }
}
