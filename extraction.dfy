/** The records the scraper builds from fetched storefront pages. The
    document queries (`querySelectorAll(".product-card")`, `querySelector("h3")`
    and so on) are not modelled: a page is given by what those queries return,
    and a failed fetch by None. */
module Extraction {
  import opened Wrappers
  import opened Text
  import opened Links

  const UnnamedProduct := "Unnamed Product"
  const NoPrice := "N/A"
  /** The storefront root that the category list is read from. */
  const StoreUrl := "https://oscaudio.gumroad.com/"
  /** The prefix of every category URL; the label follows the '#'. */
  const CategoryBase := "https://oscaudio.gumroad.com/#/"

  /** One element matching `.product-card`: the `href` of its first anchor,
      the `src` of its first image, the text of its first `h3` and the text of
      its first `.price` element, each None when the card has no such
      element. */
  datatype Card = Card(
    anchorHref: Option<string>,
    imageSrc: Option<string>,
    heading: Option<string>,
    priceText: Option<string>)

  /** A single product page: the text of its first `.price` element, the
      `src` and `href` of the first image and anchor inside an
      `article.product-card`, and the text of its first `h3`. */
  datatype ProductPage = ProductPage(
    priceText: Option<string>,
    cardImageSrc: Option<string>,
    cardAnchorHref: Option<string>,
    heading: Option<string>)

  /** A product record; `id` None is JavaScript's null. */
  datatype Product = Product(name: string, price: string, link: string, image: string, id: Option<string>)

  /** `x || fallback` where `x` is an optional string: both undefined and the
      empty string are falsy. */
  function Or(x: Option<string>, fallback: string): (r: string)
    ensures x.Some? && x.value != [] ==> r == x.value
    ensures x.None? || x.value == [] ==> r == fallback
    ensures r == [] ==> fallback == []
  {
    if x.Some? && x.value != [] then x.value else fallback
  }

  /** `el?.textContent.trim()` */
  function TrimmedText(text: Option<string>): (r: Option<string>)
    ensures r.Some? <==> text.Some?
    ensures r.Some? ==> r.value == Trim(text.value)
    ensures r.Some? ==> (r.value == [] <==> WhitespaceIn(text.value, 0, |text.value|))
    ensures r.Some? ==> r.value != [] ==> !IsWhitespace(r.value[0]) && !IsWhitespace(r.value[|r.value| - 1])
  {
    match text
    case None => None
    case Some(t) => Some(Trim(t))
  }

  // ---------------------------------------------------------------------------
  // Category listing (fetchProductsForCategory)

  /** The name of a card: its trimmed heading, and when that is missing, empty
      or literally "Unnamed Product", the slug of its link. */
  function CardName(card: Card, link: string): (name: string)
    ensures name != []
  {
    var fromHeading := Or(TrimmedText(card.heading), UnnamedProduct);
    if fromHeading == UnnamedProduct then SlugFromLink(link).GetOr(UnnamedProduct) else fromHeading
  }

  /** The record built for one product card. */
  function ProductFromCard(card: Card): (p: Product)
    ensures p.name != [] && p.price != []
    ensures card.anchorHref.None? ==> p.link == [] && p.id == None
    ensures p.id == ExtractProductId(p.link)
  {
    var link := Or(card.anchorHref, "");
    Product(CardName(card, link), Or(card.priceText, NoPrice), link, Or(card.imageSrc, ""),
            ExtractProductId(link))
  }

  /** The name of a card is chosen in this order: the trimmed heading when it
      is present, non-empty and not the sentinel itself; then the slug of the
      link; then "Unnamed Product". */
  lemma CardNamePriority(card: Card)
    ensures var p := ProductFromCard(card);
            var h := card.heading;
            var slug := SlugFromLink(p.link);
            && (h.Some? && Trim(h.value) != [] && Trim(h.value) != UnnamedProduct
                ==> p.name == Trim(h.value))
            && (!(h.Some? && Trim(h.value) != [] && Trim(h.value) != UnnamedProduct) && slug.Some?
                ==> p.name == slug.value)
            && (!(h.Some? && Trim(h.value) != [] && Trim(h.value) != UnnamedProduct) && slug.None?
                ==> p.name == UnnamedProduct)
  {
  }

  /** The price is the `.price` text as it stands (not trimmed), "N/A" when
      the element is missing or its text is empty; the link and the image are
      "" when their element is missing. */
  lemma CardFieldDefaults(card: Card)
    ensures var p := ProductFromCard(card);
            && (card.priceText.Some? && card.priceText.value != [] ==> p.price == card.priceText.value)
            && (card.priceText.None? || card.priceText.value == [] ==> p.price == NoPrice)
            && (card.anchorHref.Some? ==> p.link == card.anchorHref.value)
            && (card.imageSrc.Some? ==> p.image == card.imageSrc.value)
            && (card.imageSrc.None? ==> p.image == [])
  {
  }

  /** `productCards.map(...)`: one record per card, in document order. */
  function ProductsFromCards(cards: seq<Card>): (ps: seq<Product>)
    ensures |ps| == |cards|
    ensures forall i :: 0 <= i < |cards| ==> ps[i] == ProductFromCard(cards[i])
  {
    if cards == [] then [] else [ProductFromCard(cards[0])] + ProductsFromCards(cards[1..])
  }

  /** `fetchProductsForCategory`: the cards of the fetched category page, or
      no products at all when the fetch failed. */
  function ProductsForCategory(fetched: Option<seq<Card>>): (ps: seq<Product>)
    ensures fetched.None? ==> ps == []
    ensures fetched.Some? ==> |ps| == |fetched.value|
    ensures fetched.Some? ==> forall i :: 0 <= i < |ps| ==> ps[i] == ProductFromCard(fetched.value[i])
  {
    match fetched
    case None => []
    case Some(cards) => ProductsFromCards(cards)
  }

  // ---------------------------------------------------------------------------
  // Single product page (fetchProductData)

  /** `fetchProductData(productUrl)`: None (JavaScript's null) when the fetch
      failed. The name comes from the slug of the page's own URL first and
      from the page's first heading only when that slug is missing or is the
      sentinel; the link, and so the id, come from the page's first product
      card anchor, not from `productUrl`. */
  function ProductFromPage(productUrl: string, fetched: Option<ProductPage>): (r: Option<Product>)
    ensures r.None? <==> fetched.None?
    ensures r.Some? ==> r.value.name != [] && r.value.price != []
    ensures r.Some? ==> r.value.id == ExtractProductId(r.value.link)
    ensures r.Some? && fetched.value.cardAnchorHref.None? ==> r.value.link == [] && r.value.id == None
  {
    match fetched
    case None => None
    case Some(page) =>
      var fromUrl := SlugFromLink(productUrl).GetOr(UnnamedProduct);
      var name := if fromUrl == UnnamedProduct then Or(TrimmedText(page.heading), UnnamedProduct) else fromUrl;
      var link := Or(page.cardAnchorHref, "");
      Some(Product(name, Or(page.priceText, NoPrice), link, Or(page.cardImageSrc, ""), ExtractProductId(link)))
  }

  /** On a product page the order is the reverse of a card's: the slug of the
      page URL when it is present and not the sentinel; then the trimmed
      heading; then "Unnamed Product". */
  lemma PageNamePriority(productUrl: string, page: ProductPage)
    ensures var p := ProductFromPage(productUrl, Some(page)).value;
            var slug := SlugFromLink(productUrl);
            var h := TrimmedText(page.heading);
            && (slug.Some? && slug.value != UnnamedProduct ==> p.name == slug.value)
            && (!(slug.Some? && slug.value != UnnamedProduct) && h.Some? && h.value != []
                ==> p.name == h.value)
            && (!(slug.Some? && slug.value != UnnamedProduct) && !(h.Some? && h.value != [])
                ==> p.name == UnnamedProduct)
  {
  }

  /** The other fields of a product page: the untrimmed `.price` text, or
      "N/A" when it is missing or empty; the href of the product card's anchor,
      or ""; the src of the product card's image, or "". */
  lemma PageFieldDefaults(productUrl: string, page: ProductPage)
    ensures var p := ProductFromPage(productUrl, Some(page)).value;
            && (page.priceText.Some? && page.priceText.value != [] ==> p.price == page.priceText.value)
            && (page.priceText.None? || page.priceText.value == [] ==> p.price == NoPrice)
            && (page.cardAnchorHref.Some? ==> p.link == page.cardAnchorHref.value)
            && (page.cardAnchorHref.None? ==> p.link == [])
            && (page.cardImageSrc.Some? ==> p.image == page.cardImageSrc.value)
            && (page.cardImageSrc.None? ==> p.image == [])
  {
  }

  /** The two variants name the same product differently. A card headed
      "Kick Pack" is named "Kick Pack" whatever its link, `.../l/kick`
      included ... */
  lemma CardPrefersHeading(card: Card)
    requires card.heading == Some("Kick Pack")
    ensures ProductFromCard(card).name == "Kick Pack"
  {
    TrimUnique("Kick Pack", 0, 9);
    assert "Kick Pack"[0..9] == "Kick Pack";
    CardNamePriority(card);
  }

  /** ... while the product page at that link, with the same heading, is
      named "kick". */
  lemma PagePrefersUrlSlug()
    ensures ProductFromPage(StoreHost + "/l/kick",
                            Some(ProductPage(Some("$9"), None, Some(StoreHost + "/l/kick"), Some("Kick Pack"))))
              .value.name == "kick"
  {
    SlugAfterHost(StoreHost, "kick");
    assert StoreHost + "/l/kick" == StoreHost + "/l/" + "kick";
    PageNamePriority(StoreHost + "/l/kick", ProductPage(Some("$9"), None, Some(StoreHost + "/l/kick"), Some("Kick Pack")));
  }

  // ---------------------------------------------------------------------------
  // Categories (fetchCategories) and the category URL

  /** `headings.map(h2 => h2.textContent.trim())` */
  function TrimAll(texts: seq<string>): (labels: seq<string>)
    ensures |labels| == |texts|
    ensures forall i :: 0 <= i < |texts| ==> labels[i] == Trim(texts[i])
  {
    if texts == [] then [] else [Trim(texts[0])] + TrimAll(texts[1..])
  }

  /** `fetchCategories`: one label per `h2` of the fetched store page, in
      document order, each without surrounding whitespace; none when the fetch
      failed. */
  function CategoriesFromPage(fetched: Option<seq<string>>): (labels: seq<string>)
    ensures fetched.None? ==> labels == []
    ensures fetched.Some? ==> |labels| == |fetched.value|
    ensures fetched.Some? ==> forall i :: 0 <= i < |labels| ==> labels[i] == Trim(fetched.value[i])
    ensures forall i :: 0 <= i < |labels| && labels[i] != [] ==>
              !IsWhitespace(labels[i][0]) && !IsWhitespace(labels[i][|labels[i]| - 1])
  {
    match fetched
    case None => []
    case Some(texts) => TrimAll(texts)
  }

  /** A heading of nothing but whitespace is kept, as an empty label. */
  lemma CategoriesKeepEmptyLabels(texts: seq<string>, i: nat)
    requires i < |texts| && WhitespaceIn(texts[i], 0, |texts[i]|)
    ensures CategoriesFromPage(Some(texts))[i] == []
  {
  }

  /** The URL fetched for a category: the store root, a "#/" fragment and the
      lower-cased label. */
  function CategoryUrl(category: string): (url: string)
    ensures |url| == |CategoryBase| + |category| && url[..|CategoryBase|] == CategoryBase
    ensures forall k :: |CategoryBase| <= k < |url| ==> !IsAsciiUpper(url[k])
    ensures url[|CategoryBase|..] == ToLower(category)
  {
    CategoryBase + ToLower(category)
  }

  /** What an HTTP fetch of `url` asks the server for: the URL without its
      fragment, which never leaves the client. */
  function RequestTarget(url: string): (r: string)
    ensures |r| <= |url| && r == url[..|r|] && '#' !in r
    ensures |r| < |url| ==> url[|r|] == '#'
  {
    url[..IndexOf(url, '#')]
  }

  /** Every category URL puts the label in the fragment, so every category
      fetch requests the same document: the store root. */
  lemma CategoryRequestIsStoreRoot(category: string)
    ensures RequestTarget(CategoryUrl(category)) == StoreUrl
  {
    var url := CategoryUrl(category);
    assert url[..|StoreUrl|] == StoreUrl;
    assert url[|StoreUrl|] == '#';
    assert forall m :: 0 <= m < |StoreUrl| ==> url[m] == StoreUrl[m] != '#';
  }
}
