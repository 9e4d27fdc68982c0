# Store recall: a verified model of the storefront scraper

This project models the browser script `js/storeRecall.js`. The script reads
one Gumroad storefront (`https://oscaudio.gumroad.com/`) and turns it into a
sidebar of categories and a grid of product cards. It does five things:

- It reads the category labels from the `h2` headings of the store page.
- It builds one product record per `.product-card` of a category page. Each
  record has a name, a price, a link, an image and an id, with fallbacks
  `"Unnamed Product"`, `"N/A"` and `""`.
- It defines `fetchProductData`, which builds a single product record from a
  product page and tries the name sources in the reverse order. Nothing in
  the script calls it.
- It takes the product id from the link with the regular expression
  `/\/l\/([^/?]+)/`, and the URL slug with
  `link.split('/l/')[1]?.split('?')[0]`.
- It screens every category load through a set of product ids shown so far.
  That set lives for the whole page session.

The model has six modules:

- `Wrappers`: `Option`. `None` stands for JavaScript `null`, a missing element
  or a failed fetch.
- `Text`: ECMAScript `String.prototype.trim` over the full ECMAScript
  white-space and line-terminator set, ASCII `toLowerCase`, and `indexOf`.
- `Links`: the id regular expression and the slug split, each with a
  declarative characterisation of what it returns.
- `Extraction`: the records built from a card, from a product page and from
  the category headings, and the category URL.
- `Dedup`: the ids-seen filter as a specification function `Kept`, and the
  session as a class `DisplaySession` whose loop is proved against `Kept`.
- `Menu`: the sidebar as a class `CategoryMenu` with one `selected` flag per
  item in an array.

A fetch followed by `DOMParser` and `querySelector` is modelled as a
parameter. It carries the strings those queries return, or `None` when the
fetch failed.

Three behaviours of the code are easy to miss, and the model keeps them:

- **Empty category labels are kept.** `fetchCategories` maps `trim` over the
  `h2` texts and filters nothing, so a heading of only white space gives an
  empty label. See `Extraction.CategoriesKeepEmptyLabels`.
- **The null id is deduplicated.** `displayedProductIDs` is a JavaScript
  `Set`, which stores `null` like any other value. After the first product
  without an id, every later one is skipped. See
  `Dedup.AnchorlessCardsRenderOnce`.
- **The sentinel heading falls back to the slug.** A card's name falls back to
  the slug of its link when the heading is missing or empty, and also when
  the trimmed heading is literally `"Unnamed Product"`, because the code
  compares the name with the sentinel.

The model also proves a consequence of the category URL. The label sits after
`#`, and the fragment never reaches the server. So every category fetch asks
for the same document, the store root. Since the seen set is never cleared,
loading that page again renders nothing new.

## Model

| member | source | states |
|---|---|---|
| Text.Trim | js/storeRecall.js:19 | the result is a contiguous piece of the input with only white space cut from both ends; it neither starts nor ends with white space; it is empty exactly when the input is all white space |
| Text.TrimUnique | js/storeRecall.js:19 | any split of the input into leading white space, a part that starts and ends with a non-space, and trailing white space yields exactly that part as the trimmed text |
| Text.TrimIdempotent | js/storeRecall.js:19 | trimming twice gives the same text as trimming once |
| Text.ToLower | js/storeRecall.js:80 | same length; no ASCII capital survives; each capital becomes its lower-case letter (+32); every other character is unchanged |
| Text.IndexOf | js/storeRecall.js:104 | the first position of the character, or the length when it is absent; `split('?')[0]` is the text before that position |
| Links.FirstIdStart | js/storeRecall.js:73 | the leftmost position at or after `from` where `/l/` is followed by a character other than `/` and `?`; None when there is none |
| Links.IdRunEnd | js/storeRecall.js:73 | the end of the greedy `[^/?]+` run: every character before it is allowed and the next one is `/`, `?` or the end |
| Links.ExtractProductId | js/storeRecall.js:71-75 | null exactly when no `/l/` in the link is followed by an allowed character; otherwise a non-empty id made only of characters other than `/` and `?` |
| Links.ExtractProductIdIsSelectedMatch | js/storeRecall.js:73-74 | the result is the capture group of the leftmost match of `/\/l\/([^/?]+)/`, taken greedily |
| Links.ExtractProductIdNoneIffNoMatch | js/storeRecall.js:73-74 | null exactly when the pattern matches nowhere; otherwise the result is the capture of the leftmost, greedy match |
| Links.FirstMarkerFrom | js/storeRecall.js:104 | the first occurrence of `/l/` at or after `from`, as `split('/l/')` finds it |
| Links.SecondPieceBeforeQuery | js/storeRecall.js:104 | `split('/l/')[1]?.split('?')[0]`: undefined exactly when the link has no `/l/`; otherwise the text after the first `/l/`, up to the next `/l/`, the first `?` or the end |
| Links.SlugFromLink | js/storeRecall.js:104 | the slug used as a fallback name: present only when the link contains `/l/` and the piece after it, cut at `?`, is non-empty |
| Links.FirstMarkerStartsId | js/storeRecall.js:73-74 | when an id starts right after the first `/l/`, the regular expression captures the run of allowed characters there |
| Links.PrefixEndsAtSlash | js/storeRecall.js:104 | a prefix of the slug free of `/` and ended by `/` or the end equals the slug exactly when the slug has no `/` |
| Links.IdIsSlugUpToSlash | js/storeRecall.js:104 | for a link whose first `/l/` starts an id (so the regular expression of line 73 matches there), both the id and the slug exist; the id is a prefix of the slug, and the slug character right after it, if any, is `/`, so the id is the slug cut at its first `/`; the two are equal exactly when the slug has no `/` |
| Links.IdRunWithinPiece | js/storeRecall.js:104 | the id run after a marker is a prefix of the split piece that stops at its first `/` |
| Links.IdAfterHost | js/storeRecall.js:71-75 | for `host + "/l/" + id + tail`, with no `l` in the host and the tail starting with `/`, `?` or nothing, the extracted id is `id` |
| Links.SlugAfterHost | js/storeRecall.js:104 | for `host + "/l/" + rest`, with no `l` in the host and a non-empty rest free of `l` and `?`, the slug is the whole rest |
| Links.IdStopsAtQuery | js/storeRecall.js:73 | `.../l/abc123?x=1` has the id `abc123` |
| Links.SlashEndsIdNotSlug | js/storeRecall.js:73-104 | for `host + "/l/" + id + "/" + rest`, with no `l` in the host, a non-empty id free of `/`, `?` and `l`, and a rest free of `l` and `?`: the id (line 73) is `id` but the slug (line 104) is `id + "/" + rest`, so a `/` ends the id and is kept in the slug |
| Links.EmptyLinkHasNoIdOrSlug | js/storeRecall.js:98 | the empty link of an anchorless card has neither an id nor a slug |
| Extraction.CardName | js/storeRecall.js:100-105 | the name of a card is never empty |
| Extraction.ProductFromCard | js/storeRecall.js:97-113 | the name and the price are never empty; a card without an anchor has the link "" and a null id; the id is always the id extracted from the record's own link |
| Extraction.CardNamePriority | js/storeRecall.js:100-105 | the trimmed heading when it is present, non-empty and not the sentinel; otherwise the slug of the link when there is one; otherwise "Unnamed Product" |
| Extraction.CardFieldDefaults | js/storeRecall.js:98-101 | the price is the untrimmed `.price` text, or "N/A" when it is missing or empty; the link is the anchor's href; the image is the img src, or "" when it is missing |
| Extraction.Or | js/storeRecall.js:98-101 | JavaScript's logical-or fallback on an optional string: the string when it is present and non-empty, otherwise the fallback; so the result is empty only if the fallback is |
| Extraction.TrimmedText | js/storeRecall.js:100 | `el?.textContent.trim()`: missing exactly when the element is; otherwise exactly `Trim` of the text, which is empty exactly when the text is all white space and otherwise starts and ends with a non-space |
| Extraction.ProductsFromCards | js/storeRecall.js:94-114 | one record per card, in document order, each built from its own card |
| Extraction.ProductsForCategory | js/storeRecall.js:82-121 | no products when the fetch failed; otherwise one product per card, in order, the product at each index built from the card at that index |
| Extraction.ProductFromPage | js/storeRecall.js:32-67 | null exactly when the fetch failed; otherwise a record with a non-empty name and price, whose id is extracted from its link, and with the link "" and a null id when the page has no product-card anchor |
| Extraction.PageNamePriority | js/storeRecall.js:46-53 | the slug of the page URL when it exists and is not the sentinel; otherwise the trimmed `h3` text when it is non-empty; otherwise "Unnamed Product" |
| Extraction.PageFieldDefaults | js/storeRecall.js:47-49 | on a product page the price is the untrimmed `.price` text, or "N/A" when it is missing or empty; the link is the product-card anchor's href, or ""; the image is the product-card img src, or "" |
| Extraction.CardPrefersHeading | js/storeRecall.js:100-105 | any card headed "Kick Pack", including one that links to `/l/kick`, is named "Kick Pack" |
| Extraction.PagePrefersUrlSlug | js/storeRecall.js:46-53 | the product page at `/l/kick` with the same heading is named "kick" |
| Extraction.TrimAll | js/storeRecall.js:18-20 | one label per heading, in order, each the trimmed heading text |
| Extraction.CategoriesFromPage | js/storeRecall.js:2-29 | no labels when the fetch failed; otherwise one label per `h2`, in order, each the trimmed text of its heading, so none starts or ends with white space |
| Extraction.CategoriesKeepEmptyLabels | js/storeRecall.js:18-20 | a heading of only white space yields an empty label, which is kept |
| Extraction.CategoryUrl | js/storeRecall.js:80 | the URL is the prefix `https://oscaudio.gumroad.com/#/` followed by exactly the lower-cased label, so no ASCII capital follows the prefix |
| Extraction.RequestTarget | js/storeRecall.js:82 | what `fetch` sends for a URL: the longest prefix without `#`, which stops at the first `#` or runs to the end |
| Extraction.CategoryRequestIsStoreRoot | js/storeRecall.js:80-82 | without its fragment, the category URL is the store root `https://oscaudio.gumroad.com/` for every label |
| Dedup.Kept | js/storeRecall.js:135-142 | the forEach filter as a function: the result is no longer than the input and holds only loaded products; the lemmas below state which ones |
| Dedup.KeptIsSubsequence | js/storeRecall.js:135-142 | the rendered products are the loaded ones with some removed, in the same order |
| Dedup.KeptIdsFresh | js/storeRecall.js:137-139 | no rendered product has an id seen before the load |
| Dedup.KeptIdsDistinct | js/storeRecall.js:137-142 | no two rendered products share an id, null included |
| Dedup.KeptIdsComplete | js/storeRecall.js:135-142 | the rendered ids are exactly the loaded ids not seen before |
| Dedup.KeptFirstOccurrence | js/storeRecall.js:135-142 | the first product with a given unseen id is the one rendered |
| Dedup.FirstFresh | js/storeRecall.js:135-142 | an index-based reference for the filter, built one index at a time from the back: the product at index `i` is kept exactly when its id is neither seen nor carried by an earlier product; never longer than the load |
| Dedup.KeptAppend | js/storeRecall.js:135-142 | a product appended to a load is rendered, after the others, exactly when its id is neither seen nor carried by an earlier product; the earlier products render as before |
| Dedup.KeptIsFirstFresh | js/storeRecall.js:135-142 | the filter equals the index-based reference, so each rendered product sits in the position of its first occurrence, in load order |
| Dedup.RepeatKeepsFirstPosition | js/storeRecall.js:135-142 | a card listed as `[A, B, A]`, with B of another id, renders as `[A, B]`, not `[B, A]` |
| Dedup.AllSeenRendersNothing | js/storeRecall.js:137-139 | a load whose ids were all seen before renders nothing |
| Dedup.LaterLoadSkipsEarlierIds | js/storeRecall.js:125-142 | since the set is never cleared, a later load never renders an id that an earlier load rendered |
| Dedup.RepeatedPageRendersNothing | js/storeRecall.js:80-82 | loading the same fetched page a second time renders nothing |
| Dedup.KeptOfTwo | js/storeRecall.js:135-142 | from an empty set, two products with the same id render as the first one only, and with different ids render as both |
| Dedup.AnchorlessCardsRenderOnce | js/storeRecall.js:137-142 | of two cards without an anchor, only the first is rendered, because both have the null id |
| Dedup.ListedCardsShareId | js/storeRecall.js:112 | `.../l/x1` and `.../l/x1?dup=1` have the same id `x1` |
| Dedup.DuplicateIdRenderedOnce | js/storeRecall.js:135-142 | two cards that link to the same id render as one card, the first, "Kick Pack" at "$9" |
| Dedup.IdsAppend | js/storeRecall.js:142 | adding a product adds exactly its id to the set of ids |
| Dedup.KeptStep | js/storeRecall.js:137-142 | one step of the forEach: a seen id is skipped; an unseen one is kept and joins the set |
| Dedup.DisplaySession.constructor | js/storeRecall.js:125 | the session starts with no id seen |
| Dedup.DisplaySession.LoadProducts | js/storeRecall.js:128-165 | the row shows the "No products" message exactly when extraction found no products; otherwise it shows the products that survive the filter; the seen set grows by every loaded id |
| Dedup.DisplaySession.Screen | js/storeRecall.js:135-160 | the loop renders exactly `Kept(old seen, products)` and leaves the seen set as the old set plus every id loaded |
| Menu.OnlyAt | js/storeRecall.js:196-200 | `n` flags where only the one at `k` is raised |
| Menu.CountRaised | js/storeRecall.js:200 | the number of selected items is at most the number of items, and is zero exactly when no flag is raised |
| Menu.OnlyAtRaisesOne | js/storeRecall.js:196-200 | a menu whose selection is at item `k` has exactly one selected item when item `k` exists, and none otherwise |
| Menu.CategoryMenu.constructor | js/storeRecall.js:170 | the menu starts with no item, no placeholder and a fresh, empty flag array |
| Menu.CategoryMenu.Populate | js/storeRecall.js:173-189 | one item per category, in order, in a fresh flag array; only the first is selected; it is the one loaded; the "No categories found" placeholder shows exactly when there is no category; at most one item is selected |
| Menu.CategoryMenu.Click | js/storeRecall.js:191-204 | a click on anchor `k` leaves item `k` as the only selected item and loads its label; a click elsewhere changes nothing and loads nothing |
| Menu.ClickAfterPopulate | js/storeRecall.js:168-204 | after the menu is filled from the categories, a click on the anchor of item `k` leaves exactly one selected item, item `k`, and loads its label |

## Left out

- Network fetches, `response.ok` and `DOMParser`: a fetch is a parameter, and `None` stands for every failure that `.catch` turns into `[]` or `null`.
- CSS selector matching: a card is given as the results of its four queries (`a`, `img`, `h3`, `.price`), and a product page as the results of its four queries.
- URL resolution: `href` and `src` read as absolute URLs in the browser. The model uses the strings as given.
- Rendering: the HTML built for each product card and the `alt`/style attributes of its image are not modelled. So are the unescaped interpolation of names, links and labels into HTML, and the `title` and `data-category` attributes. `Row` records only which products are shown, or the message.
- Dedup.DisplaySession.LoadProducts: `productRow.innerHTML = ""` runs before the fetch. The model does not capture two overlapping loads whose responses arrive in either order; it treats each load as atomic.
- Menu.CategoryMenu.Click: the clicked anchor is given as an index, and its `data-category` is assumed to equal its label. A label containing `"` would be cut short in the attribute, and that is not modelled.
- Menu.CategoryMenu: the static menu items that the page holds before `loadCategories` replaces them are not modelled. The menu starts empty.
- Text.ToLower: lower-cases only ASCII letters. `String.prototype.toLowerCase` also maps non-ASCII letters, and the model does not.
- Text.Trim: white space is the ECMAScript WhiteSpace and LineTerminator set with the Unicode space separators written out; a later Unicode version that adds a space separator is not followed.
- Logging to `console` is left out.
- The relay `server.js` is not part of this model.
