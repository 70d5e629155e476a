# Wardow brands spider, modelled in Dafny

This project models the Scrapy spider `BrandsspiderSpider` (spider name
`BrandsSpider`). The spider walks the brand list of wardow.com. From the brands
page it follows every brand link, then every product tile of every listing page
(following the pagination), then every colour variant of every product. From
each colour-specific product page it builds one product record. That record
holds the brand, the name, the URL, the images, the colour, the tags, the prices
and the cleaned description and SKU texts. The description table is merged over
these fields at the end.

The model has five modules:

- `Wrappers`: `Option` and Python truthiness (`Truthy`) of an optional string.
- `Text`: `_clean_strings` and the Python string operations it is built from.
  These are `str.isspace`/`\s`, `strip`, `re.sub(r'[\s:]+', ' ', _)`,
  `split(' ')` and `' '.join`. `Tokens` is an independent reference: the maximal
  runs of characters that are neither whitespace nor a colon. The main theorem
  says that cleaning a fragment gives exactly those runs joined by single spaces.
  Shape, emptiness, idempotence and content preservation follow from it.
- `Price`: `_clean_price_string` up to the string handed to `float`, and
  `_parse_price_data` with its two branches.
- `Product`: `extract_product_data`. It models the fixed fields, the zipped
  description table and the `dict.update` merge.
- `Crawl`: the three generator callbacks `parse`, `parse_brand` and
  `parse_product`. Each is a method whose loop appends the yielded directives to
  a sequence, in yield order. A directive is a request (URL, callback,
  `brand_name` meta) or a finished record.

Selector results (`.get()` gives `Option<string>`, `.getall()` gives
`seq<string>`), `response.url` and `response.meta["brand_name"]` are parameters.
So is `response.urljoin`, passed as a function.

Where the code differs from what its own comments or a reader would expect, the model follows the code:

- Price `"3.384,30"`. The comment beside the comma-only branch expects
  `3384.30`. But that text holds both a dot and a comma, so the first branch runs
  and only the comma is deleted. The model gives `"3.38430"`
  (`Price.CleanPriceDotThenComma`).
- A fragment made of colons and whitespace with at least one colon (`":"`). It
  is not blank, so it is kept, as the empty string (`Text.ColonFragmentKeptEmpty`).
- Missing selector values. The code does not skip them; it raises
  (`None.strip()`, `response.follow(None)`, `[][0]`, `[][-1]`, `re.sub` on
  `None`). The model states each such case as a
  precondition of the operation that would raise.

## Model

| member | source | states |
|---|---|---|
| Text.Strip | WardowScraping/WardowScraper/WardowScraper/spiders/BrandsSpider.py:198 | the stripped text is empty or has no whitespace at either end, and it is empty exactly when the text is all whitespace |
| Text.TrimStartIsSuffix | WardowScraping/WardowScraper/WardowScraper/spiders/BrandsSpider.py:196 | the leading half of `strip` returns the suffix of the text left after its leading whitespace |
| Text.TrimEndIsPrefix | WardowScraping/WardowScraper/WardowScraper/spiders/BrandsSpider.py:196 | the trailing half of `strip` returns the prefix of the text before its trailing whitespace |
| Text.SplitOnSpace | WardowScraping/WardowScraper/WardowScraper/spiders/BrandsSpider.py:196 | `split(' ')` gives at least one piece, no piece holds a space, and joining the pieces with spaces gives the text back |
| Text.CleanTextIsJoinedTokens | WardowScraping/WardowScraper/WardowScraper/spiders/BrandsSpider.py:196 | cleaning a fragment returns its maximal runs of non-whitespace, non-colon characters joined by single spaces |
| Text.CleanTextShape | WardowScraping/WardowScraper/WardowScraper/spiders/BrandsSpider.py:196 | a cleaned fragment has no colon, no whitespace but single interior spaces, and no space at either end |
| Text.CleanTextEmptyIff | WardowScraping/WardowScraper/WardowScraper/spiders/BrandsSpider.py:196 | a fragment cleans to the empty string exactly when it holds only whitespace and colons |
| Text.TokensOfJoinedWords | WardowScraping/WardowScraper/WardowScraper/spiders/BrandsSpider.py:196 | round trip: the words of non-empty separator-free words joined by spaces are those words |
| Text.CleanTextIdempotent | WardowScraping/WardowScraper/WardowScraper/spiders/BrandsSpider.py:196 | cleaning a cleaned fragment changes nothing |
| Text.CleanTextKeepsLetters | WardowScraping/WardowScraper/WardowScraper/spiders/BrandsSpider.py:196 | cleaning keeps every character that is neither whitespace nor a colon, in order, and adds none |
| Text.CleanStringsLength | WardowScraping/WardowScraper/WardowScraper/spiders/BrandsSpider.py:195-199 | `_clean_strings` returns one entry per fragment that is not blank after `strip` |
| Text.CleanStringsAt | WardowScraping/WardowScraper/WardowScraper/spiders/BrandsSpider.py:195-199 | order is kept: the non-blank fragment at index j becomes the entry whose index is the number of non-blank fragments before j, and that entry is its cleaned text |
| Text.CleanStringsShape | WardowScraping/WardowScraper/WardowScraper/spiders/BrandsSpider.py:195-199 | every entry of `_clean_strings` has the cleaned shape |
| Text.CountNonBlankTrailingBlanks | WardowScraping/WardowScraper/WardowScraper/spiders/BrandsSpider.py:198 | when only blank fragments follow index j, the non-blank fragments are those before j plus the one at j |
| Text.ColonFragmentKeptEmpty | WardowScraping/WardowScraper/WardowScraper/spiders/BrandsSpider.py:195-199 | a non-blank fragment made of colons and whitespace (so with at least one colon) is kept, as the empty string |
| Price.KeepPriceChars | WardowScraping/WardowScraper/WardowScraper/spiders/BrandsSpider.py:239 | the filter keeps only digits, commas, dots and minus signs and never lengthens the text |
| Price.KeepPriceCharsHas | WardowScraping/WardowScraper/WardowScraper/spiders/BrandsSpider.py:239 | a price character occurs after the filter exactly when it occurs before |
| Price.CleanPriceReference | WardowScraping/WardowScraper/WardowScraper/spiders/BrandsSpider.py:239-247 | the normalised price equals an independent definition: with a comma and no dot, commas become dots; otherwise commas are dropped; digits, dots and minus signs are kept in order |
| Price.CommaOnlyDotDeletionIsNoOp | WardowScraping/WardowScraper/WardowScraper/spiders/BrandsSpider.py:245-247 | in the comma-only branch the deletion of dots deletes nothing, so the result is the filtered text with commas turned into dots |
| Price.CleanPriceChars | WardowScraping/WardowScraper/WardowScraper/spiders/BrandsSpider.py:239-247 | a normalised price holds only digits, dots and minus signs, never a comma |
| Price.CleanPriceIdempotent | WardowScraping/WardowScraper/WardowScraper/spiders/BrandsSpider.py:239-247 | normalising a normalised price changes nothing |
| Price.CleanPriceKeepsDigits | WardowScraping/WardowScraper/WardowScraper/spiders/BrandsSpider.py:239-247 | normalisation never loses, adds or reorders a digit or minus sign |
| Price.CleanPriceThousandsComma | WardowScraping/WardowScraper/WardowScraper/spiders/BrandsSpider.py:243-244 | "1,234.56" normalises to "1234.56" |
| Price.CleanPriceDotThenComma | WardowScraping/WardowScraper/WardowScraper/spiders/BrandsSpider.py:243-247 | "3.384,30" takes the dot-and-comma branch and normalises to "3.38430" |
| Price.CleanPriceDecimalComma | WardowScraping/WardowScraper/WardowScraper/spiders/BrandsSpider.py:245-247 | "€29,99" normalises to "29.99" |
| Price.ParsePriceData | WardowScraping/WardowScraper/WardowScraper/spiders/BrandsSpider.py:211-230 | the currency is always the currency meta; old price and discount are the integer 0 exactly when the old-price text is falsy; otherwise they and the new price are the normalised old, special and sale texts; without a discount the new price is the normalised regular price |
| Product.ZipToMapKeys | WardowScraping/WardowScraper/WardowScraper/spiders/BrandsSpider.py:150 | a key is in the zipped dictionary exactly when it is paired with a value; keys or values beyond the shorter list are dropped |
| Product.ZipToMapValue | WardowScraping/WardowScraper/WardowScraper/spiders/BrandsSpider.py:150 | a key maps to the value paired with its last occurrence, so a later duplicate key wins |
| Product.GeneralKeysClean | WardowScraping/WardowScraper/WardowScraper/spiders/BrandsSpider.py:144-150 | every key of the description table is a cleaned fragment |
| Product.WebCodeIsLastNonBlank | WardowScraping/WardowScraper/WardowScraper/spiders/BrandsSpider.py:156-157 | the web code is the cleaned form of the last SKU text that is not blank |
| Product.FixedFields | WardowScraping/WardowScraper/WardowScraper/spiders/BrandsSpider.py:162-178 | the record written before the merge has exactly the fifteen fixed keys |
| Product.UpdatedWithUnique | WardowScraping/WardowScraper/WardowScraper/spiders/BrandsSpider.py:180 | the result of `dict.update` is determined by the two dictionaries |
| Product.MergedRecordFields | WardowScraping/WardowScraper/WardowScraper/spiders/BrandsSpider.py:162-180 | the merged record keeps every fixed key; a colliding description key replaces the web code, otherwise the web code and the image count keep the spider's values |
| Product.ExtractProductData | WardowScraping/WardowScraper/WardowScraper/spiders/BrandsSpider.py:108-183 | the record is the fixed fields updated with the description table: its keys are the union, description entries win, every other fixed field is kept |
| Crawl.FollowGroup | WardowScraping/WardowScraper/WardowScraper/spiders/BrandsSpider.py:30-38 | the requests of one brand group are those its specification function lists, entry by entry |
| Crawl.GroupRequestsLength | WardowScraping/WardowScraper/WardowScraper/spiders/BrandsSpider.py:30-38 | a brand group yields exactly one request per entry |
| Crawl.GroupRequestsAt | WardowScraping/WardowScraper/WardowScraper/spiders/BrandsSpider.py:30-38 | entry j of a group yields the group's j-th request: a request to `parse_brand` for the link URL, with the stripped link text as brand name |
| Crawl.BrandRequestsLength | WardowScraping/WardowScraper/WardowScraper/spiders/BrandsSpider.py:24-38 | the brands page yields exactly one request per brand entry over all groups |
| Crawl.BrandRequestsAt | WardowScraping/WardowScraper/WardowScraper/spiders/BrandsSpider.py:24-38 | document order: entry j of group i yields request number (entries in the groups before i) + j |
| Crawl.Parse | WardowScraping/WardowScraper/WardowScraper/spiders/BrandsSpider.py:12-38 | one request per brand entry in document order: entry j of group i is request number (entries before group i) + j, to `parse_brand`, with its URL and stripped text as brand name |
| Crawl.ParseBrand | WardowScraping/WardowScraper/WardowScraper/spiders/BrandsSpider.py:54-75 | one request per product tile, in order, to `parse_product`; then one request for the joined next-page URL back to `parse_brand` exactly when the next-page value is truthy; every request carries the incoming brand name |
| Crawl.ParseProduct | WardowScraping/WardowScraper/WardowScraper/spiders/BrandsSpider.py:90-105 | one directive per colour entry, in order: an entry without a link yields this page's extracted record, an entry with a link yields a request to `extract_product_data` with the brand name; the number of records equals the number of unlinked entries |

## Left out

- The final `float(cleaned)` of `_clean_price_string` (line 249) is not modelled. Prices are the normalised strings handed to `float`. The `ValueError` that `float` raises on an empty or malformed string (for example `"-"` or `"1.2.3"`) is not modelled.
- Price.IsDigit: `\d` in a `str` pattern also matches non-ASCII decimal digits. The model keeps only the ASCII digits `0`-`9`.
- Scrapy itself (scheduling, de-duplication of requests, `allowed_domains`, `start_urls`, the HTTP fetch, CSS selector evaluation) is not part of this model. Selector results are parameters.
- `response.urljoin` is a function parameter of `Crawl.ParseBrand`; URL resolution is not modelled. `response.follow` is modelled by the URL it is given, not by how it resolves it.
- Crawl.Parse, Crawl.ParseBrand, Crawl.ParseProduct, Product.ExtractProductData: the inputs that make the source raise are preconditions. These are a missing link text or href, a missing product link, an empty image list, a missing price text in the chosen branch, and SKU texts that are all blank. A generator that raises part-way has already yielded its earlier directives; that partial output is not modelled.
- Product.ExtractProductData: a Python dict keeps insertion order; a `Record` is a `map` and the key order is not modelled.
- The `from locale import currency` import on line 1 is never used and is not modelled.
