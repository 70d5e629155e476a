/**
 * Record assembly of the spider (`extract_product_data`): the fields read from
 * one colour-specific product page, the description table zipped into a
 * dictionary, and that dictionary merged over the fixed fields.
 */
module Product {
  import opened Wrappers
  import opened Text
  import opened Price

  /** A value stored in a product record. */
  datatype Value =
    | Null                     // a `.get()` that found nothing
    | Str(s: string)
    | Int(n: int)
    | Num(text: string)        // a float, given by the normalised string `float` parses
    | List(items: seq<string>)

  /** A product record: field name to value (the order of a Python dict's keys is not modelled). */
  type Record = map<string, Value>

  /** What the selectors of one product page returned, with the page's URL and the carried brand name. */
  datatype ProductPage = ProductPage(
    url: string,                       // response.url
    brandName: string,                 // response.meta["brand_name"]
    images: seq<string>,               // img.gallery-image::attr(src)
    name: Option<string>,              // span.product-name::text
    color: Option<string>,             // div.colors p.headline span::text
    price: PriceBlock,                 // under div.price-info
    detailTexts: seq<string>,          // div.description-details li::text
    insideTexts: seq<string>,          // div.description-inside li::text
    generalKeyTexts: seq<string>,      // div.description-general li strong::text
    generalValueTexts: seq<string>,    // div.description-general li:not([class])::text
    skuCode: Option<string>,           // li.sku span[itemprop="sku"]::text
    skuTexts: seq<string>,             // li.sku::text
    tags: seq<string>,                 // div.more-links ul li a::text
    colorHrefs: seq<Option<string>>)   // div.product-shop div.colors ul li, then a::attr(href)

  /** The fixed keys of a record, in the order the spider writes them. */
  const FixedKeys: seq<string> := [
    "brand_name", "product_name", "product_url", "first_image_url", "number_of_images",
    "product_color", "product_tags", "old_price", "new_price", "discount_amount",
    "price_currency", "description_details", "description_inside", "sku_code", "web_code"]

  /** The page can be extracted without an exception: an image exists, the price texts the
      chosen branch cleans exist, and some SKU text is not blank. */
  predicate Extractable(page: ProductPage) {
    && |page.images| > 0
    && PriceBlockReadable(page.price)
    && CountNonBlank(page.skuTexts) > 0
  }

  function OptionValue(o: Option<string>): Value {
    if o.Some? then Str(o.value) else Null
  }

  function AmountValue(a: Amount): Value {
    if a.Zero? then Int(0) else Num(a.text)
  }

  function Min(a: nat, b: nat): nat {
    if a < b then a else b
  }

  /** `{key: value for key, value in zip(keys, values)}`: pairs up to the shorter length, written in order. */
  function ZipToMap(keys: seq<string>, values: seq<string>): map<string, string>
    decreases |keys|
  {
    var n := Min(|keys|, |values|);
    if n == 0 then map[]
    else ZipToMap(keys[..n - 1], values[..n - 1])[keys[n - 1] := values[n - 1]]
  }

  /** The zipped dictionary holds exactly the keys paired with a value; surplus keys or values are dropped. */
  lemma {:induction false} ZipToMapKeys(keys: seq<string>, values: seq<string>, k: string)
    ensures k in ZipToMap(keys, values) <==> exists i | 0 <= i < Min(|keys|, |values|) :: keys[i] == k
    decreases |keys|
  {
    var n := Min(|keys|, |values|);
    if n > 0 {
      var ks, vs := keys[..n - 1], values[..n - 1];
      ZipToMapKeys(ks, vs, k);
      assert Min(|ks|, |vs|) == n - 1;
      if k in ZipToMap(keys, values) && k != keys[n - 1] {
        var i :| 0 <= i < n - 1 && ks[i] == k;
        assert keys[i] == k;
      }
      if exists i | 0 <= i < n :: keys[i] == k {
        var i :| 0 <= i < n && keys[i] == k;
        if i < n - 1 {
          assert ks[i] == k;
        }
      }
    }
  }

  /** A key takes the value paired with its last occurrence: a later duplicate wins. */
  lemma {:induction false} ZipToMapValue(keys: seq<string>, values: seq<string>, i: nat)
    requires i < Min(|keys|, |values|)
    requires forall j | i < j < Min(|keys|, |values|) :: keys[j] != keys[i]
    ensures keys[i] in ZipToMap(keys, values)
    ensures ZipToMap(keys, values)[keys[i]] == values[i]
    decreases |keys|
  {
    var n := Min(|keys|, |values|);
    var ks, vs := keys[..n - 1], values[..n - 1];
    if i < n - 1 {
      assert Min(|ks|, |vs|) == n - 1;
      assert ks[i] == keys[i] && vs[i] == values[i];
      assert forall j | i < j < n - 1 :: ks[j] == keys[j];
      ZipToMapValue(ks, vs, i);
    }
  }

  /** The description table: cleaned keys zipped with cleaned values. */
  function GeneralMap(page: ProductPage): map<string, string> {
    ZipToMap(CleanStrings(page.generalKeyTexts), CleanStrings(page.generalValueTexts))
  }

  /** The last entry of `_clean_strings` over the SKU texts. */
  function WebCode(skuTexts: seq<string>): string
    requires CountNonBlank(skuTexts) > 0
  {
    CleanStringsLength(skuTexts);
    var cleaned := CleanStrings(skuTexts);
    cleaned[|cleaned| - 1]
  }

  /** The web code is the cleaned form of the last SKU text that is not blank. */
  lemma WebCodeIsLastNonBlank(skuTexts: seq<string>, j: nat)
    requires j < |skuTexts| && !IsBlank(skuTexts[j])
    requires forall i | j < i < |skuTexts| :: IsBlank(skuTexts[i])
    ensures CountNonBlank(skuTexts) > 0
    ensures WebCode(skuTexts) == CleanText(skuTexts[j])
  {
    CountNonBlankTrailingBlanks(skuTexts, j);
    CleanStringsAt(skuTexts, j);
    WebCodeAt(skuTexts, CountNonBlank(skuTexts[..j]));
  }

  /** With `k + 1` non-blank SKU texts, the web code is entry `k` of the cleaned list. */
  lemma WebCodeAt(skuTexts: seq<string>, k: nat)
    requires CountNonBlank(skuTexts) == k + 1
    ensures k < |CleanStrings(skuTexts)| && WebCode(skuTexts) == CleanStrings(skuTexts)[k]
  {
    CleanStringsLength(skuTexts);
  }

  /** Every key the description table contributes is a cleaned fragment. */
  lemma GeneralKeysClean(page: ProductPage)
    ensures forall k | k in GeneralMap(page) :: Clean(k)
  {
    var keys := CleanStrings(page.generalKeyTexts);
    var values := CleanStrings(page.generalValueTexts);
    CleanStringsShape(page.generalKeyTexts);
    forall k | k in GeneralMap(page) ensures Clean(k) {
      ZipToMapKeys(keys, values, k);
      var i :| 0 <= i < Min(|keys|, |values|) && keys[i] == k;
    }
  }

  /** The fifteen fields the spider writes before merging the description table. */
  function FixedFields(page: ProductPage): (r: Record)
    requires Extractable(page)
    ensures r.Keys == set k | k in FixedKeys
  {
    var prices := ParsePriceData(page.price);
    map[
      "brand_name" := Str(page.brandName),
      "product_name" := OptionValue(page.name),
      "product_url" := Str(page.url),
      "first_image_url" := Str(page.images[0]),
      "number_of_images" := Int(|page.images|),
      "product_color" := OptionValue(page.color),
      "product_tags" := List(page.tags),
      "old_price" := AmountValue(prices.oldPrice),
      "new_price" := Num(prices.newPrice),
      "discount_amount" := AmountValue(prices.discount),
      "price_currency" := OptionValue(prices.currency),
      "description_details" := List(CleanStrings(page.detailTexts)),
      "description_inside" := List(CleanStrings(page.insideTexts)),
      "sku_code" := OptionValue(page.skuCode),
      "web_code" := Str(WebCode(page.skuTexts))]
  }

  /** `r` is `fixed` after `fixed.update(general)`: the later writes win. */
  predicate UpdatedWith(r: Record, fixed: Record, general: map<string, string>) {
    && r.Keys == fixed.Keys + general.Keys
    && (forall k | k in general :: r[k] == Str(general[k]))
    && (forall k | k in fixed && k !in general :: r[k] == fixed[k])
  }

  /** The merge has one outcome: two records that are both `fixed` updated with `general` are equal. */
  lemma UpdatedWithUnique(r1: Record, r2: Record, fixed: Record, general: map<string, string>)
    requires UpdatedWith(r1, fixed, general) && UpdatedWith(r2, fixed, general)
    ensures r1 == r2
  {
    forall k | k in r1 ensures r1[k] == r2[k] {
      if k !in general {
        assert k in fixed;
      }
    }
  }

  /**
   * A merged record keeps every fixed key; a description entry whose key equals
   * a fixed key replaces that field, and every other fixed field keeps the value
   * the spider wrote (shown for the web code and the image count).
   */
  lemma MergedRecordFields(page: ProductPage, record: Record)
    requires Extractable(page)
    requires UpdatedWith(record, FixedFields(page), GeneralMap(page))
    ensures forall k | k in FixedKeys :: k in record
    ensures "web_code" in GeneralMap(page) ==> record["web_code"] == Str(GeneralMap(page)["web_code"])
    ensures "web_code" !in GeneralMap(page) ==> record["web_code"] == Str(WebCode(page.skuTexts))
    ensures "number_of_images" !in GeneralMap(page) ==> record["number_of_images"] == Int(|page.images|)
  {
    var fixed := FixedFields(page);
    assert fixed["web_code"] == Str(WebCode(page.skuTexts));
    assert fixed["number_of_images"] == Int(|page.images|);
  }

  /** `extract_product_data`: build the fixed fields, then update them with the description table. */
  method ExtractProductData(page: ProductPage) returns (record: Record)
    requires Extractable(page)
    ensures UpdatedWith(record, FixedFields(page), GeneralMap(page))
  {
    var general := GeneralMap(page);
    record := FixedFields(page);
    record := record + map k | k in general :: Str(general[k]);
  }
}
