/**
 * The three parse callbacks of the spider (`parse`, `parse_brand`,
 * `parse_product`). Each is a generator that yields directives one by one;
 * here each is a method whose loop appends those directives, in the same
 * order, to the sequence it returns. The selector results they read are
 * parameters, and so is the response's `urljoin`.
 */
module Crawl {
  import opened Wrappers
  import opened Text
  import opened Product

  /** The spider method a follow-up request is handed to. */
  datatype Callback = CallParseBrand | CallParseProduct | CallExtractProductData

  /** What a callback yields: a request to fetch (with `meta={"brand_name": ...}`) or a finished record. */
  datatype Directive =
    | Fetch(url: string, callback: Callback, brandName: string)
    | Emit(record: Record)

  // ---------------------------------------------------------------------------
  // parse: the brands page
  // ---------------------------------------------------------------------------

  /** One `li` of a brand group: what `a::text` and `a::attr(href)` returned. */
  datatype BrandLink = BrandLink(text: Option<string>, href: Option<string>)

  /** The entry can be followed: `.strip()` needs a text, `response.follow` needs a URL. */
  predicate Followable(link: BrandLink) {
    link.text.Some? && link.href.Some?
  }

  /** The request `parse` yields for one brand entry. */
  function FollowBrand(link: BrandLink): (d: Directive)
    requires Followable(link)
  {
    Fetch(link.href.value, CallParseBrand, Strip(link.text.value))
  }

  /** Every brand entry of every group can be followed. */
  predicate AllFollowable(groups: seq<seq<BrandLink>>) {
    forall i, j | 0 <= i < |groups| && 0 <= j < |groups[i]| :: Followable(groups[i][j])
  }

  /** The number of brand entries in all groups. */
  function Total(groups: seq<seq<BrandLink>>): nat
  {
    if groups == [] then 0 else Total(groups[..|groups| - 1]) + |groups[|groups| - 1]|
  }

  /** Specification of one group: its requests, in order. */
  function GroupRequests(group: seq<BrandLink>): seq<Directive>
    requires forall j | 0 <= j < |group| :: Followable(group[j])
  {
    if group == [] then []
    else GroupRequests(group[..|group| - 1]) + [FollowBrand(group[|group| - 1])]
  }

  /** Specification of `parse`: the requests of the groups, group after group. */
  function BrandRequests(groups: seq<seq<BrandLink>>): seq<Directive>
    requires AllFollowable(groups)
  {
    if groups == [] then []
    else BrandRequests(groups[..|groups| - 1]) + GroupRequests(groups[|groups| - 1])
  }

  lemma {:induction false} GroupRequestsLength(group: seq<BrandLink>)
    requires forall j | 0 <= j < |group| :: Followable(group[j])
    ensures |GroupRequests(group)| == |group|
    decreases |group|
  {
    if group != [] {
      GroupRequestsLength(group[..|group| - 1]);
    }
  }

  /** Entry `j` of a group yields the group's `j`-th request. */
  lemma {:induction false} GroupRequestsAt(group: seq<BrandLink>, j: nat)
    requires forall j' | 0 <= j' < |group| :: Followable(group[j'])
    requires j < |group|
    ensures j < |GroupRequests(group)| && GroupRequests(group)[j] == FollowBrand(group[j])
    decreases |group|
  {
    var p := group[..|group| - 1];
    GroupRequestsLength(group);
    if j < |p| {
      GroupRequestsAt(p, j);
    } else {
      GroupRequestsLength(p);
    }
  }

  /** `parse` yields one request per brand entry. */
  lemma {:induction false} BrandRequestsLength(groups: seq<seq<BrandLink>>)
    requires AllFollowable(groups)
    ensures |BrandRequests(groups)| == Total(groups)
    decreases |groups|
  {
    if groups != [] {
      BrandRequestsLength(groups[..|groups| - 1]);
      GroupRequestsLength(groups[|groups| - 1]);
    }
  }

  /**
   * Document order: entry `j` of group `i` yields the request whose index is the
   * number of entries in the groups before `i`, plus `j`.
   */
  lemma {:induction false} BrandRequestsAt(groups: seq<seq<BrandLink>>, i: nat, j: nat)
    requires AllFollowable(groups)
    requires i < |groups| && j < |groups[i]|
    ensures Total(groups[..i]) + j < |BrandRequests(groups)|
    ensures BrandRequests(groups)[Total(groups[..i]) + j] == FollowBrand(groups[i][j])
    decreases |groups|
  {
    var n := |groups|;
    var p := groups[..n - 1];
    var last := groups[n - 1];
    assert BrandRequests(groups) == BrandRequests(p) + GroupRequests(last);
    BrandRequestsLength(p);
    GroupRequestsLength(last);
    if i < n - 1 {
      BrandRequestsAt(p, i, j);
      assert p[..i] == groups[..i];
    } else {
      assert p == groups[..i];
      GroupRequestsAt(last, j);
    }
  }

  /** The requests for one brand group, in order. */
  method FollowGroup(group: seq<BrandLink>) returns (part: seq<Directive>)
    requires forall j | 0 <= j < |group| :: Followable(group[j])
    ensures part == GroupRequests(group)
  {
    part := [];
    for j := 0 to |group|
      invariant part == GroupRequests(group[..j])
    {
      assert group[..j + 1][..j] == group[..j];
      part := part + [FollowBrand(group[j])];
    }
    assert group[..|group|] == group;
  }

  /**
   * `parse`: one request per brand entry, in document order (group by group,
   * entry by entry), to `parse_brand` with the stripped link text as brand name.
   */
  method Parse(groups: seq<seq<BrandLink>>) returns (out: seq<Directive>)
    requires AllFollowable(groups)
    ensures out == BrandRequests(groups)
    ensures |out| == Total(groups)
    ensures forall i, j | 0 <= i < |groups| && 0 <= j < |groups[i]| ::
      Total(groups[..i]) + j < |out| && out[Total(groups[..i]) + j] == FollowBrand(groups[i][j])
  {
    out := [];
    for i := 0 to |groups|
      invariant out == BrandRequests(groups[..i])
    {
      var part := FollowGroup(groups[i]);
      assert groups[..i + 1][..i] == groups[..i];
      out := out + part;
    }
    assert groups[..|groups|] == groups;
    BrandRequestsLength(groups);
    forall i, j | 0 <= i < |groups| && 0 <= j < |groups[i]|
      ensures Total(groups[..i]) + j < |out| && out[Total(groups[..i]) + j] == FollowBrand(groups[i][j])
    {
      BrandRequestsAt(groups, i, j);
    }
  }

  // ---------------------------------------------------------------------------
  // parse_brand: one page of a brand's product listing
  // ---------------------------------------------------------------------------

  /**
   * `parse_brand`: one request per product tile, in order, to `parse_product`;
   * then, exactly when the next-page value is neither missing nor empty, one
   * request for the joined next-page URL back to `parse_brand`. Every request
   * carries the incoming brand name.
   */
  method ParseBrand(brandName: string, productHrefs: seq<Option<string>>, nextPage: Option<string>,
                    urljoin: string -> string)
    returns (out: seq<Directive>)
    requires forall i | 0 <= i < |productHrefs| :: productHrefs[i].Some?
    ensures |out| == |productHrefs| + (if Truthy(nextPage) then 1 else 0)
    ensures forall i | 0 <= i < |productHrefs| ::
      out[i] == Fetch(productHrefs[i].value, CallParseProduct, brandName)
    ensures Truthy(nextPage) ==> out[|productHrefs|] == Fetch(urljoin(nextPage.value), CallParseBrand, brandName)
    ensures forall k | 0 <= k < |out| :: out[k].Fetch? && out[k].brandName == brandName
  {
    out := [];
    for i := 0 to |productHrefs|
      invariant |out| == i
      invariant forall i' | 0 <= i' < i :: out[i'] == Fetch(productHrefs[i'].value, CallParseProduct, brandName)
    {
      out := out + [Fetch(productHrefs[i].value, CallParseProduct, brandName)];
    }
    if Truthy(nextPage) {
      out := out + [Fetch(urljoin(nextPage.value), CallParseBrand, brandName)];
    }
  }

  // ---------------------------------------------------------------------------
  // parse_product: the colours of one product
  // ---------------------------------------------------------------------------

  /** The number of colour entries without a link. */
  function CountUnlinked(hrefs: seq<Option<string>>): nat
  {
    if hrefs == [] then 0
    else CountUnlinked(hrefs[..|hrefs| - 1]) + (if hrefs[|hrefs| - 1].None? then 1 else 0)
  }

  /** The number of finished records among the directives. */
  function CountEmitted(out: seq<Directive>): nat
  {
    if out == [] then 0
    else CountEmitted(out[..|out| - 1]) + (if out[|out| - 1].Emit? then 1 else 0)
  }

  /**
   * The directive `parse_product` yields for one colour entry: a request for
   * its link, or, for the entry without a link, the record of this page.
   */
  predicate AnswersColor(page: ProductPage, href: Option<string>, d: Directive) {
    if href.Some? then d == Fetch(href.value, CallExtractProductData, page.brandName)
    else Extractable(page) && d.Emit? && UpdatedWith(d.record, FixedFields(page), GeneralMap(page))
  }

  /**
   * `parse_product`: one directive per colour entry, in order. An entry without
   * a link is the colour shown on this page and yields the record extracted from
   * it; an entry with a link, even an empty one, yields a request for that link
   * to `extract_product_data`, carrying the brand name.
   */
  method ParseProduct(page: ProductPage) returns (out: seq<Directive>)
    requires None in page.colorHrefs ==> Extractable(page)
    ensures |out| == |page.colorHrefs|
    ensures forall i | 0 <= i < |out| :: AnswersColor(page, page.colorHrefs[i], out[i])
    ensures CountEmitted(out) == CountUnlinked(page.colorHrefs)
  {
    var hrefs := page.colorHrefs;
    out := [];
    for i := 0 to |hrefs|
      invariant |out| == i
      invariant forall i' | 0 <= i' < i :: AnswersColor(page, hrefs[i'], out[i'])
      invariant CountEmitted(out) == CountUnlinked(hrefs[..i])
    {
      var d: Directive;
      if hrefs[i].None? {
        var record := ExtractProductData(page);
        d := Emit(record);
      } else {
        d := Fetch(hrefs[i].value, CallExtractProductData, page.brandName);
      }
      assert AnswersColor(page, hrefs[i], d);
      assert (out + [d])[..i] == out;
      assert hrefs[..i + 1][..i] == hrefs[..i];
      out := out + [d];
    }
    assert hrefs[..|hrefs|] == hrefs;
  }
}
