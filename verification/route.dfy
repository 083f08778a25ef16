/**
 * The POST handler of app/api/generate-subset/route.ts, from the list of
 * sitemap locations to the response: the URLs are grouped in a dictionary
 * filled in place, then each group is cut and appended to the output array.
 *
 * The platform's URL parser (`new URL(url).pathname`) is the parameter
 * `pathname`; it yields None where the parser would throw, which fails the
 * whole request.
 */
module GenerateSubsetRoute {
  import opened Wrappers
  import Classifier
  import opened SubsetBuilder

  /**
   * The dictionary `groupedUrls` with its keys in insertion order. JavaScript's
   * `Object.entries` would list integer-like keys (such as "2023") first, in
   * ascending order; `order` keeps plain first-seen order instead.
   */
  datatype Grouping = Grouping(order: seq<string>, groups: map<string, seq<string>>)

  /**
   * The handler's reply: the counts it reports and the locations written to
   * the new sitemap, or the catch-all failure (HTTP 500).
   */
  datatype Response =
    | Success(totalUrls: nat, subsetSize: nat, sitemap: seq<string>)
    | Failure

  /**
   * The content type the handler gives a URL. A URL the parser rejects never
   * gets a label: `GroupByContentType` fails before asking for it, so the
   * "other" in that branch only makes the function total and never reaches
   * a grouping.
   */
  function ContentTypeOf(pathname: string -> Option<string>): string -> string {
    u => match pathname(u)
         case Some(p) => Classifier.DetermineContentType(p)
         case None => "other"
  }

  /** A URL the parser accepts is labelled by the classifier, from its pathname. */
  lemma LabelOfParsedUrl(pathname: string -> Option<string>, u: string)
    requires pathname(u).Some?
    ensures ContentTypeOf(pathname)(u) == Classifier.DetermineContentType(pathname(u).value)
  {
  }

  predicate AllParse(pathname: string -> Option<string>, urls: seq<string>) {
    forall i :: 0 <= i < |urls| ==> pathname(urls[i]).Some?
  }

  lemma AllParseStep(pathname: string -> Option<string>, urls: seq<string>, i: nat)
    requires i < |urls| && AllParse(pathname, urls[..i]) && pathname(urls[i]).Some?
    ensures AllParse(pathname, urls[..i + 1])
  {
    assert forall j :: 0 <= j < i ==> urls[..i + 1][j] == urls[..i][j];
  }

  /**
   * The `urls.forEach` loop: push each URL onto the array of its content
   * type, creating the array the first time the type is seen.
   */
  method GroupByContentType(pathname: string -> Option<string>, urls: seq<string>) returns (r: Option<Grouping>)
    ensures r.None? <==> !AllParse(pathname, urls)
    ensures r.Some? ==> r.value.order == KeyOrder(ContentTypeOf(pathname), urls)
    ensures r.Some? ==> r.value.groups == Grouped(ContentTypeOf(pathname), urls)
  {
    ghost var ct := ContentTypeOf(pathname);
    var order: seq<string> := [];
    var groups: map<string, seq<string>> := map[];
    var i := 0;
    while i < |urls|
      invariant 0 <= i <= |urls|
      invariant AllParse(pathname, urls[..i])
      invariant GroupedUpTo(ct, urls, i, order, groups)
    {
      var p := pathname(urls[i]);
      if p.None? {
        return None;
      }
      var contentType := Classifier.DetermineContentType(p.value);
      assert contentType == ct(urls[i]) by {
        LabelOfParsedUrl(pathname, urls[i]);
      }
      PushStep(ct, urls, i, order, groups);
      AllParseStep(pathname, urls, i);
      if contentType !in groups {
        groups := groups[contentType := []];
        order := order + [contentType];
      }
      groups := groups[contentType := groups[contentType] + [urls[i]]];
      i := i + 1;
    }
    GroupedAtEnd(ct, urls, order, groups);
    assert urls[..i] == urls;
    return Some(Grouping(order, groups));
  }

  /**
   * The `Object.entries(groupedUrls).forEach` loop: each group, in key order,
   * cut with `slice(0, subsetSize)` and pushed onto `subsetUrls`.
   */
  method TakeSubsets(order: seq<string>, groups: map<string, seq<string>>, subsetSize: int)
    returns (subsetUrls: seq<string>)
    requires forall k :: k in order ==> k in groups
    ensures subsetUrls == TakeEach(order, groups, subsetSize)
  {
    subsetUrls := [];
    var j := 0;
    while j < |order|
      invariant 0 <= j <= |order|
      invariant subsetUrls == TakeEach(order[..j], groups, subsetSize)
    {
      var groupUrls := groups[order[j]];
      var groupSubset := groupUrls[..Kept(|groupUrls|, subsetSize)];
      subsetUrls := subsetUrls + groupSubset;
      assert order[..j + 1][..j] == order[..j];
      j := j + 1;
    }
    assert order[..j] == order;
  }

  /**
   * The handler from the extracted sitemap locations to its reply: any URL
   * the parser rejects fails the request; otherwise it reports the input
   * count and the subset, whose size is bounded by the input length and
   * by `subsetSize` for each content type.
   */
  method GenerateSubset(pathname: string -> Option<string>, urls: seq<string>, subsetSize: int)
    returns (r: Response)
    ensures r.Failure? <==> !AllParse(pathname, urls)
    ensures r.Success? ==> r.sitemap == Subset(ContentTypeOf(pathname), urls, subsetSize)
    ensures r.Success? ==> r.totalUrls == |urls| && r.subsetSize == |r.sitemap|
    ensures r.Success? ==> r.subsetSize <= r.totalUrls
    ensures r.Success? && subsetSize >= 0 ==>
              r.subsetSize <= subsetSize * |KeyOrder(ContentTypeOf(pathname), urls)|
    ensures r.Success? && subsetSize >= 0 ==>
              forall k :: |GroupOf(ContentTypeOf(pathname), r.sitemap, k)| <= subsetSize
    ensures r.Success? ==> multiset(r.sitemap) <= multiset(urls)
    ensures urls == [] ==> r == Success(0, 0, [])
  {
    var grouping := GroupByContentType(pathname, urls);
    if grouping.None? {
      return Failure;
    }
    var subsetUrls := TakeSubsets(grouping.value.order, grouping.value.groups, subsetSize);
    SubsetBounds(ContentTypeOf(pathname), urls, subsetSize);
    return Success(|urls|, |subsetUrls|, subsetUrls);
  }

}
