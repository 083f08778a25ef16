/**
 * The reference definition of the subset builder in the POST handler of
 * app/api/generate-subset/route.ts: URLs are grouped by content type, the
 * groups keep the order in which their content type is first seen, and each
 * group is cut to its first `limit` URLs with `slice(0, limit)`.
 *
 * Everything here is generic in the labelling `ct` that gives each URL its
 * content type; the handler uses the classifier of module Classifier.
 */
module SubsetBuilder {

  // ---------------------------------------------------------------------------
  // Array.prototype.slice(0, end)
  // ---------------------------------------------------------------------------

  /**
   * How many elements `slice(0, end)` keeps of an array of length `n`: `end`
   * itself when it is in range, `n` when it is larger, and for a negative
   * `end` the length less `-end`, never below zero.
   */
  function Kept(n: nat, end: int): (k: nat)
    ensures k <= n
    ensures end >= 0 ==> k <= end && (k == n || k == end)
    ensures end < 0 ==> k >= n + end && (k == n + end || k == 0)
  {
    if end >= n then n
    else if end >= 0 then end
    else if n + end > 0 then n + end
    else 0
  }

  /** `s.slice(0, end)`: the first `Kept(|s|, end)` elements of `s`. */
  function Slice(s: seq<string>, end: int): (r: seq<string>)
    ensures r <= s && |r| == Kept(|s|, end)
  {
    s[..Kept(|s|, end)]
  }

  // ---------------------------------------------------------------------------
  // Grouping
  // ---------------------------------------------------------------------------

  /**
   * The content types of `urls` in the order in which each is first seen:
   * the key order of the handler's `groupedUrls` dictionary.
   */
  function KeyOrder(ct: string -> string, urls: seq<string>): (keys: seq<string>)
    ensures forall i, j :: 0 <= i < j < |keys| ==> keys[i] != keys[j]
    ensures forall k :: k in keys <==> exists i :: 0 <= i < |urls| && ct(urls[i]) == k
    decreases |urls|
  {
    if urls == [] then []
    else
      var init := urls[..|urls| - 1];
      var keys := KeyOrder(ct, init);
      var t := ct(urls[|urls| - 1]);
      assert forall i :: 0 <= i < |init| ==> init[i] == urls[i];
      if t in keys then keys else keys + [t]
  }

  /** The URLs of `urls` whose content type is `k`, in input order. */
  function GroupOf(ct: string -> string, urls: seq<string>, k: string): (g: seq<string>)
    ensures forall i :: 0 <= i < |g| ==> ct(g[i]) == k
    ensures |g| <= |urls|
    decreases |urls|
  {
    if urls == [] then []
    else
      var u := urls[|urls| - 1];
      GroupOf(ct, urls[..|urls| - 1], k) + (if ct(u) == k then [u] else [])
  }

  /** Seeing one more URL appends its content type unless it was seen before. */
  lemma KeyOrderStep(ct: string -> string, urls: seq<string>, i: nat)
    requires i < |urls|
    ensures KeyOrder(ct, urls[..i + 1]) ==
            if ct(urls[i]) in KeyOrder(ct, urls[..i]) then KeyOrder(ct, urls[..i])
            else KeyOrder(ct, urls[..i]) + [ct(urls[i])]
  {
    assert urls[..i + 1][..i] == urls[..i];
  }

  /** Seeing one more URL pushes it onto the group of its content type only. */
  lemma GroupOfStep(ct: string -> string, urls: seq<string>, i: nat, k: string)
    requires i < |urls|
    ensures GroupOf(ct, urls[..i + 1], k) ==
            GroupOf(ct, urls[..i], k) + (if ct(urls[i]) == k then [urls[i]] else [])
  {
    assert urls[..i + 1][..i] == urls[..i];
  }

  /** The dictionary `groupedUrls` once every URL has been pushed. */
  function Grouped(ct: string -> string, urls: seq<string>): (groups: map<string, seq<string>>)
    ensures forall k :: k in groups <==> k in KeyOrder(ct, urls)
    ensures forall k :: k in groups ==> groups[k] == GroupOf(ct, urls, k)
  {
    map k | k in KeyOrder(ct, urls) :: GroupOf(ct, urls, k)
  }

  /** The groups named by `keys`, concatenated in that order, untruncated. */
  function Flatten(keys: seq<string>, groups: map<string, seq<string>>): seq<string>
    requires forall k :: k in keys ==> k in groups
  {
    if keys == [] then []
    else Flatten(keys[..|keys| - 1], groups) + groups[keys[|keys| - 1]]
  }

  /** Each group named by `keys` cut with `slice(0, limit)`, concatenated in that order. */
  function TakeEach(keys: seq<string>, groups: map<string, seq<string>>, limit: int): seq<string>
    requires forall k :: k in keys ==> k in groups
  {
    if keys == [] then []
    else TakeEach(keys[..|keys| - 1], groups, limit) + Slice(groups[keys[|keys| - 1]], limit)
  }

  /** The sum of the group sizes that `slice(0, limit)` keeps. */
  function SumKept(keys: seq<string>, groups: map<string, seq<string>>, limit: int): nat
    requires forall k :: k in keys ==> k in groups
  {
    if keys == [] then 0
    else SumKept(keys[..|keys| - 1], groups, limit) + Kept(|groups[keys[|keys| - 1]]|, limit)
  }

  /** The URL list of the generated sitemap. */
  function Subset(ct: string -> string, urls: seq<string>, limit: int): seq<string> {
    TakeEach(KeyOrder(ct, urls), Grouped(ct, urls), limit)
  }

  /** `a` is `b` with some elements deleted. */
  predicate IsSubsequence(a: seq<string>, b: seq<string>)
    decreases |b|
  {
    a == [] ||
    (b != [] &&
      (IsSubsequence(a, b[..|b| - 1]) ||
       (a[|a| - 1] == b[|b| - 1] && IsSubsequence(a[..|a| - 1], b[..|b| - 1]))))
  }

  /**
   * The state of the grouping loop after the first `i` URLs: the keys in
   * first-seen order, and for each key its group so far.
   */
  ghost predicate GroupedUpTo(ct: string -> string, urls: seq<string>, i: nat,
                        order: seq<string>, groups: map<string, seq<string>>)
    requires i <= |urls|
  {
    && order == KeyOrder(ct, urls[..i])
    && (forall k :: k in groups <==> k in order)
    && (forall k :: k in groups ==> groups[k] == GroupOf(ct, urls[..i], k))
  }

  /**
   * One step of the grouping loop: create the group of the URL's content
   * type when it is new, then push the URL onto it.
   */
  lemma PushStep(ct: string -> string, urls: seq<string>, i: nat,
                 order: seq<string>, groups: map<string, seq<string>>)
    requires i < |urls| && GroupedUpTo(ct, urls, i, order, groups)
    ensures var t := ct(urls[i]);
            GroupedUpTo(ct, urls, i + 1,
                        if t in groups then order else order + [t],
                        groups[t := (if t in groups then groups[t] else []) + [urls[i]]])
  {
    if ct(urls[i]) in groups {
      PushSeenKey(ct, urls, i, order, groups);
    } else {
      PushNewKey(ct, urls, i, order, groups);
    }
  }

  /** A URL of a content type already seen is pushed onto its existing group. */
  lemma PushSeenKey(ct: string -> string, urls: seq<string>, i: nat,
                    order: seq<string>, groups: map<string, seq<string>>)
    requires i < |urls| && GroupedUpTo(ct, urls, i, order, groups)
    requires ct(urls[i]) in groups
    ensures GroupedUpTo(ct, urls, i + 1, order, groups[ct(urls[i]) := groups[ct(urls[i])] + [urls[i]]])
  {
    var t := ct(urls[i]);
    var groups' := groups[t := groups[t] + [urls[i]]];
    KeyOrderStep(ct, urls, i);
    forall k | k in groups' ensures groups'[k] == GroupOf(ct, urls[..i + 1], k) {
      GroupOfStep(ct, urls, i, k);
    }
  }

  /** A URL of a new content type gets a group of its own, holding just that URL. */
  lemma PushNewKey(ct: string -> string, urls: seq<string>, i: nat,
                   order: seq<string>, groups: map<string, seq<string>>)
    requires i < |urls| && GroupedUpTo(ct, urls, i, order, groups)
    requires ct(urls[i]) !in groups
    ensures GroupedUpTo(ct, urls, i + 1, order + [ct(urls[i])], groups[ct(urls[i]) := [urls[i]]])
  {
    var t := ct(urls[i]);
    var groups' := groups[t := [urls[i]]];
    KeyOrderStep(ct, urls, i);
    NewKeyHasEmptyGroup(ct, urls[..i], t);
    forall k | k in groups' ensures groups'[k] == GroupOf(ct, urls[..i + 1], k) {
      GroupOfStep(ct, urls, i, k);
    }
  }

  /** A content type not yet seen has an empty group. */
  lemma NewKeyHasEmptyGroup(ct: string -> string, urls: seq<string>, k: string)
    requires k !in KeyOrder(ct, urls)
    ensures GroupOf(ct, urls, k) == []
  {
    GroupNonEmptyIffKey(ct, urls, k);
  }

  /** After the last URL the loop state is the complete grouping. */
  lemma GroupedAtEnd(ct: string -> string, urls: seq<string>,
                     order: seq<string>, groups: map<string, seq<string>>)
    requires GroupedUpTo(ct, urls, |urls|, order, groups)
    ensures order == KeyOrder(ct, urls) && groups == Grouped(ct, urls)
  {
    assert urls[..|urls|] == urls;
    SameGrouping(ct, urls, groups);
  }

  lemma SameGrouping(ct: string -> string, urls: seq<string>, groups: map<string, seq<string>>)
    requires forall k :: k in groups <==> k in KeyOrder(ct, urls)
    requires forall k :: k in groups ==> groups[k] == GroupOf(ct, urls, k)
    ensures groups == Grouped(ct, urls)
  {
  }

  // ---------------------------------------------------------------------------
  // Grouping partitions the input
  // ---------------------------------------------------------------------------

  /**
   * The key order only grows by appending: the content types seen in a
   * prefix of the input come first, in the same order.
   */
  lemma {:induction false} KeyOrderGrowsByAppending(ct: string -> string, urls: seq<string>, n: nat)
    requires n <= |urls|
    ensures KeyOrder(ct, urls[..n]) <= KeyOrder(ct, urls)
    decreases |urls|
  {
    if n < |urls| {
      var init := urls[..|urls| - 1];
      assert init[..n] == urls[..n];
      KeyOrderGrowsByAppending(ct, init, n);
    } else {
      assert urls[..n] == urls;
    }
  }

  /**
   * A group holds each URL of its content type as often as the input does,
   * and no other URL.
   */
  lemma {:induction false} GroupMultiplicity(ct: string -> string, urls: seq<string>, k: string, u: string)
    ensures multiset(GroupOf(ct, urls, k))[u] == if ct(u) == k then multiset(urls)[u] else 0
    decreases |urls|
  {
    if urls != [] {
      var init := urls[..|urls| - 1];
      GroupMultiplicity(ct, init, k, u);
      assert urls == init + [urls[|urls| - 1]];
    }
  }

  /** A group keeps the input order. */
  lemma {:induction false} GroupPreservesOrder(ct: string -> string, urls: seq<string>, k: string)
    ensures IsSubsequence(GroupOf(ct, urls, k), urls)
    decreases |urls|
  {
    if urls != [] {
      var init := urls[..|urls| - 1];
      var g := GroupOf(ct, urls, k);
      GroupPreservesOrder(ct, init, k);
      if ct(urls[|urls| - 1]) == k {
        assert g[..|g| - 1] == GroupOf(ct, init, k);
      } else {
        assert g == GroupOf(ct, init, k);
      }
    }
  }

  /** A content type has a non-empty group exactly when some input URL has it. */
  lemma GroupNonEmptyIffKey(ct: string -> string, urls: seq<string>, k: string)
    ensures GroupOf(ct, urls, k) != [] <==> k in KeyOrder(ct, urls)
  {
    var g := GroupOf(ct, urls, k);
    if k in KeyOrder(ct, urls) {
      var i :| 0 <= i < |urls| && ct(urls[i]) == k;
      GroupMultiplicity(ct, urls, k, urls[i]);
      assert urls[i] in multiset(g);
    }
    if g != [] {
      GroupMultiplicity(ct, urls, k, g[0]);
      assert g[0] in multiset(urls);
      var i :| 0 <= i < |urls| && urls[i] == g[0];
      assert ct(urls[i]) == k;
    }
  }

  lemma {:induction false} FlattenMultiplicity(ct: string -> string, urls: seq<string>, keys: seq<string>, u: string)
    requires forall i, j :: 0 <= i < j < |keys| ==> keys[i] != keys[j]
    requires forall k :: k in keys ==> k in KeyOrder(ct, urls)
    ensures multiset(Flatten(keys, Grouped(ct, urls)))[u] == if ct(u) in keys then multiset(urls)[u] else 0
    decreases |keys|
  {
    if keys != [] {
      var init := keys[..|keys| - 1];
      var last := keys[|keys| - 1];
      FlattenMultiplicity(ct, urls, init, u);
      GroupMultiplicity(ct, urls, last, u);
      assert last !in init;
      assert ct(u) in keys <==> ct(u) in init || ct(u) == last;
    }
  }

  /**
   * The groups partition the input: together they hold every input URL with
   * its multiplicity, and their sizes add up to the input length.
   */
  lemma GroupsPartitionInput(ct: string -> string, urls: seq<string>)
    ensures multiset(Flatten(KeyOrder(ct, urls), Grouped(ct, urls))) == multiset(urls)
    ensures |Flatten(KeyOrder(ct, urls), Grouped(ct, urls))| == |urls|
  {
    var all := Flatten(KeyOrder(ct, urls), Grouped(ct, urls));
    forall u ensures multiset(all)[u] == multiset(urls)[u] {
      FlattenMultiplicity(ct, urls, KeyOrder(ct, urls), u);
      if u in urls {
        var i :| 0 <= i < |urls| && urls[i] == u;
        assert ct(urls[i]) in KeyOrder(ct, urls);
      }
    }
    assert multiset(all) == multiset(urls);
    assert |multiset(all)| == |all|;
  }

  // ---------------------------------------------------------------------------
  // Truncation
  // ---------------------------------------------------------------------------

  /** Picking the URLs of one content type distributes over concatenation. */
  lemma {:induction false} GroupOfConcat(ct: string -> string, a: seq<string>, b: seq<string>, k: string)
    ensures GroupOf(ct, a + b, k) == GroupOf(ct, a, k) + GroupOf(ct, b, k)
    decreases |b|
  {
    if b == [] {
      assert a + b == a;
    } else {
      var ab := a + b;
      assert ab[..|ab| - 1] == a + b[..|b| - 1];
      GroupOfConcat(ct, a, b[..|b| - 1], k);
    }
  }

  /** Picking content type `k` from a list whose URLs all have type `k0`. */
  lemma {:induction false} GroupOfUniform(ct: string -> string, s: seq<string>, k0: string, k: string)
    requires forall i :: 0 <= i < |s| ==> ct(s[i]) == k0
    ensures GroupOf(ct, s, k) == if k == k0 then s else []
    decreases |s|
  {
    if s != [] {
      GroupOfUniform(ct, s[..|s| - 1], k0, k);
    }
  }

  lemma {:induction false} TakeEachProjection(ct: string -> string, urls: seq<string>, keys: seq<string>, limit: int, k: string)
    requires forall i, j :: 0 <= i < j < |keys| ==> keys[i] != keys[j]
    requires forall k :: k in keys ==> k in KeyOrder(ct, urls)
    ensures GroupOf(ct, TakeEach(keys, Grouped(ct, urls), limit), k) ==
            if k in keys then Slice(GroupOf(ct, urls, k), limit) else []
    decreases |keys|
  {
    if keys != [] {
      var init := keys[..|keys| - 1];
      var last := keys[|keys| - 1];
      var groups := Grouped(ct, urls);
      var piece := Slice(groups[last], limit);
      TakeEachProjection(ct, urls, init, limit, k);
      GroupOfConcat(ct, TakeEach(init, groups, limit), piece, k);
      GroupOfUniform(ct, piece, last, k);
      assert last !in init;
      assert k in keys <==> k in init || k == last;
    }
  }

  /**
   * Each content type contributes exactly the first `Kept(|group|, limit)`
   * URLs of its group: the URLs of type `k` in the output are that prefix.
   */
  lemma SubsetProjection(ct: string -> string, urls: seq<string>, limit: int, k: string)
    ensures GroupOf(ct, Subset(ct, urls, limit), k) == Slice(GroupOf(ct, urls, k), limit)
  {
    TakeEachProjection(ct, urls, KeyOrder(ct, urls), limit, k);
    GroupNonEmptyIffKey(ct, urls, k);
  }

  lemma {:induction false} TakeEachLength(keys: seq<string>, groups: map<string, seq<string>>, limit: int)
    requires forall k :: k in keys ==> k in groups
    ensures |TakeEach(keys, groups, limit)| == SumKept(keys, groups, limit)
    decreases |keys|
  {
    if keys != [] {
      TakeEachLength(keys[..|keys| - 1], groups, limit);
    }
  }

  lemma {:induction false} SumKeptAtMostLimitEach(keys: seq<string>, groups: map<string, seq<string>>, limit: int)
    requires forall k :: k in keys ==> k in groups
    requires limit >= 0
    ensures SumKept(keys, groups, limit) <= limit * |keys|
    decreases |keys|
  {
    if keys != [] {
      var init := keys[..|keys| - 1];
      SumKeptAtMostLimitEach(init, groups, limit);
      assert limit * |keys| == limit * |init| + limit;
    }
  }

  lemma {:induction false} TakeEachWithinGroups(keys: seq<string>, groups: map<string, seq<string>>, limit: int)
    requires forall k :: k in keys ==> k in groups
    ensures multiset(TakeEach(keys, groups, limit)) <= multiset(Flatten(keys, groups))
    ensures |TakeEach(keys, groups, limit)| <= |Flatten(keys, groups)|
    decreases |keys|
  {
    if keys != [] {
      var init := keys[..|keys| - 1];
      var g := groups[keys[|keys| - 1]];
      TakeEachWithinGroups(init, groups, limit);
      assert g == Slice(g, limit) + g[Kept(|g|, limit)..];
      assert multiset(g) == multiset(Slice(g, limit)) + multiset(g[Kept(|g|, limit)..]);
    }
  }

  /**
   * The output length is the sum over the groups of what each keeps; it is at
   * most the input length, at most `limit` per content type, and the output
   * holds no URL more often than the input does.
   */
  lemma SubsetBounds(ct: string -> string, urls: seq<string>, limit: int)
    ensures |Subset(ct, urls, limit)| == SumKept(KeyOrder(ct, urls), Grouped(ct, urls), limit)
    ensures |Subset(ct, urls, limit)| <= |urls|
    ensures limit >= 0 ==> |Subset(ct, urls, limit)| <= limit * |KeyOrder(ct, urls)|
    ensures multiset(Subset(ct, urls, limit)) <= multiset(urls)
    ensures limit >= 0 ==> forall k :: |GroupOf(ct, Subset(ct, urls, limit), k)| <= limit
  {
    forall k ensures GroupOf(ct, Subset(ct, urls, limit), k) == Slice(GroupOf(ct, urls, k), limit) {
      SubsetProjection(ct, urls, limit, k);
    }
    var keys, groups := KeyOrder(ct, urls), Grouped(ct, urls);
    TakeEachLength(keys, groups, limit);
    if limit >= 0 {
      SumKeptAtMostLimitEach(keys, groups, limit);
    }
    TakeEachWithinGroups(keys, groups, limit);
    GroupsPartitionInput(ct, urls);

  }

  /**
   * With a positive limit every content type of the input is represented in
   * the output, and the output has no other content type.
   */
  lemma EveryContentTypeKept(ct: string -> string, urls: seq<string>, limit: int, k: string)
    requires limit >= 1
    ensures k in KeyOrder(ct, urls) <==> GroupOf(ct, Subset(ct, urls, limit), k) != []
  {
    SubsetProjection(ct, urls, limit, k);
    GroupNonEmptyIffKey(ct, urls, k);
  }

  /** When the limit is at least the input length nothing is cut: the output is a permutation of the input. */
  lemma NoTruncation(ct: string -> string, urls: seq<string>, limit: int)
    requires limit >= |urls|
    ensures Subset(ct, urls, limit) == Flatten(KeyOrder(ct, urls), Grouped(ct, urls))
    ensures multiset(Subset(ct, urls, limit)) == multiset(urls)
  {
    TakeEachWholeGroups(ct, urls, KeyOrder(ct, urls), limit);
    GroupsPartitionInput(ct, urls);
  }

  lemma {:induction false} TakeEachWholeGroups(ct: string -> string, urls: seq<string>, keys: seq<string>, limit: int)
    requires limit >= |urls|
    requires forall k :: k in keys ==> k in KeyOrder(ct, urls)
    ensures TakeEach(keys, Grouped(ct, urls), limit) == Flatten(keys, Grouped(ct, urls))
    decreases |keys|
  {
    if keys != [] {
      TakeEachWholeGroups(ct, urls, keys[..|keys| - 1], limit);
    }
  }

  /**
   * A limit of 0 keeps nothing: the request still succeeds, with an empty
   * sitemap, since the handler does not check the limit.
   */
  lemma ZeroLimitKeepsNothing(ct: string -> string, urls: seq<string>)
    ensures Subset(ct, urls, 0) == []
  {
    SubsetBounds(ct, urls, 0);
  }

  /**
   * Two URLs of one content type followed by one of another, limit 1: the
   * first of each group survives, in first-seen order.
   */
  lemma ExampleOnePerGroup(ct: string -> string, a: string, b: string, x: string)
    requires ct(a) == ct(b) && ct(x) != ct(a)
    ensures Subset(ct, [a, b, x], 1) == [a, x]
  {
    ExampleGrouping(ct, a, b, x);
    var groups := Grouped(ct, [a, b, x]);
    TakeEachOfTwo(ct(a), ct(x), groups, [a, b], [x]);
  }

  lemma TakeEachOfTwo(ka: string, kx: string, groups: map<string, seq<string>>,
                      ga: seq<string>, gx: seq<string>)
    requires ka in groups && kx in groups && groups[ka] == ga && groups[kx] == gx
    requires |ga| >= 1 && |gx| >= 1
    ensures TakeEach([ka, kx], groups, 1) == [ga[0], gx[0]]
  {
    assert [ka, kx][..1] == [ka] && [ka][..0] == [];
    assert TakeEach([ka], groups, 1) == [ga[0]];
  }

  lemma ExampleGrouping(ct: string -> string, a: string, b: string, x: string)
    requires ct(a) == ct(b) && ct(x) != ct(a)
    ensures KeyOrder(ct, [a, b, x]) == [ct(a), ct(x)]
    ensures GroupOf(ct, [a, b, x], ct(a)) == [a, b]
    ensures GroupOf(ct, [a, b, x], ct(x)) == [x]
  {
    var urls := [a, b, x];
    assert urls[..0] == [] && urls[..3] == urls;
    ExampleKeys(ct, urls);
    ExampleGroup(ct, urls, ct(a));
    ExampleGroup(ct, urls, ct(x));
  }

  lemma ExampleKeys(ct: string -> string, urls: seq<string>)
    requires |urls| == 3 && ct(urls[0]) == ct(urls[1]) && ct(urls[2]) != ct(urls[0])
    ensures KeyOrder(ct, urls) == [ct(urls[0]), ct(urls[2])]
  {
    assert urls[..0] == [] && urls[..3] == urls;
    KeyOrderStep(ct, urls, 0);
    KeyOrderStep(ct, urls, 1);
    KeyOrderStep(ct, urls, 2);
  }

  lemma ExampleGroup(ct: string -> string, urls: seq<string>, k: string)
    requires |urls| == 3
    ensures GroupOf(ct, urls, k) ==
            (if ct(urls[0]) == k then [urls[0]] else []) +
            (if ct(urls[1]) == k then [urls[1]] else []) +
            (if ct(urls[2]) == k then [urls[2]] else [])
  {
    assert urls[..0] == [] && urls[..3] == urls;
    GroupOfStep(ct, urls, 0, k);
    GroupOfStep(ct, urls, 1, k);
    GroupOfStep(ct, urls, 2, k);
  }

}
