/** The result table of a search: the price ceiling (FIPE value minus the
    margin, never negative), and the collected records deduplicated by
    address, filtered against the ceiling and sorted by price with
    price-less records at the end. */
module Results {
  import opened Wrappers
  import opened Ads

  /** The sort key given to a record without a numeric price (`10**12`). */
  const NoPriceKey: int := 1_000_000_000_000

  /** `teto = max(0, fipe_valor - margem)`: the largest asking price still
      shown. It is never negative and never below FIPE minus the margin, and
      it is one of the two. */
  function Ceiling(fipe: int, margem: int): (teto: int)
    ensures teto >= 0 && teto >= fipe - margem
    ensures teto == 0 || teto == fipe - margem
  {
    if fipe - margem > 0 then fipe - margem else 0
  }

  /** The row mask: a numeric price at most the ceiling, or, when price-less
      records are included, no numeric price. */
  predicate Admitted(a: Ad, teto: int, includeNoPrice: bool) {
    (a.price.Some? && a.price.value <= teto) || (includeNoPrice && a.price.None?)
  }

  function KeepAdmitted(xs: seq<Ad>, teto: int, includeNoPrice: bool): (r: seq<Ad>)
    ensures |r| <= |xs|
    ensures forall k :: 0 <= k < |r| ==> Admitted(r[k], teto, includeNoPrice)
    ensures forall a :: a in r <==> a in xs && Admitted(a, teto, includeNoPrice)
    ensures multiset(r) <= multiset(xs)
  {
    if |xs| == 0 then []
    else
      var init, last := xs[..|xs| - 1], xs[|xs| - 1];
      var p := KeepAdmitted(init, teto, includeNoPrice);
      assert xs == init + [last];
      if Admitted(last, teto, includeNoPrice) then p + [last] else p
  }

  /** Masking drops records and never reorders or repeats them, so distinct
      addresses stay distinct. */
  lemma {:induction false} KeepAdmittedDistinct(xs: seq<Ad>, teto: int, includeNoPrice: bool)
    requires DistinctUrls(xs)
    ensures DistinctUrls(KeepAdmitted(xs, teto, includeNoPrice))
    decreases |xs|
  {
    if |xs| > 0 {
      var init, last := xs[..|xs| - 1], xs[|xs| - 1];
      KeepAdmittedDistinct(init, teto, includeNoPrice);
      var p := KeepAdmitted(init, teto, includeNoPrice);
      forall k | 0 <= k < |p| ensures p[k].url != last.url {
        assert p[k] in init;
        var j :| 0 <= j < |init| && init[j] == p[k];
        assert xs[j] == p[k];
      }
      assert KeepAdmitted(xs, teto, includeNoPrice)
             == if Admitted(last, teto, includeNoPrice) then p + [last] else p;
      if Admitted(last, teto, includeNoPrice) {
        DistinctSnoc(p, last);
      }
    }
  }

  lemma DistinctSnoc(p: seq<Ad>, last: Ad)
    requires DistinctUrls(p)
    requires forall k :: 0 <= k < |p| ==> p[k].url != last.url
    ensures DistinctUrls(p + [last])
  {
  }

  /** The `ord` column: the numeric price, or `NoPriceKey` for none. */
  function SortKey(a: Ad): int {
    if a.price.Some? then a.price.value else NoPriceKey
  }

  predicate SortedByKey(xs: seq<Ad>) {
    forall i, j :: 0 <= i < j < |xs| ==> SortKey(xs[i]) <= SortKey(xs[j])
  }

  /** A record no larger than the head of a sorted sequence can go in front. */
  lemma ConsSorted(x: Ad, ys: seq<Ad>)
    requires SortedByKey(ys)
    requires |ys| > 0 ==> SortKey(x) <= SortKey(ys[0])
    ensures SortedByKey([x] + ys)
  {
    forall i, j | 0 <= i < j < |[x] + ys| ensures SortKey(([x] + ys)[i]) <= SortKey(([x] + ys)[j]) {
      if i == 0 && j > 1 {
        assert SortKey(ys[0]) <= SortKey(ys[j - 1]);
      }
    }
  }

  /** The head of a sorted sequence is no larger than `a` (when `a` goes
      further in) nor than the next record. */
  lemma InsertHead(xs: seq<Ad>, a: Ad, rest: seq<Ad>)
    requires SortedByKey(xs) && |xs| > 0 && SortKey(xs[0]) < SortKey(a)
    requires |rest| > 0 && (rest[0] == a || (|xs| > 1 && rest[0] == xs[1]))
    ensures SortKey(xs[0]) <= SortKey(rest[0])
  {
  }

  /** Places `a` before the first record with a larger key. */
  function Insert(a: Ad, xs: seq<Ad>): (r: seq<Ad>)
    requires SortedByKey(xs)
    ensures SortedByKey(r)
    ensures multiset(r) == multiset(xs) + multiset{a}
    ensures |r| == |xs| + 1
    ensures r[0] == a || (|xs| > 0 && r[0] == xs[0])
  {
    if |xs| == 0 then [a]
    else if SortKey(a) <= SortKey(xs[0]) then
      ConsSorted(a, xs);
      [a] + xs
    else
      var rest := Insert(a, xs[1..]);
      assert xs == [xs[0]] + xs[1..];
      InsertHead(xs, a, rest);
      ConsSorted(xs[0], rest);
      [xs[0]] + rest
  }

  /** `sort_values("ord")`: ascending by key, a permutation of the input. */
  function Sort(xs: seq<Ad>): (r: seq<Ad>)
    ensures SortedByKey(r)
    ensures multiset(r) == multiset(xs)
  {
    if |xs| == 0 then []
    else
      assert xs == [xs[0]] + xs[1..];
      Insert(xs[0], Sort(xs[1..]))
  }

  function Without(xs: seq<Ad>, i: nat): (rest: seq<Ad>)
    requires i < |xs|
    ensures |rest| == |xs| - 1
    ensures forall j :: 0 <= j < |rest| ==> rest[j] == xs[if j < i then j else j + 1]
  {
    xs[..i] + xs[i + 1..]
  }

  /** Removing the record at position `i` removes one copy of it. */
  lemma WithoutCount(xs: seq<Ad>, i: nat)
    requires i < |xs|
    ensures multiset(Without(xs, i)) == multiset(xs) - multiset{xs[i]}
  {
    assert xs == xs[..i] + [xs[i]] + xs[i + 1..];
  }

  lemma RemoveAtDistinct(xs: seq<Ad>, i: nat)
    requires i < |xs| && DistinctUrls(xs)
    ensures DistinctUrls(Without(xs, i))
    ensures forall j :: 0 <= j < |Without(xs, i)| ==> Without(xs, i)[j].url != xs[i].url
  {
  }

  lemma SameMembers(xs: seq<Ad>, ys: seq<Ad>)
    requires multiset(xs) == multiset(ys)
    ensures forall a :: a in xs <==> a in ys
  {
    forall a ensures a in xs <==> a in ys {
      assert a in xs <==> a in multiset(xs);
      assert a in ys <==> a in multiset(ys);
    }
  }

  /** A reordering of the rest of `xs` holds no other record with the address
      of `xs[i]`. */
  lemma NotInRest(xs: seq<Ad>, i: nat, ys: seq<Ad>)
    requires i < |xs| && DistinctUrls(xs)
    requires multiset(Without(xs, i)) == multiset(ys)
    ensures forall k :: 0 <= k < |ys| ==> ys[k].url != xs[i].url
  {
    RemoveAtDistinct(xs, i);
    SameMembers(Without(xs, i), ys);
    forall k | 0 <= k < |ys| ensures ys[k].url != xs[i].url {
      assert ys[k] in Without(xs, i);
    }
  }

  lemma DropFirst<T>(ys: seq<T>)
    requires |ys| > 0
    ensures multiset(ys[1..]) == multiset(ys) - multiset{ys[0]}
    ensures ys[0] in multiset(ys)
  {
    assert ys == [ys[0]] + ys[1..];
  }

  lemma DistinctCons(y: Ad, ys: seq<Ad>)
    requires DistinctUrls(ys)
    requires forall k :: 0 <= k < |ys| ==> ys[k].url != y.url
    ensures DistinctUrls([y] + ys)
  {
  }

  /** Two records with the same address cannot both be in a sequence whose
      addresses are distinct, even after reordering. */
  lemma {:induction false} PermutationKeepsDistinct(xs: seq<Ad>, ys: seq<Ad>)
    requires multiset(xs) == multiset(ys) && DistinctUrls(xs)
    ensures DistinctUrls(ys)
    decreases |ys|
  {
    if |ys| > 0 {
      DropFirst(ys);
      var i :| 0 <= i < |xs| && xs[i] == ys[0];
      WithoutCount(xs, i);
      RemoveAtDistinct(xs, i);
      PermutationKeepsDistinct(Without(xs, i), ys[1..]);
      DistinctStep(xs, i, ys);
    }
  }

  /** The first record of `ys`, taken from position `i` of `xs`, has an
      address no other record of `ys` has. */
  lemma DistinctStep(xs: seq<Ad>, i: nat, ys: seq<Ad>)
    requires i < |xs| && DistinctUrls(xs) && |ys| > 0 && xs[i] == ys[0]
    requires multiset(Without(xs, i)) == multiset(ys[1..]) && DistinctUrls(ys[1..])
    ensures DistinctUrls(ys)
  {
    NotInRest(xs, i, ys[1..]);
    DistinctCons(ys[0], ys[1..]);
    assert ys == [ys[0]] + ys[1..];
  }

  /** The result table (source lines 40 and 157-170, written as a function of
      the collected records): deduplicated by address, masked against the
      ceiling, sorted by `SortKey`. */
  function FilterAndSort(rows: seq<Ad>, fipe: int, margem: int, includeNoPrice: bool): (r: seq<Ad>)
    ensures DistinctUrls(r)
    ensures forall k :: 0 <= k < |r| ==> r[k].price.Some? ==> r[k].price.value <= Ceiling(fipe, margem)
    ensures forall k :: 0 <= k < |r| ==> r[k].price.None? ==> includeNoPrice
    ensures SortedByKey(r)
    ensures multiset(r) == multiset(KeepAdmitted(Dedup(rows), Ceiling(fipe, margem), includeNoPrice))
  {
    var kept := KeepAdmitted(Dedup(rows), Ceiling(fipe, margem), includeNoPrice);
    KeepAdmittedDistinct(Dedup(rows), Ceiling(fipe, margem), includeNoPrice);
    var r := Sort(kept);
    SortedTable(kept, r, Ceiling(fipe, margem), includeNoPrice);
    r
  }

  lemma SortedTable(kept: seq<Ad>, r: seq<Ad>, teto: int, includeNoPrice: bool)
    requires multiset(kept) == multiset(r) && DistinctUrls(kept)
    requires forall k :: 0 <= k < |kept| ==> Admitted(kept[k], teto, includeNoPrice)
    ensures DistinctUrls(r)
    ensures forall k :: 0 <= k < |r| ==> Admitted(r[k], teto, includeNoPrice)
  {
    PermutationKeepsDistinct(kept, r);
    SameMembers(kept, r);
    forall k | 0 <= k < |r| ensures Admitted(r[k], teto, includeNoPrice) {
      assert r[k] in kept;
    }
  }

  /** Exactly the admitted first-per-address records are shown: a record is
      in the table if and only if it is the record kept for its address and
      it passes the mask. */
  lemma FilterAndSortMembers(rows: seq<Ad>, fipe: int, margem: int, includeNoPrice: bool, a: Ad)
    ensures a in FilterAndSort(rows, fipe, margem, includeNoPrice)
            <==> a in Dedup(rows) && Admitted(a, Ceiling(fipe, margem), includeNoPrice)
  {
    var r := FilterAndSort(rows, fipe, margem, includeNoPrice);
    var kept := KeepAdmitted(Dedup(rows), Ceiling(fipe, margem), includeNoPrice);
    assert a in r <==> a in multiset(r);
    assert a in kept <==> a in multiset(kept);
  }

  /** While the ceiling is below the price-less key, every record with a
      numeric price comes before every record without one. */
  lemma PricelessLast(rows: seq<Ad>, fipe: int, margem: int, includeNoPrice: bool)
    requires Ceiling(fipe, margem) < NoPriceKey
    ensures var r := FilterAndSort(rows, fipe, margem, includeNoPrice);
            forall i, j :: 0 <= i < |r| && 0 <= j < |r| && r[i].price.Some? && r[j].price.None? ==> i < j
  {
    PricedBeforeNone(FilterAndSort(rows, fipe, margem, includeNoPrice), Ceiling(fipe, margem));
  }

  lemma PricedBeforeNone(r: seq<Ad>, teto: int)
    requires SortedByKey(r) && teto < NoPriceKey
    requires forall k :: 0 <= k < |r| ==> r[k].price.Some? ==> r[k].price.value <= teto
    ensures forall i, j :: 0 <= i < |r| && 0 <= j < |r| && r[i].price.Some? && r[j].price.None? ==> i < j
  {
    forall i, j | 0 <= i < |r| && 0 <= j < |r| && r[i].price.Some? && r[j].price.None?
      ensures i < j
    {
      assert SortKey(r[i]) < SortKey(r[j]);
    }
  }

  /** For any ceiling, a record priced above the price-less key is sorted
      after every price-less record, since the key is the price itself. */
  lemma PricedAboveKeyLast(rows: seq<Ad>, fipe: int, margem: int, includeNoPrice: bool)
    ensures var r := FilterAndSort(rows, fipe, margem, includeNoPrice);
            forall i, j ::
              0 <= i < |r| && 0 <= j < |r| && r[i].price.None?
              && r[j].price.Some? && r[j].price.value > NoPriceKey
              ==> i < j
  {
    var r := FilterAndSort(rows, fipe, margem, includeNoPrice);
    forall i, j | 0 <= i < |r| && 0 <= j < |r| && r[i].price.None?
                  && r[j].price.Some? && r[j].price.value > NoPriceKey
      ensures i < j
    {
      assert SortKey(r[i]) < SortKey(r[j]);
    }
  }

  lemma SortPairSwaps(a: Ad, b: Ad)
    requires SortKey(b) < SortKey(a)
    ensures Sort([a, b]) == [b, a]
  {
    assert [a, b][1..] == [b];
    assert Sort([b]) == [b];
    assert Insert(a, [b]) == [b] + Insert(a, []);
  }

  /** An instance of `PricedAboveKeyLast`: with a ceiling above the
      price-less key, `PricelessLast` no longer holds, and a record priced
      above that key comes after a price-less one. */
  lemma PricelessNotLastAboveKey()
    ensures var none := Ad(None, None, None, Some("a"));
            var dear := Ad(None, None, Some(2 * NoPriceKey), Some("b"));
            FilterAndSort([dear, none], 3 * NoPriceKey, 0, true) == [none, dear]
  {
    var none := Ad(None, None, None, Some("a"));
    var dear := Ad(None, None, Some(2 * NoPriceKey), Some("b"));
    var rows := [dear, none];
    DedupOfDistinct(rows);
    assert Ceiling(3 * NoPriceKey, 0) == 3 * NoPriceKey;
    KeepAdmittedAll(rows, 3 * NoPriceKey, true);
    SortPairSwaps(dear, none);
    assert FilterAndSort(rows, 3 * NoPriceKey, 0, true) == Sort(rows);
  }

  lemma {:induction false} KeepAdmittedAll(xs: seq<Ad>, teto: int, includeNoPrice: bool)
    requires forall k :: 0 <= k < |xs| ==> Admitted(xs[k], teto, includeNoPrice)
    ensures KeepAdmitted(xs, teto, includeNoPrice) == xs
    decreases |xs|
  {
    if |xs| > 0 {
      KeepAdmittedAll(xs[..|xs| - 1], teto, includeNoPrice);
      assert xs == xs[..|xs| - 1] + [xs[|xs| - 1]];
    }
  }

  /** The sort keys of `xs`, in order. */
  function Keys(xs: seq<Ad>): (ks: seq<int>)
    ensures |ks| == |xs|
    ensures forall k :: 0 <= k < |xs| ==> ks[k] == SortKey(xs[k])
  {
    if |xs| == 0 then [] else [SortKey(xs[0])] + Keys(xs[1..])
  }

  predicate Ascending(ks: seq<int>) {
    forall i, j :: 0 <= i < j < |ks| ==> ks[i] <= ks[j]
  }

  lemma KeysAppend(a: seq<Ad>, b: seq<Ad>)
    ensures Keys(a + b) == Keys(a) + Keys(b)
  {
    assert forall k :: 0 <= k < |a + b| ==> Keys(a + b)[k] == (Keys(a) + Keys(b))[k];
  }

  lemma SplitAt<T>(xs: seq<T>, i: nat)
    requires i < |xs|
    ensures xs == xs[..i] + [xs[i]] + xs[i + 1..]
  {
  }

  lemma MultisetMiddle(a: seq<int>, k: int, b: seq<int>)
    ensures multiset(a + [k] + b) == multiset(a + b) + multiset{k}
  {
  }

  /** Removing the record at position `i` removes one copy of its key. */
  lemma KeysWithout(xs: seq<Ad>, i: nat)
    requires i < |xs|
    ensures multiset(Keys(xs)) == multiset(Keys(Without(xs, i))) + multiset{SortKey(xs[i])}
  {
    var pre, x, post := xs[..i], xs[i], xs[i + 1..];
    SplitAt(xs, i);
    KeysAppend(pre + [x], post);
    KeysAppend(pre, [x]);
    KeysAppend(pre, post);
    assert Keys([x]) == [SortKey(x)];
    MultisetMiddle(Keys(pre), SortKey(x), Keys(post));
  }

  /** Reordering the records reorders their keys. */
  lemma {:induction false} KeysPermutation(xs: seq<Ad>, ys: seq<Ad>)
    requires multiset(xs) == multiset(ys)
    ensures multiset(Keys(xs)) == multiset(Keys(ys))
    decreases |xs|
  {
    if |xs| == 0 {
      assert |ys| == |multiset(ys)| == 0;
    } else {
      DropFirst(xs);
      assert xs[0] in multiset(ys);
      var i :| 0 <= i < |ys| && ys[i] == xs[0];
      WithoutCount(ys, i);
      KeysPermutation(xs[1..], Without(ys, i));
      KeysWithout(ys, i);
      assert Keys(xs) == [SortKey(xs[0])] + Keys(xs[1..]);
    }
  }

  lemma SortedKeys(xs: seq<Ad>)
    requires SortedByKey(xs)
    ensures Ascending(Keys(xs))
  {
  }

  /** Equal multisets of ascending keys start with the same (least) key. */
  lemma AscendingHead(xs: seq<int>, ys: seq<int>)
    requires Ascending(xs) && Ascending(ys) && multiset(xs) == multiset(ys) && |xs| > 0
    ensures |ys| > 0 && xs[0] == ys[0]
  {
    DropFirst(xs);
    assert |ys| == |multiset(ys)| == |multiset(xs)| == |xs|;
    DropFirst(ys);
    var i :| 0 <= i < |ys| && ys[i] == xs[0];
    var j :| 0 <= j < |xs| && xs[j] == ys[0];
    assert ys[0] <= ys[i] && xs[0] <= xs[j];
  }

  lemma AscendingTail(xs: seq<int>)
    requires Ascending(xs) && |xs| > 0
    ensures Ascending(xs[1..])
  {
    forall i, j | 0 <= i < j < |xs[1..]| ensures xs[1..][i] <= xs[1..][j] {
      assert xs[1..][i] == xs[i + 1] && xs[1..][j] == xs[j + 1];
    }
  }

  /** Two ascending sequences holding the same keys are the same sequence. */
  lemma {:induction false} AscendingUnique(xs: seq<int>, ys: seq<int>)
    requires Ascending(xs) && Ascending(ys) && multiset(xs) == multiset(ys)
    ensures xs == ys
    decreases |xs|
  {
    if |xs| == 0 {
      assert |ys| == |multiset(ys)| == 0;
    } else {
      AscendingHead(xs, ys);
      DropFirst(xs);
      DropFirst(ys);
      AscendingTail(xs);
      AscendingTail(ys);
      AscendingUnique(xs[1..], ys[1..]);
      assert xs == [xs[0]] + xs[1..] && ys == [ys[0]] + ys[1..];
    }
  }

  /** Two sorted orders of the same records have the same key sequence. */
  lemma SameKeys(xs: seq<Ad>, ys: seq<Ad>)
    requires SortedByKey(xs) && SortedByKey(ys) && multiset(xs) == multiset(ys)
    ensures Keys(xs) == Keys(ys)
  {
    KeysPermutation(xs, ys);
    SortedKeys(xs);
    SortedKeys(ys);
    AscendingUnique(Keys(xs), Keys(ys));
  }

  /** Building the table again from its own output changes at most the order
      of rows with equal keys (pandas' sort is not stable): it holds the same
      rows, and its sequence of sort keys is the same. */
  lemma FilterAndSortRebuild(rows: seq<Ad>, fipe: int, margem: int, includeNoPrice: bool)
    ensures var r := FilterAndSort(rows, fipe, margem, includeNoPrice);
            var again := FilterAndSort(r, fipe, margem, includeNoPrice);
            multiset(again) == multiset(r) && Keys(again) == Keys(r)
  {
    var r := FilterAndSort(rows, fipe, margem, includeNoPrice);
    var again := FilterAndSort(r, fipe, margem, includeNoPrice);
    var teto := Ceiling(fipe, margem);
    assert forall k :: 0 <= k < |r| ==> Admitted(r[k], teto, includeNoPrice);
    RebuildFrom(r, again, teto, includeNoPrice);
  }

  /** The step of `FilterAndSortRebuild`: a sorted table that the mask and
      deduplication leave alone sorts again to the same keys. */
  lemma RebuildFrom(r: seq<Ad>, again: seq<Ad>, teto: int, includeNoPrice: bool)
    requires DistinctUrls(r) && SortedByKey(r)
    requires forall k :: 0 <= k < |r| ==> Admitted(r[k], teto, includeNoPrice)
    requires SortedByKey(again)
    requires multiset(again) == multiset(KeepAdmitted(Dedup(r), teto, includeNoPrice))
    ensures multiset(again) == multiset(r) && Keys(again) == Keys(r)
  {
    DedupOfDistinct(r);
    KeepAdmittedAll(r, teto, includeNoPrice);
    SameKeys(again, r);
  }

  // ---------------------------------------------------------------------
  // An empty collection.

  /** Why the script stops: the exception it raises. */
  datatype Failure = KeyError(column: string)

  /** The script as written: with no collected record the frame built from
      the empty list has no columns at all, so indexing its `preco_num`
      column raises `KeyError` before the "nothing found" message can be
      shown. Otherwise the table of `FilterAndSort`. */
  function FilterAndSortAsWritten(rows: seq<Ad>, fipe: int, margem: int, includeNoPrice: bool)
    : (r: Result<seq<Ad>, Failure>)
    ensures |rows| > 0 ==> r == Success(FilterAndSort(rows, fipe, margem, includeNoPrice))
  {
    if |rows| == 0 then Failure(KeyError("preco_num"))
    else Success(FilterAndSort(rows, fipe, margem, includeNoPrice))
  }

  /** The crash: an empty collection, e.g. every page failed to load. */
  lemma EmptyCollectionRaises(fipe: int, margem: int, includeNoPrice: bool)
    ensures FilterAndSortAsWritten([], fipe, margem, includeNoPrice) == Failure(KeyError("preco_num"))
  {
  }

  /** The intended behaviour, as `FilterAndSort` has it: no record in, an
      empty table out (and the "nothing found" message). */
  lemma EmptyCollectionEmptyTable(fipe: int, margem: int, includeNoPrice: bool)
    ensures FilterAndSort([], fipe, margem, includeNoPrice) == []
  {
    assert multiset(FilterAndSort([], fipe, margem, includeNoPrice)) == multiset{};
  }
}
