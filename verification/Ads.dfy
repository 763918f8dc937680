/** Listing records and the cleanup that ends the extraction of a results
    page: records without an address, or with neither a title nor a price
    text, are dropped, and only the first record for each address is kept. */
module Ads {
  import opened Wrappers
  import opened Text
  import Price
  import opened Numerals

  /** One listing card as extracted from a results page (`titulo`,
      `preco_txt`, `preco_num`, `url`); any field may be missing. */
  datatype Ad = Ad(title: Option<string>, priceText: Option<string>,
                   price: Option<int>, url: Option<string>)

  /** The record the extractor appends for a card: the numeric price is the
      parsed price text. */
  function MakeAd(title: Option<string>, priceText: Option<string>, url: Option<string>): (a: Ad)
    ensures a.title == title && a.priceText == priceText && a.url == url
    ensures a.price.Some? <==> priceText.Some? && Digits(priceText.value) != []
                                && |Digits(priceText.value)| <= IntMaxStrDigits
    ensures a.price.Some? ==> a.price.value >= 0
                              && a.price.value == NumeralValue(Digits(priceText.value))
  {
    Ad(title, priceText, Price.ParsePrice(priceText), url)
  }

  /** The cleanup's test: an address, and a title or a price text (Python
      truthiness, so empty strings count as missing). */
  predicate Usable(a: Ad) {
    (Truthy(a.title) || Truthy(a.priceText)) && Truthy(a.url)
  }

  /** The records kept by the cleanup's list comprehension, in order. */
  function KeepUsable(xs: seq<Ad>): (r: seq<Ad>)
    ensures |r| <= |xs|
    ensures forall k :: 0 <= k < |r| ==> Usable(r[k])
    ensures forall a :: a in r <==> a in xs && Usable(a)
  {
    if |xs| == 0 then []
    else KeepUsable(xs[..|xs| - 1]) + (if Usable(xs[|xs| - 1]) then [xs[|xs| - 1]] else [])
  }

  /** The comprehension works record by record: filtering a concatenation
      filters each part, so the kept records stay in input order. */
  lemma {:induction false} KeepUsableAppend(xs: seq<Ad>, ys: seq<Ad>)
    ensures KeepUsable(xs + ys) == KeepUsable(xs) + KeepUsable(ys)
    decreases |ys|
  {
    if |ys| == 0 {
      assert xs + ys == xs;
    } else {
      var ys' := ys[..|ys| - 1];
      assert (xs + ys)[..|xs + ys| - 1] == xs + ys';
      KeepUsableAppend(xs, ys');
    }
  }

  // ---------------------------------------------------------------------
  // Deduplication by address.

  /** The addresses occurring in `xs`. */
  function Urls(xs: seq<Ad>): set<Option<string>> {
    set i | 0 <= i < |xs| :: xs[i].url
  }

  predicate DistinctUrls(xs: seq<Ad>) {
    forall i, j :: 0 <= i < j < |xs| ==> xs[i].url != xs[j].url
  }

  /** Position of the first record of `xs` with address `u`. */
  function FirstWith(xs: seq<Ad>, u: Option<string>): (i: nat)
    requires u in Urls(xs)
    ensures i < |xs| && xs[i].url == u
    ensures forall j :: 0 <= j < i ==> xs[j].url != u
  {
    if xs[0].url == u then 0
    else
      assert u in Urls(xs[1..]) by {
        var i :| 0 <= i < |xs| && xs[i].url == u;
        assert xs[1..][i - 1].url == u;
      }
      1 + FirstWith(xs[1..], u)
  }

  lemma UrlsAppend(xs: seq<Ad>, a: Ad)
    ensures Urls(xs + [a]) == Urls(xs) + {a.url}
  {
    var ys := xs + [a];
    forall u | u in Urls(ys) ensures u in Urls(xs) + {a.url} {
      var i :| 0 <= i < |ys| && ys[i].url == u;
      if i < |xs| { assert xs[i].url == u; }
    }
    forall u | u in Urls(xs) ensures u in Urls(ys) {
      var i :| 0 <= i < |xs| && xs[i].url == u;
      assert ys[i].url == u;
    }
    assert ys[|xs|].url == a.url;
  }

  /** `seen`/`uniq`: keeps a record only if no earlier kept record has its
      address. The result has pairwise-distinct addresses and every address
      of the input. */
  function Dedup(xs: seq<Ad>): (r: seq<Ad>)
    ensures |r| <= |xs|
    ensures DistinctUrls(r)
    ensures Urls(r) == Urls(xs)
  {
    if |xs| == 0 then []
    else
      var init, last := xs[..|xs| - 1], xs[|xs| - 1];
      var p := Dedup(init);
      UrlsAppend(init, last);
      assert xs == init + [last];
      if last.url in Urls(p) then p
      else
        UrlsAppend(p, last);
        assert forall i :: 0 <= i < |p| ==> p[i].url in Urls(p);
        p + [last]
  }

  /** Keeping a record of the input: the first record with each address is
      the one kept. */
  lemma FirstWithPrefix(xs: seq<Ad>, a: Ad, u: Option<string>)
    requires u in Urls(xs)
    ensures u in Urls(xs + [a]) && FirstWith(xs + [a], u) == FirstWith(xs, u)
  {
    UrlsAppend(xs, a);
    var i, j := FirstWith(xs + [a], u), FirstWith(xs, u);
    assert (xs + [a])[j] == xs[j];
  }

  /** Each record of `r` is the first record of `xs` with its address, and
      they come in the order of those first occurrences. */
  predicate FirstRecords(xs: seq<Ad>, r: seq<Ad>) {
    && (forall k :: 0 <= k < |r| ==>
          r[k].url in Urls(xs) && r[k] == xs[FirstWith(xs, r[k].url)])
    && (forall i, j :: 0 <= i < j < |r| ==>
          r[i].url in Urls(xs) && r[j].url in Urls(xs)
          && FirstWith(xs, r[i].url) < FirstWith(xs, r[j].url))
  }

  /** Dedup keeps, for each address, the FIRST record carrying it, and keeps
      them in the order of those first occurrences: element k of the result
      is the record at position FirstWith(xs, its address), and these
      positions increase along the result. Together with distinctness and
      `Urls(Dedup(xs)) == Urls(xs)` this pins the result down completely. */
  lemma {:induction false} DedupKeepsFirst(xs: seq<Ad>)
    ensures FirstRecords(xs, Dedup(xs))
    decreases |xs|
  {
    if |xs| > 0 {
      var init, last := xs[..|xs| - 1], xs[|xs| - 1];
      var n := |xs| - 1;
      var p := Dedup(init);
      var r := Dedup(xs);
      DedupKeepsFirst(init);
      assert xs == init + [last];
      UrlsAppend(init, last);
      forall k | 0 <= k < |p|
        ensures p[k].url in Urls(init) && p[k].url in Urls(xs)
        ensures FirstWith(xs, p[k].url) == FirstWith(init, p[k].url) < n
        ensures p[k] == xs[FirstWith(xs, p[k].url)]
      {
        FirstWithPrefix(init, last, p[k].url);
        var f := FirstWith(init, p[k].url);
        assert p[k] == init[f];
        assert init[f] == xs[f];
      }
      if last.url in Urls(p) {
        assert r == p;
        forall i, j | 0 <= i < j < |r|
          ensures r[i].url in Urls(xs) && r[j].url in Urls(xs)
                  && FirstWith(xs, r[i].url) < FirstWith(xs, r[j].url)
        {
          assert FirstWith(init, p[i].url) < FirstWith(init, p[j].url);
        }
      } else {
        assert r == p + [last];
        assert last.url in Urls(xs) by { assert xs[n].url == last.url; }
        assert FirstWith(xs, last.url) == n;
        forall k | 0 <= k < |r|
          ensures r[k].url in Urls(xs) && r[k] == xs[FirstWith(xs, r[k].url)]
        {
          if k < |p| { assert r[k] == p[k]; }
        }
        forall i, j | 0 <= i < j < |r|
          ensures r[i].url in Urls(xs) && r[j].url in Urls(xs)
                  && FirstWith(xs, r[i].url) < FirstWith(xs, r[j].url)
        {
          assert r[i] == p[i];
          if j < |p| { assert r[j] == p[j]; }
        }
      }
    }
  }

  /** Deduplicating records whose addresses are already distinct changes
      nothing; in particular Dedup is idempotent. */
  lemma {:induction false} DedupOfDistinct(xs: seq<Ad>)
    requires DistinctUrls(xs)
    ensures Dedup(xs) == xs
    decreases |xs|
  {
    if |xs| > 0 {
      var init, last := xs[..|xs| - 1], xs[|xs| - 1];
      DedupOfDistinct(init);
      assert xs == init + [last];
      assert last.url !in Urls(init) by {
        forall i | 0 <= i < |init| ensures init[i].url != last.url {
          assert init[i] == xs[i];
        }
      }
    }
  }

  /** The source's loop: a `seen` set and an output list, one pass over the
      records, skipping a record whose address was seen. */
  method DedupLoop(xs: seq<Ad>) returns (uniq: seq<Ad>)
    ensures uniq == Dedup(xs)
  {
    var seen: set<Option<string>> := {};
    uniq := [];
    var i := 0;
    while i < |xs|
      invariant 0 <= i <= |xs|
      invariant uniq == Dedup(xs[..i])
      invariant seen == Urls(uniq)
    {
      var r := xs[i];
      assert xs[..i + 1][..i] == xs[..i];
      if r.url in seen {
        i := i + 1;
        continue;
      }
      seen := seen + {r.url};
      UrlsAppend(uniq, r);
      uniq := uniq + [r];
      i := i + 1;
    }
    assert xs[..|xs|] == xs;
  }

  /** The cleanup at the end of `extrair_anuncios`: every record returned has
      an address and a title or a price text, addresses are pairwise
      distinct, every address of a usable input record is present, and the
      record kept for an address is the first usable one carrying it, in the
      order of those first occurrences. */
  function Cleanup(results: seq<Ad>): (r: seq<Ad>)
    ensures forall k :: 0 <= k < |r| ==> Usable(r[k])
    ensures DistinctUrls(r)
    ensures Urls(r) == Urls(KeepUsable(results))
    ensures forall a :: a in results && Usable(a) ==> a.url in Urls(r)
    ensures FirstRecords(KeepUsable(results), r)
  {
    var clean := KeepUsable(results);
    var r := Dedup(clean);
    DedupKeepsFirst(clean);
    forall a | a in results && Usable(a) ensures a.url in Urls(clean) {
      assert a in clean;
      var i :| 0 <= i < |clean| && clean[i] == a;
    }
    forall k | 0 <= k < |r| ensures Usable(r[k]) {
      assert r[k].url in Urls(clean) && r[k] == clean[FirstWith(clean, r[k].url)];
    }
    r
  }
}
