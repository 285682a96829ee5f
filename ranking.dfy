/**
 * The result pipeline of app/actions/search.ts: keep the visual matches that carry a price,
 * score each one and return them sorted by score, highest first.
 */
module Ranking {
  import opened Wrappers
  import opened Text

  /** The `price` object of a provider record; either field may be missing. */
  datatype RawPrice = RawPrice(extractedValue: Option<real>, currency: Option<string>)

  /** One entry of the provider's `visual_matches`; every field may be missing. */
  datatype RawMatch = RawMatch(
    title: Option<string>,
    source: Option<string>,
    link: Option<string>,
    thumbnail: Option<string>,
    price: Option<RawPrice>)

  datatype Price = Price(amount: Option<real>, currency: Option<string>)

  /** A ranked listing handed back to the page. */
  datatype ProductMatch = ProductMatch(
    title: Option<string>,
    price: Price,
    thumbnail: Option<string>,
    source: Option<string>,
    link: Option<string>,
    score: real)

  /** Store-name fragments that earn the bonus. */
  const VerifiedStores: seq<string> := ["amazon", "flipkart", "myntra", "ajio", "tata"]
  const StoreBonus: real := 20.0
  const PriceScale: real := 10000.0

  /** `price || 1`: a missing or zero price divides as 1. */
  function Divisor(extracted: Option<real>): (d: real)
    ensures d != 0.0
    ensures extracted.Some? && extracted.value != 0.0 ==> d == extracted.value
  {
    if extracted.None? || extracted.value == 0.0 then 1.0 else extracted.value
  }

  /** `item.source?.toLowerCase() || ''` contains one of the verified store fragments. */
  predicate FromVerifiedStore(source: Option<string>) {
    exists i :: 0 <= i < |VerifiedStores| && Contains(ToLower(source.GetOr("")), VerifiedStores[i])
  }

  /** The ranking score of a priced record: `10000 / (price || 1)`, plus 20 for a verified store. */
  function Score(m: RawMatch): (r: real)
    requires m.price.Some?
    ensures m.price.value.extractedValue.Some? && m.price.value.extractedValue.value >= 1.0 ==>
              0.0 < r <= PriceScale + StoreBonus
  {
    PriceScale / Divisor(m.price.value.extractedValue) + (if FromVerifiedStore(m.source) then StoreBonus else 0.0)
  }

  /** `filter(item => item.price)`: the records that carry a price object, in their order. */
  function KeepPriced(ms: seq<RawMatch>): (r: seq<RawMatch>)
    ensures |r| <= |ms|
    ensures forall m :: m in r <==> m in ms && m.price.Some?
  {
    if ms == [] then []
    else if ms[0].price.Some? then [ms[0]] + KeepPriced(ms[1..])
    else KeepPriced(ms[1..])
  }

  /** A priced record is kept as many times as it occurs; a record without a price never. */
  lemma {:induction false} KeepPricedCounts(ms: seq<RawMatch>)
    ensures forall m :: multiset(KeepPriced(ms))[m] == if m.price.Some? then multiset(ms)[m] else 0
  {
    if ms != [] {
      KeepPricedCounts(ms[1..]);
      assert ms == [ms[0]] + ms[1..];
      assert multiset(ms) == multiset{ms[0]} + multiset(ms[1..]);
    }
  }

  /** The filter works record by record: filtering a concatenation concatenates the filtered parts. */
  lemma {:induction false} KeepPricedAppend(a: seq<RawMatch>, b: seq<RawMatch>)
    ensures KeepPriced(a + b) == KeepPriced(a) + KeepPriced(b)
  {
    if a == [] {
      assert a + b == b;
    } else {
      assert (a + b)[1..] == a[1..] + b;
      KeepPricedAppend(a[1..], b);
    }
  }

  /** The `map` step: copy the fields of one priced record and attach its score. */
  function ToProduct(m: RawMatch): ProductMatch
    requires m.price.Some?
  {
    ProductMatch(
      m.title,
      Price(m.price.value.extractedValue, m.price.value.currency),
      m.thumbnail,
      m.source,
      m.link,
      Score(m))
  }

  function MapToProducts(ms: seq<RawMatch>): (r: seq<ProductMatch>)
    requires forall m :: m in ms ==> m.price.Some?
    ensures |r| == |ms|
    ensures forall i :: 0 <= i < |ms| ==> r[i] == ToProduct(ms[i])
  {
    if ms == [] then [] else [ToProduct(ms[0])] + MapToProducts(ms[1..])
  }

  /** The mapped list `cleanResults`, before sorting. */
  function Clean(ms: seq<RawMatch>): seq<ProductMatch> {
    MapToProducts(KeepPriced(ms))
  }

  lemma {:induction false} MapToProductsAppend(a: seq<RawMatch>, b: seq<RawMatch>)
    requires forall m :: m in a + b ==> m.price.Some?
    ensures MapToProducts(a + b) == MapToProducts(a) + MapToProducts(b)
  {
    assert forall m :: m in a ==> m in a + b;
    assert forall m :: m in b ==> m in a + b;
  }

  /**
   * `cleanResults` follows the provider's order: the cleaned list of a concatenation is the
   * concatenation of the cleaned parts, and one record gives its product or nothing.
   */
  lemma CleanAppend(a: seq<RawMatch>, b: seq<RawMatch>)
    ensures Clean(a + b) == Clean(a) + Clean(b)
    ensures forall m :: Clean([m]) == if m.price.Some? then [ToProduct(m)] else []
  {
    KeepPricedAppend(a, b);
    MapToProductsAppend(KeepPriced(a), KeepPriced(b));
    forall m ensures Clean([m]) == if m.price.Some? then [ToProduct(m)] else [] {
      assert [m][1..] == [];
    }
  }

  // ---------------------------------------------------------------------------------------
  // Sorting: `cleanResults.sort((a, b) => b.score - a.score)`, a stable sort on a descending key.

  predicate SortedByScore(xs: seq<ProductMatch>) {
    forall i, j :: 0 <= i < j < |xs| ==> xs[i].score >= xs[j].score
  }

  /** The elements of `xs` whose score is `v`, in their order in `xs`. */
  function WithScore(xs: seq<ProductMatch>, v: real): seq<ProductMatch> {
    if xs == [] then []
    else (if xs[0].score == v then [xs[0]] else []) + WithScore(xs[1..], v)
  }

  /** Put `x` in front of the first element of `ys` whose score does not exceed its own. */
  function Insert(x: ProductMatch, ys: seq<ProductMatch>): seq<ProductMatch> {
    if ys == [] || ys[0].score <= x.score then [x] + ys
    else [ys[0]] + Insert(x, ys[1..])
  }

  /** A stable insertion sort, highest score first. */
  function SortByScore(xs: seq<ProductMatch>): seq<ProductMatch> {
    if xs == [] then [] else Insert(xs[0], SortByScore(xs[1..]))
  }

  lemma {:induction false} InsertPermutes(x: ProductMatch, ys: seq<ProductMatch>)
    ensures multiset(Insert(x, ys)) == multiset([x] + ys)
  {
    if ys != [] && ys[0].score > x.score {
      InsertPermutes(x, ys[1..]);
      assert ys == [ys[0]] + ys[1..];
    }
  }

  /** The sorted list is a permutation of the input. */
  lemma {:induction false} SortPermutes(xs: seq<ProductMatch>)
    ensures multiset(SortByScore(xs)) == multiset(xs)
  {
    if xs != [] {
      SortPermutes(xs[1..]);
      InsertPermutes(xs[0], SortByScore(xs[1..]));
      assert xs == [xs[0]] + xs[1..];
    }
  }

  lemma {:induction false} InsertSorted(x: ProductMatch, ys: seq<ProductMatch>)
    requires SortedByScore(ys)
    ensures SortedByScore(Insert(x, ys))
  {
    if ys != [] && ys[0].score > x.score {
      var rest := Insert(x, ys[1..]);
      InsertSorted(x, ys[1..]);
      InsertPermutes(x, ys[1..]);
      forall k | 0 <= k < |rest| ensures ys[0].score >= rest[k].score {
        assert rest[k] in multiset(rest);
        assert rest[k] in multiset([x] + ys[1..]);
        if rest[k] != x {
          assert rest[k] in ys[1..];
        }
      }
    }
  }

  /** The sorted list is ordered by non-increasing score. */
  lemma {:induction false} SortSorted(xs: seq<ProductMatch>)
    ensures SortedByScore(SortByScore(xs))
  {
    if xs != [] {
      SortSorted(xs[1..]);
      InsertSorted(xs[0], SortByScore(xs[1..]));
    }
  }

  lemma {:induction false} WithScoreAppend(a: seq<ProductMatch>, b: seq<ProductMatch>, v: real)
    ensures WithScore(a + b, v) == WithScore(a, v) + WithScore(b, v)
  {
    if a == [] {
      assert a + b == b;
    } else {
      WithScoreAppend(a[1..], b, v);
      assert (a + b)[1..] == a[1..] + b;
    }
  }

  lemma {:induction false} InsertStable(x: ProductMatch, ys: seq<ProductMatch>, v: real)
    ensures WithScore(Insert(x, ys), v) == WithScore([x] + ys, v)
  {
    if ys != [] && ys[0].score > x.score {
      var y, rest := ys[0], ys[1..];
      var inserted := Insert(x, rest);
      InsertStable(x, rest, v);
      assert ([y] + inserted)[1..] == inserted;
      assert ([x] + rest)[1..] == rest;
      assert ([x] + ys)[1..] == ys;
      var wx := if x.score == v then [x] else [];
      var wy := if y.score == v then [y] else [];
      assert WithScore(Insert(x, ys), v) == wy + (wx + WithScore(rest, v));
      assert WithScore([x] + ys, v) == wx + (wy + WithScore(rest, v));
      assert wx == [] || wy == [];
    }
  }

  /** Stability: the matches of any one score keep their input order. */
  lemma {:induction false} SortStable(xs: seq<ProductMatch>, v: real)
    ensures WithScore(SortByScore(xs), v) == WithScore(xs, v)
  {
    if xs != [] {
      SortStable(xs[1..], v);
      InsertStable(xs[0], SortByScore(xs[1..]), v);
      WithScoreAppend([xs[0]], SortByScore(xs[1..]), v);
      WithScoreAppend([xs[0]], xs[1..], v);
      assert xs == [xs[0]] + xs[1..];
    }
  }

  /** A list already in score order is left as it is. */
  lemma {:induction false} SortKeepsSorted(xs: seq<ProductMatch>)
    requires SortedByScore(xs)
    ensures SortByScore(xs) == xs
  {
    if xs != [] {
      SortKeepsSorted(xs[1..]);
      assert xs == [xs[0]] + xs[1..];
    }
  }

  /** Sorting twice gives the same list as sorting once. */
  lemma SortIdempotent(xs: seq<ProductMatch>)
    ensures SortByScore(SortByScore(xs)) == SortByScore(xs)
  {
    SortSorted(xs);
    SortKeepsSorted(SortByScore(xs));
  }

  // ---------------------------------------------------------------------------------------
  // The whole pipeline.

  /**
   * What `searchProduct` returns for the provider's `visual_matches`: nothing when the field is
   * absent, otherwise the priced records, mapped and sorted by score.
   */
  function Rank(visualMatches: Option<seq<RawMatch>>): seq<ProductMatch> {
    match visualMatches
    case None => []
    case Some(ms) => SortByScore(Clean(ms))
  }

  /**
   * The ranked list holds exactly the mapped priced records (as a multiset: a permutation of
   * `cleanResults`), ordered by non-increasing score, with ties in input order.
   */
  lemma RankSpec(ms: seq<RawMatch>)
    ensures multiset(Rank(Some(ms))) == multiset(Clean(ms))
    ensures SortedByScore(Rank(Some(ms)))
    ensures forall v :: WithScore(Rank(Some(ms)), v) == WithScore(Clean(ms), v)
  {
    SortPermutes(Clean(ms));
    SortSorted(Clean(ms));
    forall v ensures WithScore(Rank(Some(ms)), v) == WithScore(Clean(ms), v) {
      SortStable(Clean(ms), v);
    }
  }

  /**
   * A record is represented in the ranked list exactly when it carries a price, whatever its
   * currency and amount: no currency or positivity filter is applied.
   */
  lemma RankMembers(ms: seq<RawMatch>)
    ensures forall m :: m in ms && m.price.Some? ==> ToProduct(m) in Rank(Some(ms))
    ensures forall p :: p in Rank(Some(ms)) ==> exists m :: m in ms && m.price.Some? && p == ToProduct(m)
  {
    var kept := KeepPriced(ms);
    var clean := Clean(ms);
    SortPermutes(clean);
    forall m | m in ms && m.price.Some? ensures ToProduct(m) in Rank(Some(ms)) {
      var i :| 0 <= i < |kept| && kept[i] == m;
      assert clean[i] == ToProduct(m);
      assert ToProduct(m) in multiset(clean);
    }
    forall p | p in Rank(Some(ms)) ensures exists m :: m in ms && m.price.Some? && p == ToProduct(m) {
      assert p in multiset(clean);
      var i :| 0 <= i < |clean| && clean[i] == p;
      assert kept[i] in kept;
    }
  }

  /** An absent `visual_matches` field gives an empty list. */
  lemma RankAbsent()
    ensures Rank(None) == []
  {
  }

  // ---------------------------------------------------------------------------------------
  // The score.

  /** At equal price, a record from a verified store scores exactly 20 more. */
  lemma ScoreStoreBonus(a: RawMatch, b: RawMatch)
    requires a.price.Some? && b.price.Some?
    requires a.price.value.extractedValue == b.price.value.extractedValue
    requires FromVerifiedStore(a.source) && !FromVerifiedStore(b.source)
    ensures Score(a) == Score(b) + StoreBonus
  {
  }

  /** At equal store status, a lower positive price scores strictly higher. */
  lemma ScoreLowerPriceHigher(a: RawMatch, b: RawMatch)
    requires a.price.Some? && b.price.Some?
    requires a.price.value.extractedValue.Some? && b.price.value.extractedValue.Some?
    requires 0.0 < a.price.value.extractedValue.value < b.price.value.extractedValue.value
    requires FromVerifiedStore(a.source) == FromVerifiedStore(b.source)
    ensures Score(a) > Score(b)
  {
    var pa, pb := a.price.value.extractedValue.value, b.price.value.extractedValue.value;
    assert PriceScale / pa > PriceScale / pb by {
      assert PriceScale / pb * pb == PriceScale;
      assert PriceScale / pa * pa == PriceScale;
    }
  }

  /** A missing or zero price scores as a price of 1. */
  lemma ScoreWithoutPrice(m: RawMatch)
    requires m.price.Some?
    requires m.price.value.extractedValue.None? || m.price.value.extractedValue == Some(0.0)
    ensures Score(m) == PriceScale + (if FromVerifiedStore(m.source) then StoreBonus else 0.0)
  {
  }

  /** The store test ignores letter case. */
  lemma StoreTestIgnoresCase(s: string)
    ensures FromVerifiedStore(Some(s)) == FromVerifiedStore(Some(ToLower(s)))
  {
    ToLowerIdempotent(s);
  }

  /**
   * A source that names a verified store anywhere, in lower case, earns the bonus whatever
   * surrounds it; a missing source never does, since `''` contains no store name.
   */
  lemma StoreNamedAnywhere(before: string, after: string, k: int)
    requires 0 <= k < |VerifiedStores|
    ensures FromVerifiedStore(Some(before + VerifiedStores[k] + after))
    ensures !FromVerifiedStore(None)
  {
    var store := VerifiedStores[k];
    ToLowerAppend(before, store);
    ToLowerAppend(before + store, after);
    assert ToLower(store) == store;
    var low := ToLower(before) + store + ToLower(after);
    assert low[|before|..|before| + |store|] == store;
    ContainsAt(low, store, |before|);
    assert ToLower("") == "";
  }

  /** The `map` step copies every field of the record unchanged; only the score is added. */
  lemma ToProductCopies(m: RawMatch)
    requires m.price.Some?
    ensures ToProduct(m).title == m.title && ToProduct(m).thumbnail == m.thumbnail
    ensures ToProduct(m).source == m.source && ToProduct(m).link == m.link
    ensures ToProduct(m).price.amount == m.price.value.extractedValue
    ensures ToProduct(m).price.currency == m.price.value.currency
    ensures ToProduct(m).score == Score(m)
  {
  }

  // ---------------------------------------------------------------------------------------
  // A worked example: an Amazon listing in INR, a listing in USD and a zero-priced listing.
  // All three carry a price object, so all three are kept; the zero price divides as 1 and
  // ranks first.

  lemma AmazonIsVerified()
    ensures FromVerifiedStore(Some("Amazon.in"))
  {
    assert ToLower("Amazon.in") == "amazon.in";
    assert OccursAt("amazon.in", VerifiedStores[0], 0);
    ContainsAt("amazon.in", VerifiedStores[0], 0);
  }

  lemma FooIsNotVerified()
    ensures !FromVerifiedStore(Some("Foo")) && !FromVerifiedStore(None)
  {
    assert ToLower("Foo") == "foo";
  }

  lemma {:induction false} SortThreeDistinct(x: ProductMatch, y: ProductMatch, z: ProductMatch)
    requires z.score > x.score > y.score
    ensures SortByScore([x, y, z]) == [z, x, y]
  {
    assert [x, y, z][1..] == [y, z];
    assert [y, z][1..] == [z];
    assert [z][1..] == [];
    assert SortByScore([z]) == Insert(z, []) == [z];
    assert Insert(y, [z]) == [z] + Insert(y, []) == [z, y];
    assert [z, y][1..] == [y];
    assert Insert(x, [y]) == [x, y];
    assert Insert(x, [z, y]) == [z] + Insert(x, [y]);
  }

  lemma {:induction false} CleanThree(a: RawMatch, b: RawMatch, c: RawMatch)
    requires a.price.Some? && b.price.Some? && c.price.Some?
    ensures Clean([a, b, c]) == [ToProduct(a), ToProduct(b), ToProduct(c)]
  {
    assert [a, b, c][1..] == [b, c];
    assert [b, c][1..] == [c];
    assert KeepPriced([a, b, c]) == [a, b, c];
  }

  lemma ExampleMixedListings(a: RawMatch, b: RawMatch, c: RawMatch)
    requires a == RawMatch(None, Some("Amazon.in"), None, None, Some(RawPrice(Some(500.0), Some("INR"))))
    requires b == RawMatch(None, None, None, None, Some(RawPrice(Some(300.0), Some("USD"))))
    requires c == RawMatch(None, Some("Foo"), None, None, Some(RawPrice(Some(0.0), None)))
    ensures Score(a) == 40.0 && Score(b) == PriceScale / 300.0 && Score(c) == PriceScale
    ensures Rank(Some([a, b, c])) == [ToProduct(c), ToProduct(a), ToProduct(b)]
  {
    AmazonIsVerified();
    FooIsNotVerified();
    CleanThree(a, b, c);
    SortThreeDistinct(ToProduct(a), ToProduct(b), ToProduct(c));
  }
}
