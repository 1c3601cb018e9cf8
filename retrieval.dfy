/**
 * The three retrievers of app.js over the loaded catalog: keyword search
 * (a prefix of the keyword engine's ranking), the embedding-based re-ranking
 * with its guards, and their reciprocal rank fusion.
 */
module Retrieval {
  import opened Wrappers
  import opened Sorting
  import opened Rows
  import opened Fusion

  /**
   * The keyword engine (lunr) as the core sees it: for every query, the row
   * indices it finds, best first. How it tokenises and scores is its own.
   */
  datatype KeywordIndex = KeywordIndex(search: string -> seq<nat>)

  type Vector = seq<real>

  /** The state every query reads once boot is over: `ROWS`, `YEARS`, `LUNR_INDEX`, `EMBEDDINGS`. */
  datatype Catalog = Catalog(
    rows: seq<Row>,
    years: seq<Year>,
    index: KeywordIndex,
    embeddings: Option<seq<Vector>>)

  /** Row identifiers that name rows of the store, each at most once. */
  ghost predicate ValidHits(hits: seq<nat>, n: nat) {
    Distinct(hits) && forall j :: 0 <= j < |hits| ==> hits[j] < n
  }

  /**
   * The index was built over the rows (its references are `0 .. |rows| - 1`),
   * and the embeddings, when present, are one per row.
   */
  ghost predicate ValidCatalog(c: Catalog) {
    && (forall q :: ValidHits(c.index.search(q), |c.rows|))
    && (c.embeddings.Some? ==> |c.embeddings.value| == |c.rows|)
  }

  /** `keywordSearch(q, k)`: the first `k` hits of the engine, in its order. */
  function KeywordSearch(c: Catalog, q: string, k: nat): (r: seq<nat>)
    ensures |r| == Min(k, |c.index.search(q)|)
    ensures r == c.index.search(q)[..|r|]
    ensures k == 0 ==> r == []
    ensures ValidCatalog(c) ==> ValidHits(r, |c.rows|)
  {
    var hits := c.index.search(q);
    hits[..Min(k, |hits|)]
  }

  /** `0, 1, ..., n - 1`: the `idx` of `EMBEDDINGS.map((v, idx) => ...)`. */
  function Indices(n: nat): (r: seq<nat>)
    ensures |r| == n && forall i :: 0 <= i < n ==> r[i] == i
  {
    seq(n, i requires 0 <= i < n => i)
  }

  /** How many keyword hits seed the centroid: `Math.max(k, 30)`. */
  function SeedCount(k: nat): nat { Max(k, 30) }

  /**
   * `semanticSearch(q, k)`. `cosine(seeds, idx)` stands for the cosine
   * similarity of row `idx`'s vector to the centroid of the seed rows'
   * vectors, a floating-point computation this model does not carry out.
   */
  function SemanticSearch(c: Catalog, q: string, k: nat, cosine: (seq<nat>, nat) -> real): (r: seq<nat>)
    requires ValidCatalog(c)
    ensures c.embeddings.None? ==> r == []
    ensures KeywordSearch(c, q, SeedCount(k)) == [] ==> r == []
    ensures |r| <= k && ValidHits(r, |c.rows|)
    ensures c.embeddings.Some? && KeywordSearch(c, q, SeedCount(k)) != [] ==>
      && |r| == Min(k, |c.rows|)
      && SortedDesc(r, (idx: nat) => cosine(KeywordSearch(c, q, SeedCount(k)), idx))
  {
    if c.embeddings.None? then []
    else
      var seeds := KeywordSearch(c, q, SeedCount(k));
      if |seeds| == 0 then []
      else
        var all := Indices(|c.embeddings.value|);
        var scored := SortDesc(all, (idx: nat) => cosine(seeds, idx));
        PermutationKeepsDistinct(all, scored);
        assert forall j :: 0 <= j < |scored| ==> scored[j] in multiset(all);
        scored[..Min(k, |scored|)]
  }

  /** `rrfFuse(q, k)`: fusion of the keyword and semantic lists of length `k`, with damping 60. */
  method RrfFuse(c: Catalog, q: string, k: nat, cosine: (seq<nat>, nat) -> real) returns (r: seq<nat>)
    requires ValidCatalog(c)
    ensures var fused := FusedOrder([KeywordSearch(c, q, k), SemanticSearch(c, q, k, cosine)], DampingK);
      r == fused[..Min(k, |fused|)]
    ensures |r| <= k && ValidHits(r, |c.rows|)
    ensures forall id :: id in r ==> id in KeywordSearch(c, q, k) || id in SemanticSearch(c, q, k, cosine)
    ensures c.embeddings.None? ==> r == KeywordSearch(c, q, k)
  {
    var a := KeywordSearch(c, q, k);
    var b := SemanticSearch(c, q, k, cosine);
    r := Rrf(a, b, k, DampingK);
    HitsOfUnion(a, b, r, |c.rows|);
    if c.embeddings.None? {
      assert b == [];
      FusionOfSingleList(a, DampingK);
      assert r == a[..|a|] == a;
    }
  }

  /** Identifiers drawn from two valid hit lists are valid when they are distinct. */
  lemma HitsOfUnion(a: seq<nat>, b: seq<nat>, r: seq<nat>, n: nat)
    requires ValidHits(a, n) && ValidHits(b, n) && Distinct(r)
    requires forall id :: id in r ==> id in a || id in b
    ensures ValidHits(r, n)
  {
    forall j | 0 <= j < |r|
      ensures r[j] < n
    {
      assert r[j] in r;
    }
  }
}
