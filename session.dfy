/**
 * The module-level state of app.js (`ROWS`, `YEARS`, `LUNR_INDEX`,
 * `EMBEDDINGS`) and the loaders that fill it at boot, as one object whose
 * fields the loaders reassign.
 */
module Session {
  import opened Wrappers
  import opened Rows
  import opened Retrieval

  /** What `fetch(CSV_URL)` and the CSV parser deliver: a failed response, or the header and records. */
  datatype CsvResponse =
    | CsvHttpError(status: int)
    | CsvBody(header: seq<string>, records: seq<RawRow>)

  /** What `fetch(EMB_URL)` and `res.json()` deliver. */
  datatype EmbeddingsResponse =
    | EmbHttpError                        // `!res.ok`
    | EmbUnreadable                       // the fetch or the JSON parse throws
    | EmbArray(vectors: seq<Vector>)      // a JSON array, one vector per entry
    | EmbOther                            // any other JSON value (`null`, a number, a string, an object)

  class Session {
    var rows: seq<Row>
    var years: seq<Year>
    var index: Option<KeywordIndex>
    var embeddings: Option<seq<Vector>>

    /** Every row was derived from the current year columns. */
    ghost predicate RowsLoaded()
      reads this
    {
      forall i :: 0 <= i < |rows| ==> WellFormedRow(years, rows[i])
    }

    /** Embeddings, when present, are one per row. */
    ghost predicate Aligned()
      reads this
    {
      embeddings.Some? ==> |embeddings.value| == |rows|
    }

    /** The keyword index, when built, refers to rows of the store only. */
    ghost predicate Indexed()
      reads this
    {
      index.Some? ==> forall q :: ValidHits(index.value.search(q), |rows|)
    }

    ghost predicate Valid()
      reads this
    {
      RowsLoaded() && Aligned() && Indexed()
    }

    /** The initial values of the globals: no rows, no years, no index, no embeddings. */
    constructor()
      ensures rows == [] && years == [] && index == None && embeddings == None
      ensures Valid()
    {
      rows, years, index, embeddings := [], [], None, None;
    }

    /**
     * `loadCSV`: a failed response throws (the error carries the status) and
     * leaves the state as it was; otherwise the year columns are the four-digit
     * headers and every record becomes a row.
     */
    method LoadCSV(res: CsvResponse) returns (failure: Option<int>)
      modifies this
      ensures res.CsvHttpError? ==> failure == Some(res.status) && unchanged(this)
      ensures res.CsvBody? ==>
        && failure == None
        && years == YearColumns(res.header)
        && |rows| == |res.records|
        && (forall i :: 0 <= i < |rows| ==> rows[i] == RowOf(years, res.records[i]))
        && index == old(index) && embeddings == old(embeddings)
      ensures RowsLoaded() || res.CsvHttpError?
      ensures old(index) == None && old(embeddings) == None && res.CsvBody? ==> Valid()
    {
      if res.CsvHttpError? {
        return Some(res.status);
      }
      var ys := YearColumns(res.header);
      var loaded: seq<Row> := [];
      for i := 0 to |res.records|
        invariant |loaded| == i
        invariant index == old(index) && embeddings == old(embeddings)
        invariant forall j :: 0 <= j < i ==> loaded[j] == RowOf(ys, res.records[j]) && WellFormedRow(ys, loaded[j])
      {
        var r := LoadRow(ys, res.records[i]);
        loaded := loaded + [r];
      }
      rows, years := loaded, ys;
      assert RowsLoaded();
      failure := None;
    }

    /**
     * `loadEmbeddings`: all or nothing. A failed fetch or parse keeps what was
     * there; a parsed file is kept only when it has exactly one entry per row.
     */
    method LoadEmbeddings(res: EmbeddingsResponse)
      modifies this
      ensures rows == old(rows) && years == old(years) && index == old(index)
      ensures (res.EmbHttpError? || res.EmbUnreadable?) ==> embeddings == old(embeddings)
      ensures res.EmbOther? ==> embeddings == None
      ensures res.EmbArray? && |res.vectors| == |rows| ==> embeddings == Some(res.vectors)
      ensures res.EmbArray? && |res.vectors| != |rows| ==> embeddings == None
      ensures old(Aligned()) ==> Aligned()
      ensures old(Valid()) ==> Valid()
    {
      match res
      case EmbHttpError =>
      case EmbUnreadable =>
      case EmbOther =>
        embeddings := None;
      case EmbArray(vectors) =>
        embeddings := Some(vectors);
        if |vectors| != |rows| {
          embeddings := None;
        }
    }

    /**
     * `buildLunrIndex`: the engine indexes row `i` under the reference `i`,
     * so every hit it can return names a row.
     */
    method BuildLunrIndex(engine: KeywordIndex)
      requires forall q :: ValidHits(engine.search(q), |rows|)
      modifies this
      ensures index == Some(engine)
      ensures rows == old(rows) && years == old(years) && embeddings == old(embeddings)
      ensures old(Valid()) ==> Valid()
    {
      index := Some(engine);
    }

    /** The state the queries read, once the index is built. */
    function Snapshot(): (c: Catalog)
      reads this
      requires index.Some?
      ensures c.rows == rows && c.years == years && c.index == index.value && c.embeddings == embeddings
      ensures Valid() ==> ValidCatalog(c)
    {
      Catalog(rows, years, index.value, embeddings)
    }
  }
}
