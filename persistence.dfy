/**
  The rows save_chunks (index_documents.py) hands to the database: one row
  per chunk and its embedding, after a check that there are as many
  embeddings as chunks. The embedding is opaque (type E) and the clock is a
  parameter: `clock(i)` is the time read for the i-th row (type T).
 */
module Persistence {
  import opened Common

  /** A row of document_chunks: chunk_text, embedding, filename, strategy_split, created_at. */
  datatype Row<E, T> = Row(chunkText: string, embedding: E, filename: string, strategy: string, createdAt: T)

  /** The chunk_text column. */
  function ChunkTexts<E, T>(rows: seq<Row<E, T>>): (texts: seq<string>)
    ensures |texts| == |rows|
  {
    seq(|rows|, i requires 0 <= i < |rows| => rows[i].chunkText)
  }

  /** The embedding column. */
  function Embeddings<E, T>(rows: seq<Row<E, T>>): (es: seq<E>)
    ensures |es| == |rows|
  {
    seq(|rows|, i requires 0 <= i < |rows| => rows[i].embedding)
  }

  /** Every row names the same file and strategy. */
  predicate SameSource<E, T>(rows: seq<Row<E, T>>, filename: string, strategy: string) {
    forall i :: 0 <= i < |rows| ==> rows[i].filename == filename && rows[i].strategy == strategy
  }

  /**
    The rows save_chunks builds when the counts agree. Nothing is lost or
    reordered: the two columns are the chunks and the embeddings, every
    row carries the file name and the strategy given, and row i is stamped
    with the i-th clock reading.
   */
  function Rows<E, T>(chunks: seq<string>, embeddings: seq<E>, filename: string, strategy: string, clock: nat -> T)
    : (rows: seq<Row<E, T>>)
    requires |chunks| == |embeddings|
    ensures |rows| == |chunks|
    ensures ChunkTexts(rows) == chunks && Embeddings(rows) == embeddings
    ensures SameSource(rows, filename, strategy)
    ensures forall i :: 0 <= i < |rows| ==> rows[i].createdAt == clock(i)
  {
    seq(|chunks|, i requires 0 <= i < |chunks| => Row(chunks[i], embeddings[i], filename, strategy, clock(i)))
  }

  /**
    save_chunks up to the insert: a count mismatch fails before any row is
    built; otherwise one row per chunk, in order.
   */
  method BuildRows<E, T>(chunks: seq<string>, embeddings: seq<E>, filename: string, strategy: string, clock: nat -> T)
    returns (r: Result<seq<Row<E, T>>>)
    ensures r.Err? <==> |chunks| != |embeddings|
    ensures r.Err? ==> r.error == CountMismatch
    ensures r.Ok? ==> r.value == Rows(chunks, embeddings, filename, strategy, clock)
  {
    if |chunks| != |embeddings| {
      return Err(CountMismatch);
    }
    var rows: seq<Row<E, T>> := [];
    for k := 0 to |chunks|
      invariant |rows| == k
      invariant forall j :: 0 <= j < k ==> rows[j] == Row(chunks[j], embeddings[j], filename, strategy, clock(j))
    {
      rows := rows + [Row(chunks[k], embeddings[k], filename, strategy, clock(k))];
    }
    r := Ok(rows);
  }
}
