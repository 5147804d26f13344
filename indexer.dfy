/**
 * The row plan of the indexing script's `build`: keep the `.txt` entries of the
 * knowledge-base listing, chunk each file's text with the default chunk size and
 * overlap, and insert one `(source, chunk_text, embedding)` row per chunk, file by
 * file in listing order and chunk by chunk in chunk order. The table is published
 * only when at least one `.txt` file was found.
 */
module Indexer {
  import opened Words
  import opened Chunker
  import opened Seqs

  /** A directory entry of the knowledge base together with the text it holds. */
  datatype Document = Document(name: string, text: string)

  /** One row of the `embeddings` table; the auto-increment id is the row's position. */
  datatype Row<V> = Row(source: string, chunkText: string, embedding: V)

  /** The name ends with the `.txt` extension. */
  predicate IsTextFile(name: string) {
    |name| >= 4 && name[|name| - 4..] == ".txt"
  }

  /** The listing filtered to `.txt` names, order kept. */
  function TextFiles(listing: seq<Document>): (files: seq<Document>)
    ensures |files| <= |listing|
    ensures forall d :: d in files ==> d in listing && IsTextFile(d.name)
    ensures forall d :: d in listing && IsTextFile(d.name) ==> d in files
    ensures |listing| == 1 ==> files == if IsTextFile(listing[0].name) then listing else []
  {
    if listing == [] then []
    else
      var rest := TextFiles(listing[1..]);
      assert forall d :: d in listing ==> d == listing[0] || d in listing[1..];
      if IsTextFile(listing[0].name) then [listing[0]] + rest else rest
  }

  /** The chunks of a file's text with the default chunk size and overlap. */
  function DocumentChunks(text: string): seq<string> {
    Chunks(Split(text), DefaultChunkSize, DefaultOverlap)
  }

  /** The rows inserted for one file: one per chunk, in chunk order. */
  function FileRows<V>(name: string, chunks: seq<string>, embed: string -> V): (rows: seq<Row<V>>)
    ensures |rows| == |chunks|
    ensures forall k :: 0 <= k < |chunks| ==> rows[k] == Row(name, chunks[k], embed(chunks[k]))
  {
    if chunks == [] then []
    else [Row(name, chunks[0], embed(chunks[0]))] + FileRows(name, chunks[1..], embed)
  }

  /** The rows inserted for a sequence of files: each file's rows, files in order. */
  function Rows<V>(files: seq<Document>, embed: string -> V): seq<Row<V>> {
    if files == [] then []
    else FileRows(files[0].name, DocumentChunks(files[0].text), embed) + Rows(files[1..], embed)
  }

  /** Sum of the per-file chunk counts. */
  function TotalChunks(files: seq<Document>): nat {
    if files == [] then 0 else |DocumentChunks(files[0].text)| + TotalChunks(files[1..])
  }

  /**
   * `build` with the file system, SQLite, the embedding service and the upload
   * abstracted: `listing` stands for `os.listdir` plus the files' contents, `embed`
   * for the embedding call, `table` for the rows committed to the fresh table, and
   * `uploaded` for whether the table file was published.
   */
  method Build<V>(listing: seq<Document>, embed: string -> V) returns (table: seq<Row<V>>, uploaded: bool)
    ensures table == Rows(TextFiles(listing), embed)
    ensures uploaded <==> TextFiles(listing) != []
  {
    table := [];
    uploaded := false;
    var files := TextFiles(listing);
    if |files| == 0 {
      return;
    }
    var j := 0;
    while j < |files|
      invariant 0 <= j <= |files|
      invariant table == Rows(files[..j], embed)
    {
      var doc := files[j];
      var chunks := ChunkText(doc.text, DefaultChunkSize, DefaultOverlap);
      var k := 0;
      while k < |chunks|
        invariant 0 <= k <= |chunks|
        invariant table == Rows(files[..j], embed) + FileRows(doc.name, chunks[..k], embed)
      {
        var vec := embed(chunks[k]);
        FileRowsGrow(doc.name, chunks, k, embed);
        AppendAssociates(Rows(files[..j], embed), FileRows(doc.name, chunks[..k], embed), [Row(doc.name, chunks[k], vec)]);
        table := table + [Row(doc.name, chunks[k], vec)];
        k := k + 1;
      }
      assert chunks[..k] == chunks;
      RowsOfOne(doc, embed);
      RowsAppend(files[..j], [doc], embed);
      assert files[..j + 1] == files[..j] + [doc];
      j := j + 1;
    }
    assert files[..j] == files;
    uploaded := true;
  }

  lemma FileRowsGrow<V>(name: string, chunks: seq<string>, k: nat, embed: string -> V)
    requires k < |chunks|
    ensures FileRows(name, chunks[..k + 1], embed) == FileRows(name, chunks[..k], embed) + [Row(name, chunks[k], embed(chunks[k]))]
  {
    var a, b := FileRows(name, chunks[..k + 1], embed), FileRows(name, chunks[..k], embed) + [Row(name, chunks[k], embed(chunks[k]))];
    assert |a| == |b|;
    forall m | 0 <= m < |a| ensures a[m] == b[m] {
      assert chunks[..k + 1][m] == chunks[m];
      if m < k {
        assert chunks[..k][m] == chunks[m];
      }
    }
  }

  lemma RowsOfOne<V>(doc: Document, embed: string -> V)
    ensures Rows([doc], embed) == FileRows(doc.name, DocumentChunks(doc.text), embed)
  {
    assert [doc][1..] == [];
    AppendEmpty(FileRows(doc.name, DocumentChunks(doc.text), embed));
  }

  /** Rows respect listing order: the rows of two consecutive runs of files are those of the first run, then those of the second. */
  lemma {:induction false} RowsAppend<V>(a: seq<Document>, b: seq<Document>, embed: string -> V)
    ensures Rows(a + b, embed) == Rows(a, embed) + Rows(b, embed)
  {
    if a == [] {
      assert a + b == b;
    } else {
      assert (a + b)[0] == a[0];
      assert (a + b)[1..] == a[1..] + b;
      RowsAppend(a[1..], b, embed);
      AppendAssociates(FileRows(a[0].name, DocumentChunks(a[0].text), embed), Rows(a[1..], embed), Rows(b, embed));
    }
  }

  /** One row per chunk: the row count is the sum of the per-file chunk counts. */
  lemma {:induction false} RowCount<V>(files: seq<Document>, embed: string -> V)
    ensures |Rows(files, embed)| == TotalChunks(files)
  {
    if files != [] {
      RowCount(files[1..], embed);
    }
  }

  /**
   * Position of each row: the rows of file `j` start after all chunks of the files
   * before it, and row `k` of them holds the file name, chunk `k` and its embedding.
   */
  lemma RowAt<V>(files: seq<Document>, embed: string -> V, j: nat, k: nat)
    requires j < |files| && k < |DocumentChunks(files[j].text)|
    ensures TotalChunks(files[..j]) + k < |Rows(files, embed)|
    ensures var c := DocumentChunks(files[j].text)[k];
            Rows(files, embed)[TotalChunks(files[..j]) + k] == Row(files[j].name, c, embed(c))
  {
    var before, doc, after := files[..j], files[j], files[j + 1..];
    assert files == before + ([doc] + after);
    RowsAppend(before, [doc] + after, embed);
    RowsAppend([doc], after, embed);
    RowsOfOne(doc, embed);
    RowCount(before, embed);
  }

  /**
   * Nothing else is inserted: every row comes from some file `j` and some chunk `k`
   * of it, carries that file's name, and its embedding is that of its chunk text.
   */
  lemma {:induction false} RowOrigin<V>(files: seq<Document>, embed: string -> V, n: nat)
    requires n < |Rows(files, embed)|
    ensures exists j, k :: 0 <= j < |files| && 0 <= k < |DocumentChunks(files[j].text)| &&
              Rows(files, embed)[n] == Row(files[j].name, DocumentChunks(files[j].text)[k], embed(DocumentChunks(files[j].text)[k]))
  {
    var first := FileRows(files[0].name, DocumentChunks(files[0].text), embed);
    if n < |first| {
      assert Rows(files, embed)[n] == first[n];
      var c := DocumentChunks(files[0].text);
      assert Rows(files, embed)[n] == Row(files[0].name, c[n], embed(c[n]));
    } else {
      RowOrigin(files[1..], embed, n - |first|);
      var j, k :| 0 <= j < |files[1..]| && 0 <= k < |DocumentChunks(files[1..][j].text)| &&
              Rows(files[1..], embed)[n - |first|] == Row(files[1..][j].name, DocumentChunks(files[1..][j].text)[k], embed(DocumentChunks(files[1..][j].text)[k]));
      assert files[1..][j] == files[j + 1];
      assert Rows(files, embed)[n] == Rows(files[1..], embed)[n - |first|];
    }
  }

  /**
   * The filter keeps order and multiplicity: filtering two consecutive runs of
   * entries gives the kept entries of the first run, then those of the second.
   */
  lemma {:induction false} TextFilesAppend(a: seq<Document>, b: seq<Document>)
    ensures TextFiles(a + b) == TextFiles(a) + TextFiles(b)
  {
    if a == [] {
      assert a + b == b;
    } else {
      assert (a + b)[0] == a[0];
      assert (a + b)[1..] == a[1..] + b;
      TextFilesAppend(a[1..], b);
      var head := if IsTextFile(a[0].name) then [a[0]] else [];
      AppendAssociates(head, TextFiles(a[1..]), TextFiles(b));
    }
  }

  /** Only `.txt` files feed the table: every row's source is a `.txt` name. */
  lemma RowsOnlyFromTextFiles<V>(listing: seq<Document>, embed: string -> V)
    ensures forall r :: r in Rows(TextFiles(listing), embed) ==> IsTextFile(r.source)
  {
    var files := TextFiles(listing);
    forall r | r in Rows(files, embed) ensures IsTextFile(r.source) {
      var n :| 0 <= n < |Rows(files, embed)| && Rows(files, embed)[n] == r;
      RowOrigin(files, embed, n);
      var j, k :| 0 <= j < |files| && 0 <= k < |DocumentChunks(files[j].text)| &&
                Rows(files, embed)[n] == Row(files[j].name, DocumentChunks(files[j].text)[k], embed(DocumentChunks(files[j].text)[k]));
      assert files[j] in files;
    }
  }
}
