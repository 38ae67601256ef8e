/** Ingestion of a file or a URL into the vector store (ingestion.py): choose
    a loader, stamp every chunk with its provenance, hand the batch to the
    store in one call; and the two wrappers that delete from the store. */
module Ingestion {
  import opened PyStr
  import opened PyPath
  import opened Collaborators

  const SourceTypeKey := "source_type"
  const SourcePathKey := "source_path"

  /** The loader for a lower-cased extension: the `if`/`elif` chain of
      `load_and_ingest_file`. */
  function FileLoader(ext: string): (l: Loader)
    ensures l != WebBaseLoader
    ensures l == PyPdfLoader <==> ext == ".pdf"
    ensures l == UnstructuredMarkdownLoader <==> ext in [".md", ".markdown"]
  {
    if ext == ".pdf" then PyPdfLoader
    else if ext in [".md", ".markdown"] then UnstructuredMarkdownLoader
    else TextLoader
  }

  /** The loader `load_and_ingest_file` constructs for `filePath`. */
  function LoaderFor(filePath: string): (l: Loader)
    ensures l != WebBaseLoader
    ensures l == PyPdfLoader <==> Lower(Ext(filePath)) == ".pdf"
    ensures l == UnstructuredMarkdownLoader <==> Lower(Ext(filePath)) in [".md", ".markdown"]
    ensures Ext(filePath) == [] ==> l == TextLoader
  {
    FileLoader(Lower(Ext(filePath)))
  }

  /** Dispatch ignores case: two paths that lower-case alike get the same
      loader (`X.PDF` and `x.pdf`). */
  lemma DispatchIgnoresCase(p: string, q: string)
    requires Lower(p) == Lower(q)
    ensures LoaderFor(p) == LoaderFor(q)
  {
    ExtLower(p);
    ExtLower(q);
  }

  /** A file named `stem.e` is loaded according to `e` lower-cased alone:
      `.pdf` by the PDF loader, `.md` and `.markdown` by the markdown loader,
      any other extension by the text loader. */
  lemma DispatchOnExtension(stem: string, e: string)
    requires !OnlyDots(stem) && Free(stem, '/')
    requires Free(e, '.') && Free(e, '/')
    ensures LoaderFor(stem + "." + e) == PyPdfLoader <==> Lower(e) == "pdf"
    ensures LoaderFor(stem + "." + e) == UnstructuredMarkdownLoader <==> Lower(e) in ["md", "markdown"]
    ensures LoaderFor(stem + "." + e) == TextLoader <==> Lower(e) !in ["pdf", "md", "markdown"]
  {
    var p := stem + "." + e;
    ExtOfNamedFile(stem, e);
    LowerDotted(e);
    assert LoaderFor(p) == FileLoader("." + Lower(e));
    DottedLoader(Lower(e));
  }

  /** Lower-casing leaves a leading dot alone. */
  lemma LowerDotted(e: string)
    ensures Lower("." + e) == "." + Lower(e)
  {
    assert forall k :: 0 <= k < |e| ==> ("." + e)[k + 1] == e[k];
  }

  /** The loader for an extension `.w` depends on `w` alone. */
  lemma DottedLoader(w: string)
    ensures FileLoader("." + w) == PyPdfLoader <==> w == "pdf"
    ensures FileLoader("." + w) == UnstructuredMarkdownLoader <==> w in ["md", "markdown"]
    ensures FileLoader("." + w) == TextLoader <==> w !in ["pdf", "md", "markdown"]
  {
    var x := "." + w;
    assert x[1..] == w;
    assert x == ".md" <==> w == "md" by {
      if x == ".md" { assert x[1..] == ".md"[1..]; }
    }
    assert x == ".markdown" <==> w == "markdown" by {
      if x == ".markdown" { assert x[1..] == ".markdown"[1..]; }
    }
    assert x == ".pdf" <==> w == "pdf" by {
      if x == ".pdf" { assert x[1..] == ".pdf"[1..]; }
    }
  }

  /** A name made of leading dots and a dot-free rest (`README`, `.pdf`)
      has no extension, so it goes to the text loader, whatever directory
      holds it. */
  lemma NoExtensionMeansText(dir: string, dots: string, rest: string)
    requires OnlyDots(dots)
    requires Free(rest, '.') && Free(rest, '/')
    ensures LoaderFor(dir + "/" + dots + rest) == TextLoader
  {
    var name := dots + rest;
    var p := dir + "/" + name;
    assert dir + "/" + dots + rest == p;
    NoExtension(dots, rest);
    ExtInDirectory(dir, name);
    assert Lower(Ext(p)) == [];
  }

  /** Provenance stamping of one chunk: `source_type` and `source_path` are
      set, every other metadata key keeps its value. */
  function Stamp(c: Chunk, sourceType: string, sourcePath: string): (r: Chunk)
    ensures r.content == c.content
    ensures r.metadata.Keys == c.metadata.Keys + {SourceTypeKey, SourcePathKey}
    ensures r.metadata[SourceTypeKey] == sourceType && r.metadata[SourcePathKey] == sourcePath
    ensures forall key :: key in c.metadata && key != SourceTypeKey && key != SourcePathKey
                          ==> r.metadata[key] == c.metadata[key]
  {
    c.(metadata := c.metadata[SourceTypeKey := sourceType][SourcePathKey := sourcePath])
  }

  /** The chunks after the stamping loop of `store_embeddings`: same number,
      same order, same text; both provenance keys set; every other metadata
      key present exactly when it was, with the value it had. */
  function Stamped(cs: seq<Chunk>, sourceType: string, sourcePath: string): (r: seq<Chunk>)
    ensures |r| == |cs|
    ensures forall k :: 0 <= k < |r| ==>
      r[k].content == cs[k].content
      && r[k].metadata.Keys == cs[k].metadata.Keys + {SourceTypeKey, SourcePathKey}
      && r[k].metadata[SourceTypeKey] == sourceType
      && r[k].metadata[SourcePathKey] == sourcePath
    ensures forall k, key ::
              (0 <= k < |r| && key in cs[k].metadata && key != SourceTypeKey && key != SourcePathKey
               ==> r[k].metadata[key] == cs[k].metadata[key])
  {
    seq(|cs|, k requires 0 <= k < |cs| => Stamp(cs[k], sourceType, sourcePath))
  }

  /** Stamping twice is stamping once with the later values: what a chunk
      carries does not depend on any earlier provenance it had. */
  lemma {:induction false} RestampOverwrites(cs: seq<Chunk>, t1: string, p1: string, t2: string, p2: string)
    ensures Stamped(Stamped(cs, t1, p1), t2, p2) == Stamped(cs, t2, p2)
  {
    var a, b := Stamped(Stamped(cs, t1, p1), t2, p2), Stamped(cs, t2, p2);
    forall k | 0 <= k < |cs|
      ensures a[k] == b[k]
    {
      RestampChunk(cs[k], t1, p1, t2, p2);
    }
  }

  /** One chunk stamped twice carries only the second provenance. */
  lemma RestampChunk(c: Chunk, t1: string, p1: string, t2: string, p2: string)
    ensures Stamp(Stamp(c, t1, p1), t2, p2) == Stamp(c, t2, p2)
  {
    var m := c.metadata;
    assert m[SourceTypeKey := t1][SourcePathKey := p1][SourceTypeKey := t2][SourcePathKey := p2]
        == m[SourceTypeKey := t2][SourcePathKey := p2];
  }

  /** `store_embeddings`: the splitter's output `chunks` (the splitter itself
      is not modelled) is stamped in place, then the whole batch goes to the
      store in one `add_documents` call, which ends as `added` says. */
  method StoreEmbeddings(chunks: array<Chunk>, sourceType: string, sourcePath: string,
                         added: Outcome, journal: Journal) returns (outcome: Outcome)
    modifies chunks, journal
    ensures chunks[..] == Stamped(old(chunks[..]), sourceType, sourcePath)
    ensures journal.events == old(journal.events) + [AddedDocuments(chunks[..])]
    ensures outcome == added
  {
    for i := 0 to chunks.Length
      invariant chunks[..i] == Stamped(old(chunks[..i]), sourceType, sourcePath)
      invariant chunks[i..] == old(chunks[i..])
      invariant journal.events == old(journal.events)
    {
      chunks[i] := Stamp(chunks[i], sourceType, sourcePath);
      assert chunks[..i + 1] == chunks[..i] + [chunks[i]];
      assert old(chunks[..i + 1]) == old(chunks[..i]) + [old(chunks[i])];
    }
    assert chunks[..] == chunks[..chunks.Length];
    journal.Record(AddedDocuments(chunks[..]));
    outcome := added;
  }

  /** `load_and_ingest_file`: the loader is chosen from the extension and
      loads `filePath` (ending as `loaded` says); on success the chunks are
      stamped `source_type="file"`, `source_path=filePath` and stored. An
      exception propagates to the caller as the returned outcome. */
  method LoadAndIngestFile(filePath: string, chunks: array<Chunk>, loaded: Outcome, added: Outcome,
                           journal: Journal) returns (outcome: Outcome)
    modifies chunks, journal
    ensures loaded.Raised? ==>
              (outcome == loaded && chunks[..] == old(chunks[..])
               && journal.events == old(journal.events) + [Loaded(LoaderFor(filePath), filePath)])
    ensures loaded.Returned? ==>
              (outcome == added
               && chunks[..] == Stamped(old(chunks[..]), "file", filePath)
               && journal.events == old(journal.events) + [Loaded(LoaderFor(filePath), filePath), AddedDocuments(chunks[..])])
  {
    var ext := Lower(Ext(filePath));
    var loader := FileLoader(ext);
    journal.Record(Loaded(loader, filePath));
    if loaded.Raised? {
      return loaded;
    }
    outcome := StoreEmbeddings(chunks, "file", filePath, added, journal);
  }

  /** `load_and_ingest_url`: always the web loader; chunks are stamped
      `source_type="url"`, `source_path=url`. */
  method LoadAndIngestUrl(url: string, chunks: array<Chunk>, loaded: Outcome, added: Outcome,
                          journal: Journal) returns (outcome: Outcome)
    modifies chunks, journal
    ensures loaded.Raised? ==>
              (outcome == loaded && chunks[..] == old(chunks[..])
               && journal.events == old(journal.events) + [Loaded(WebBaseLoader, url)])
    ensures loaded.Returned? ==>
              (outcome == added
               && chunks[..] == Stamped(old(chunks[..]), "url", url)
               && journal.events == old(journal.events) + [Loaded(WebBaseLoader, url), AddedDocuments(chunks[..])])
  {
    journal.Record(Loaded(WebBaseLoader, url));
    if loaded.Raised? {
      return loaded;
    }
    outcome := StoreEmbeddings(chunks, "url", url, added, journal);
  }

  /** The message `delete_embeddings_by_source` returns: it never raises; a
      failure of the store becomes an "Error ..." string. */
  function DeletionReport(sourcePath: string, deleted: Outcome): (msg: string)
    ensures deleted.Returned? ==> msg == "Deleted embeddings for: " + sourcePath
    ensures deleted.Raised? ==> msg == "Error deleting embeddings: " + deleted.message
  {
    match deleted
    case Returned => "Deleted embeddings for: " + sourcePath
    case Raised(m) => "Error deleting embeddings: " + m
  }

  /** `delete_embeddings_by_source`: one delete call filtered on exactly
      `sourcePath`, then the report. */
  method DeleteEmbeddingsBySource(sourcePath: string, deleted: Outcome, journal: Journal) returns (msg: string)
    modifies journal
    ensures journal.events == old(journal.events) + [DeletedWhere(sourcePath)]
    ensures msg == DeletionReport(sourcePath, deleted)
  {
    journal.Record(DeletedWhere(sourcePath));
    if deleted.Raised? {
      msg := "Error deleting embeddings: " + deleted.message;
    } else {
      msg := "Deleted embeddings for: " + sourcePath;
    }
  }

  /** `clear_database`: one unfiltered delete call; it never raises. */
  method ClearDatabase(deleted: Outcome, journal: Journal) returns (msg: string)
    modifies journal
    ensures journal.events == old(journal.events) + [DeletedAll]
    ensures deleted.Returned? ==> msg == "Database cleared successfully."
    ensures deleted.Raised? ==> msg == "Error clearing database: " + deleted.message
  {
    journal.Record(DeletedAll);
    if deleted.Raised? {
      msg := "Error clearing database: " + deleted.message;
    } else {
      msg := "Database cleared successfully.";
    }
  }
}
