/** The bookkeeping of app.py: the ingested-URL log, the upload directory
    and the handlers that add to them and delete from them, each keeping the
    vector store in step through the ingestion wrappers. */
module App {
  import opened Wrappers
  import opened PyStr
  import opened PyPath
  import opened TextFile
  import opened Collaborators
  import opened Ingestion
  import opened UrlLog

  /** `UPLOAD_DIR`. */
  const UploadDir := "./uploads"

  /** The path under which an uploaded file is ingested: `f"./uploads/{filename}"`. */
  function UploadPath(filename: string): (r: string)
    ensures Free(filename, '/') ==> Basename(r) == filename
  {
    RFindConcat("./uploads/", filename, '/');
    "./uploads/" + filename
  }

  /** A name a regular file in the upload directory can have. */
  predicate IsPlainName(n: string) {
    n != [] && n != "." && n != ".." && Free(n, '/')
  }

  /** Names that, joined to the upload directory, denote a directory
      (the upload directory itself or its parent) rather than a file. */
  predicate IsDirectoryName(n: string) {
    n == [] || n == "." || n == ".."
  }

  /** The key `delete_uploaded_file` deletes by, `os.path.join(UPLOAD_DIR,
      filename)`, is the key the upload handler ingested under, for every
      name that is not an absolute path. */
  lemma UploadKeyMatches(filename: string)
    requires filename == [] || filename[0] != '/'
    ensures Join(UploadDir, filename) == UploadPath(filename)
  {
    assert UploadDir + "/" + filename == UploadPath(filename);
  }

  /** The loader chosen for an uploaded file depends on its name alone,
      not on the directory it was copied to. */
  lemma UploadLoader(filename: string)
    requires Free(filename, '/')
    ensures LoaderFor(UploadPath(filename)) == LoaderFor(filename)
  {
    var p := UploadPath(filename);
    assert p == UploadDir + "/" + filename;
    ExtInDirectory(UploadDir, filename);
    assert Ext(p) == Ext(filename);
  }

  /** The `Files:` part of the report of `clear_all_data` after removing the
      files in `order`. */
  function FileReport(order: seq<string>): (r: string)
    ensures r == [] <==> order == []
    ensures r != [] ==> r[|r| - 1] == '\n'
  {
    if order == [] then []
    else FileReport(order[..|order| - 1]) + "Deleted file: " + order[|order| - 1] + "\n"
  }

  /** The journal entries of removing the files in `order`, one by one. */
  function Removals(order: seq<string>): (r: seq<Effect>)
    ensures |r| == |order|
  {
    seq(|order|, k requires 0 <= k < |order| => UploadRemoved(order[k]))
  }

  /** Removing one more file adds its event after those already recorded. */
  lemma RemovalsAppend(order: seq<string>, n: string)
    ensures Removals(order + [n]) == Removals(order) + [UploadRemoved(n)]
  {
  }

  /** The loop of `get_saved_urls_list` over the lines of the log. */
  method ListUrls(lines: seq<string>) returns (urls: seq<string>)
    ensures urls == Listed(lines)
  {
    urls := [];
    for i := 0 to |lines|
      invariant urls == Listed(lines[..i])
    {
      var url := Strip(lines[i]);
      if url != [] {
        urls := urls + [url];
      }
      assert lines[..i + 1] == lines[..i] + [lines[i]];
      ListedSnoc(lines[..i], lines[i]);
    }
    assert lines[..|lines|] == lines;
  }

  /** The loop of `delete_url_by_url`: walks the lines, pops the first one
      that strips to `url` and stops. */
  method PopFirstMatch(lines: seq<string>, url: string) returns (urls: seq<string>, found: bool)
    ensures found <==> FirstMatch(lines, url).Some?
    ensures found ==> urls == RemoveAt(lines, FirstMatch(lines, url).value)
    ensures !found ==> urls == lines
  {
    urls := lines;
    found := false;
    for i := 0 to |urls|
      invariant urls == lines
      invariant forall k :: 0 <= k < i ==> Strip(lines[k]) != url
    {
      if Strip(urls[i]) == url {
        FirstMatchAt(lines, url, i);
        urls := urls[..i] + urls[i + 1..];
        found := true;
        break;
      }
    }
  }

  /** The ingestion step of `handle_file_upload_with_progress`, once the
      file is copied in as `filename`: it is ingested under
      `./uploads/<filename>`, and an exception becomes the error message. */
  method IngestUpload(filename: string, chunks: array<Chunk>, loaded: Outcome, added: Outcome, journal: Journal)
    returns (msg: string)
    modifies chunks, journal
    ensures loaded.Raised? ==>
              msg == "Error processing file: " + loaded.message && chunks[..] == old(chunks[..])
              && journal.events == old(journal.events) + [Loaded(LoaderFor(UploadPath(filename)), UploadPath(filename))]
    ensures loaded.Returned? ==>
              chunks[..] == Stamped(old(chunks[..]), "file", UploadPath(filename))
              && journal.events == old(journal.events)
                 + [Loaded(LoaderFor(UploadPath(filename)), UploadPath(filename)), AddedDocuments(chunks[..])]
              && msg == (if added.Raised? then "Error processing file: " + added.message
                         else "File '" + filename + "' processed and embedded successfully!")
  {
    var outcome := LoadAndIngestFile(UploadPath(filename), chunks, loaded, added, journal);
    if outcome.Raised? {
      return "Error processing file: " + outcome.message;
    }
    msg := "File '" + filename + "' processed and embedded successfully!";
  }

  /** `./ingested_urls.txt`: `log` is its content, `None` when the file
      does not exist. `journal` records every call into the store and every
      change to a file, in order. */
  class UrlRegistry {
    var log: Option<string>
    const journal: Journal

    constructor (content: Option<string>, j: Journal)
      ensures log == content && journal == j
    {
      log := content;
      journal := j;
    }

    /** `save_url`: appends the stripped URL and a line break, creating the
        log if it is missing. On a tidy log and a URL without an inner line
        break (`'\n'` or `'\r'`) this adds exactly one last line; every
        earlier line stays, so a URL saved twice is listed twice. */
    method SaveUrl(url: string)
      modifies this, journal
      ensures log == Some(old(log).GetOr("") + Strip(url) + "\n")
      ensures journal.events == old(journal.events) + [UrlAppended(Strip(url) + "\n")]
      ensures Tidy(log)
      ensures Tidy(old(log)) && NoLineBreak(Strip(url)) ==>
                Lines(log.value) == Lines(old(log).GetOr("")) + [Strip(url) + "\n"]
                && SavedUrls(log) == old(SavedUrls(log)) + Entry(url)
    {
      var content := log.GetOr("");
      var line := Strip(url) + "\n";
      if Tidy(log) && NoLineBreak(Strip(url)) {
        AppendedLine(content, Strip(url));
      }
      log := Some(content + line);
      journal.Record(UrlAppended(line));
      assert content + line == content + Strip(url) + "\n";
    }

    /** `get_saved_urls_list`: the stripped, non-empty lines of the log in
        file order; nothing when the log is missing. */
    method GetSavedUrlsList() returns (urls: seq<string>)
      ensures urls == SavedUrls(log)
    {
      urls := [];
      if log.Some? {
        urls := ListUrls(Lines(log.value));
      }
    }

    /** `delete_url_by_url`: scans the lines for the first one that strips to
        `urlToDelete`, pops it and stops; if there was one, writes the
        remaining lines back and only then deletes the embeddings stored
        under `urlToDelete` itself. The listing loses the first occurrence
        of `urlToDelete` and nothing else. */
    method DeleteUrlByUrl(urlToDelete: string, deleted: Outcome) returns (msg: string)
      modifies this, journal
      ensures log == LogAfterDelete(old(log), urlToDelete)
      ensures old(log).None? ==>
                msg == "No URLs to delete." && journal.events == old(journal.events)
      ensures old(log).Some? && FirstMatch(Lines(old(log).value), urlToDelete).None? ==>
                msg == "URL not found: " + urlToDelete && journal.events == old(journal.events)
      ensures old(log).Some? && FirstMatch(Lines(old(log).value), urlToDelete).Some? ==>
                journal.events == old(journal.events) + [UrlLogRewritten(log.value), DeletedWhere(urlToDelete)]
                && msg == "Deleted URL: " + urlToDelete + "\n" + DeletionReport(urlToDelete, deleted)
    {
      if log.None? {
        return "No URLs to delete.";
      }
      var urls, found := PopFirstMatch(Lines(log.value), urlToDelete);
      if found {
        var rewritten := Concat(urls);
        log := Some(rewritten);
        journal.Record(UrlLogRewritten(rewritten));
        var report := DeleteEmbeddingsBySource(urlToDelete, deleted, journal);
        msg := "Deleted URL: " + urlToDelete + "\n" + report;
      } else {
        msg := "URL not found: " + urlToDelete;
      }
    }

    /** `handle_url_ingestion_with_progress`: a blank URL is refused with no
        effect; otherwise the stripped URL is ingested, and saved to the log
        only if ingestion ended without an exception. A saved URL is listed
        under that same string, which the stamped chunks carry as their
        source and which a later deletion scan finds. */
    method HandleUrlIngestion(url: string, chunks: array<Chunk>, loaded: Outcome, added: Outcome)
      returns (msg: string)
      modifies this, journal, chunks
      ensures Strip(url) == [] ==>
                msg == "No URL provided." && log == old(log)
                && journal.events == old(journal.events) && chunks[..] == old(chunks[..])
      ensures Strip(url) != [] && loaded.Raised? ==>
                msg == "Error processing URL: " + loaded.message && log == old(log)
                && chunks[..] == old(chunks[..])
                && journal.events == old(journal.events) + [Loaded(WebBaseLoader, Strip(url))]
      ensures Strip(url) != [] && loaded.Returned? ==>
                chunks[..] == Stamped(old(chunks[..]), "url", Strip(url))
      ensures Strip(url) != [] && loaded.Returned? && added.Raised? ==>
                msg == "Error processing URL: " + added.message && log == old(log)
                && journal.events == old(journal.events) + [Loaded(WebBaseLoader, Strip(url)), AddedDocuments(chunks[..])]
      ensures Strip(url) != [] && loaded.Returned? && added.Returned? ==>
                msg == "URL '" + Strip(url) + "' processed and embedded successfully!"
                && log == Some(old(log).GetOr("") + Strip(url) + "\n")
                && journal.events == old(journal.events)
                   + [Loaded(WebBaseLoader, Strip(url)), AddedDocuments(chunks[..])] + [UrlAppended(Strip(url) + "\n")]
      ensures Strip(url) != [] && loaded.Returned? && added.Returned? && Tidy(old(log)) && NoLineBreak(Strip(url)) ==>
                SavedUrls(log) == old(SavedUrls(log)) + [Strip(url)]
                && FirstMatch(Lines(log.value), Strip(url)).Some?
    {
      var u := Strip(url);
      if u == [] {
        return "No URL provided.";
      }
      var outcome := LoadAndIngestUrl(u, chunks, loaded, added, journal);
      if outcome.Raised? {
        return "Error processing URL: " + outcome.message;
      }
      ghost var content := log.GetOr("");
      StripIdempotent(url);
      SaveUrl(u);
      if Tidy(old(log)) && NoLineBreak(u) {
        SavedUrlIsFound(content, u);
      }
      msg := "URL '" + u + "' processed and embedded successfully!";
    }
  }

  /** `./uploads`: `present` says whether the directory exists and `files`
      holds the names of the regular files in it. */
  class UploadDirectory {
    var present: bool
    var files: set<string>
    const journal: Journal

    /** Files can only be in an existing directory, and each is named by a
        single path component. */
    ghost predicate Valid()
      reads this
    {
      (forall n | n in files :: IsPlainName(n))
      && (!present ==> files == {})
    }

    constructor (dir: bool, names: set<string>, j: Journal)
      requires forall n | n in names :: IsPlainName(n)
      requires !dir ==> names == {}
      ensures Valid()
      ensures present == dir && files == names && journal == j
    {
      present := dir;
      files := names;
      journal := j;
    }

    /** `os.makedirs` and `shutil.copy2` of the upload handler: the directory
        exists afterwards and holds the file `filename`. */
    method CopyIn(filename: string)
      requires Valid() && IsPlainName(filename)
      modifies this, journal
      ensures Valid()
      ensures present && files == old(files) + {filename}
      ensures journal.events == old(journal.events) + [UploadCopied(filename)]
    {
      present := true;
      files := files + {filename};
      journal.Record(UploadCopied(filename));
    }

    /** `handle_file_upload_with_progress`: no file selected changes nothing;
        otherwise the file is copied in under its base name and ingested
        from there. */
    method HandleFileUpload(file: Option<string>, chunks: array<Chunk>, loaded: Outcome, added: Outcome)
      returns (msg: string)
      requires Valid()
      requires file.Some? ==> IsPlainName(Basename(file.value))
      modifies this, journal, chunks
      ensures Valid()
      ensures file.None? ==>
                msg == "No file selected." && present == old(present) && files == old(files)
                && journal.events == old(journal.events) && chunks[..] == old(chunks[..])
      ensures file.Some? ==> present && files == old(files) + {Basename(file.value)}
      ensures file.Some? && loaded.Raised? ==>
                var name := Basename(file.value);
                msg == "Error processing file: " + loaded.message && chunks[..] == old(chunks[..])
                && journal.events == old(journal.events) + [UploadCopied(name)] + [Loaded(LoaderFor(UploadPath(name)), UploadPath(name))]
      ensures file.Some? && loaded.Returned? ==>
                var name := Basename(file.value);
                chunks[..] == Stamped(old(chunks[..]), "file", UploadPath(name))
                && journal.events == old(journal.events) + [UploadCopied(name)]
                   + [Loaded(LoaderFor(UploadPath(name)), UploadPath(name)), AddedDocuments(chunks[..])]
                && msg == (if added.Raised? then "Error processing file: " + added.message
                           else "File '" + name + "' processed and embedded successfully!")
    {
      if file.None? {
        return "No file selected.";
      }
      var filename := Basename(file.value);
      CopyIn(filename);
      msg := IngestUpload(filename, chunks, loaded, added, journal);
    }

    /** `delete_uploaded_file`: if the joined path exists, the file is removed
        and the embeddings stored under that path are deleted. A name
        denoting a directory exists but cannot be removed; a name that is
        not in the directory is reported as not found, with no effect. */
    method DeleteUploadedFile(filename: string, deleted: Outcome) returns (msg: string)
      requires Valid()
      modifies this, journal
      ensures Valid() && present == old(present)
      ensures old(present) && filename in old(files) ==>
                files == old(files) - {filename}
                && journal.events == old(journal.events) + [UploadRemoved(filename), DeletedWhere(UploadPath(filename))]
                && msg == "Deleted file: " + filename + "\n" + DeletionReport(UploadPath(filename), deleted)
      ensures old(present) && IsDirectoryName(filename) ==>
                files == old(files) && journal.events == old(journal.events)
                && msg == "Error deleting file: [Errno 21] Is a directory: '" + UploadPath(filename) + "'"
      ensures !(old(present) && (filename in old(files) || IsDirectoryName(filename))) ==>
                files == old(files) && journal.events == old(journal.events)
                && msg == "File not found: " + filename
    {
      var filePath := Join(UploadDir, filename);
      if present && IsDirectoryName(filename) {
        UploadKeyMatches(filename);
        return "Error deleting file: [Errno 21] Is a directory: '" + filePath + "'";
      }
      if present && filename in files {
        UploadKeyMatches(filename);
        files := files - {filename};
        journal.Record(UploadRemoved(filename));
        var report := DeleteEmbeddingsBySource(filePath, deleted, journal);
        msg := "Deleted file: " + filename + "\n" + report;
      } else {
        msg := "File not found: " + filename;
      }
    }

    /** The file loop of `clear_all_data`: removes every file of the upload
        directory, one at a time in the order `os.listdir` gives, which is
        `order`, and reports each. */
    method RemoveAll() returns (fileResult: string, order: seq<string>)
      requires Valid()
      modifies this, journal
      ensures Valid() && files == {} && present == old(present)
      ensures |order| == |old(files)| && forall n :: n in order <==> n in old(files)
      ensures journal.events == old(journal.events) + Removals(order)
      ensures fileResult == FileReport(order)
    {
      fileResult := "";
      order := [];
      while files != {}
        invariant forall n :: n in order <==> n in old(files) && n !in files
        invariant files <= old(files)
        invariant |order| + |files| == |old(files)|
        invariant fileResult == FileReport(order)
        invariant journal.events == old(journal.events) + Removals(order)
        invariant present == old(present)
        decreases |files|
      {
        var filename :| filename in files;
        files := files - {filename};
        journal.Record(UploadRemoved(filename));
        fileResult := fileResult + "Deleted file: " + filename + "\n";
        assert (order + [filename])[..|order|] == order;
        RemovalsAppend(order, filename);
        order := order + [filename];
      }
    }
  }

  /** `clear_all_data`: clears the store, then removes every file of the
      upload directory in listing order `order`, then the URL log. The report
      has one line per removed file; afterwards no URL is listed. */
  method ClearAllData(registry: UrlRegistry, uploads: UploadDirectory, deleted: Outcome)
    returns (msg: string, order: seq<string>)
    requires uploads.Valid() && uploads.journal == registry.journal
    modifies registry, uploads, registry.journal
    ensures uploads.Valid() && uploads.present == old(uploads.present)
    ensures uploads.files == {} && registry.log == None
    ensures SavedUrls(registry.log) == []
    ensures |order| == |old(uploads.files)| && forall n :: n in order <==> n in old(uploads.files)
    ensures registry.journal.events == old(registry.journal.events) + [DeletedAll] + Removals(order)
                                       + (if old(registry.log).Some? then [UrlLogRemoved] else [])
    ensures msg == "Database: " + (if deleted.Raised? then "Error clearing database: " + deleted.message
                                   else "Database cleared successfully.")
                   + "\nFiles: " + FileReport(order)
                   + "URLs: " + (if old(registry.log).Some? then "Deleted ingested URLs file\n" else "")
  {
    var journal := registry.journal;
    var dbResult := ClearDatabase(deleted, journal);
    var fileResult := "";
    order := [];
    if uploads.present {
      fileResult, order := uploads.RemoveAll();
    }
    var urlResult := "";
    if registry.log.Some? {
      registry.log := None;
      journal.Record(UrlLogRemoved);
      urlResult := "Deleted ingested URLs file\n";
    }
    msg := "Database: " + dbResult + "\nFiles: " + fileResult + "URLs: " + urlResult;
  }
}
