# dev_docs_chat bookkeeping core, in Dafny

dev_docs_chat is a Gradio app. It ingests uploaded files and web pages into a Chroma vector store and answers questions over them. This project models the part of the app that keeps three stores in step:

- **the vector store**: the model records which calls the code attempts (`load`, `add_documents`, filtered and unfiltered `delete`) and with which provenance metadata;
- **the upload directory** `./uploads`: a set of plain file names;
- **the URL log** `./ingested_urls.txt`: the file's text, `None` when the file is missing.

Each library call becomes a parameter (`Outcome`) that says whether the call returned or raised an exception. A ghost `Journal` records every effect, in order. A handler that touches one store is a method of that store's class: `App.UrlRegistry` (the URL log) or `App.UploadDirectory` (the upload directory). `App.ClearAllData` touches both, so it is a module-level method over the two objects. `App.IngestUpload`, the ingestion step of the upload handler, touches neither, so it is module-level too. Each handler's `ensures` gives the returned message, the new state and the exact sequence of effects, case by case.

The central properties are:

- **Deletion key = ingestion key.**
  - An uploaded file is stamped with `source_path = "./uploads/" + name`. The delete handler deletes by `os.path.join("./uploads", name)`, and the two are the same string (`App.UploadKeyMatches`). The name is also the base name of that path (`App.UploadPath`).
  - A URL is ingested, stamped and saved under its stripped form. After a successful ingestion, the deletion scan finds that same string in the log (`App.UrlRegistry.HandleUrlIngestion`, `UrlLog.SavedUrlIsFound`). This holds when the log was tidy (missing, or ending in a line break) and the stripped URL holds no `'\n'` or `'\r'`. It then deletes by exactly that string (`App.UrlRegistry.DeleteUrlByUrl`).
- **Loader dispatch.** `os.path.splitext(p)[1].lower()` selects one of three loaders:
  - PDF exactly when the lower-cased extension is `pdf`;
  - Markdown exactly when it is `md` or `markdown`;
  - text otherwise, including names with no extension and dot-files.

  The choice does not depend on letter case or on the directory (`Ingestion.DispatchOnExtension` and its neighbours).
- **Listing and deleting URLs.**
  - The listing is the stripped, non-empty lines of the log.
  - Appending a URL to a tidy log adds exactly one entry, provided the stripped URL holds no `'\n'` or `'\r'`. A URL made of two tidy parts around one inner `'\n'` is saved as two lines and listed as two entries, and the deletion scan does not find it (`UrlLog.LineBreakSplitsAny`; `"a\nb"` is `UrlLog.LineBreakSplitsUrl`).
  - Deleting a URL removes its first occurrence from the listing and nothing else. Writing the remaining lines back gives back exactly those lines (`UrlLog.DeleteFromListing`, `TextFile.LinesOfConcat`).
- **Stamping.** `store_embeddings` overwrites the two provenance keys of every chunk and keeps all other metadata. It then hands over the whole batch in one call.

Python built-ins are modelled as written:

- `str.strip()`, with Python's whitespace set;
- `str.lower()`, on the characters that can matter here;
- `os.path.basename`, `os.path.splitext` and two-argument `os.path.join`;
- `readlines` (split after each `'\n'`) and `writelines` (concatenation).

These live in `pystr.dfy`, `pypath.dfy` and `textfile.dfy`.

## Model

| member | source | states |
|---|---|---|
| PyStr.Strip | app.py:103 | what `strip()` returns is no longer than its input and has no whitespace at either end |
| PyStr.StripIsTrim | app.py:103 | `strip()` returns a slice of its input, and everything it cuts off on either side is whitespace |
| PyStr.StripOfStripped | app.py:82 | a string without whitespace at its ends is its own `strip()` |
| PyStr.StripIdempotent | app.py:57-60 | stripping an already stripped URL again (as `save_url` does) changes nothing |
| PyStr.StripTrailingSpace | app.py:121 | a stripped line followed by a whitespace character (the `'\n'` of `readlines`) strips back to that line |
| PyStr.LowerChar | ingestion.py:20 | lower-casing a character keeps `.` and `/` and nothing else becomes them; the result is an ASCII lower-case letter exactly when the input is an ASCII letter or the KELVIN SIGN |
| PyStr.Lower | ingestion.py:20 | the modelled `lower()` keeps the length (Python's does not for U+0130; see "## Left out") and lower-cases each character on its own, as `LowerChar` states |
| PyStr.LowerIdempotent | ingestion.py:20 | lower-casing twice is lower-casing once |
| PyPath.Basename | app.py:35 | the base name is the suffix of the path that starts right after its last `/`, or the whole path when it has none; it holds no `/` |
| PyPath.Join | app.py:144 | `os.path.join(a, b)` is `b` when `b` is absolute, and otherwise starts with `a`, ends with `b` and inserts at most one separator between them |
| PyPath.NameExt | ingestion.py:20 | the extension of a final component is empty, or a suffix of it that starts with a dot and holds no other dot |
| PyPath.Ext | ingestion.py:20 | `splitext(p)[1]` is empty or starts with a dot, and is no longer than the path (its full shape is `PyPath.ExtShape`) |
| PyPath.ExtShape | ingestion.py:20 | `splitext(p)[1]` is empty or a suffix of `p` that starts with its only dot and holds no `/`; a path without a dot has no extension |
| PyPath.ExtOfNamedFile | ingestion.py:20 | for a name `stem.e` whose stem is not all dots (so `v1..pdf` and `notes..md` qualify), the extension is `.e` |
| PyPath.ExtInDirectory | ingestion.py:20 | the directory part of a path does not affect its extension |
| PyPath.NoExtension | ingestion.py:20 | a name made of leading dots and then no dot (`.bashrc`, `README`) has no extension |
| PyPath.ExtLower | ingestion.py:20 | taking the extension commutes with lower-casing the path |
| TextFile.Lines | app.py:116 | `readlines` gives no line exactly for an empty file, and never more lines than characters |
| TextFile.Concat | app.py:128 | `writelines` writes nothing for no lines, and otherwise starts with the first line |
| TextFile.LinesConcat | app.py:115-116 | joining the lines that `readlines` returns gives back the file's text |
| TextFile.LinesOfConcat | app.py:127-128 | reading back what `writelines` wrote from well-formed lines gives the same lines |
| TextFile.LinesAppend | app.py:81-82 | appending to a file whose last line is complete adds lines after the old ones without changing them |
| Ingestion.LoaderFor | ingestion.py:20-26 | the loader for a path is PDF exactly when its lower-cased extension is `.pdf`, Markdown exactly for `.md`/`.markdown`, text when it has no extension, and never the web loader |
| Ingestion.FileLoader | ingestion.py:21-26 | the loader is PDF exactly for `.pdf` and Markdown exactly for `.md`/`.markdown`; it is never the web loader |
| Ingestion.DispatchOnExtension | ingestion.py:18-26 | for `stem.e` with a stem that is not all dots: PDF iff `e.lower() == "pdf"`, Markdown iff it is `md` or `markdown`, text iff neither |
| Ingestion.DispatchIgnoresCase | ingestion.py:20 | two paths that lower-case to the same string get the same loader |
| Ingestion.NoExtensionMeansText | ingestion.py:20-26 | a file without an extension, including a dot-file, is loaded as text |
| Ingestion.Stamp | ingestion.py:43-44 | a stamped chunk keeps its text; `source_type` and `source_path` are set; every other metadata key keeps its value, and no other key is added |
| Ingestion.Stamped | ingestion.py:42-44 | each chunk keeps its text and order; `source_type` and `source_path` are set; every other metadata key keeps its value, and no key is added or lost |
| Ingestion.RestampOverwrites | ingestion.py:42-44 | stamping twice is the same as stamping once with the later values |
| Ingestion.StoreEmbeddings | ingestion.py:37-52 | the chunks are stamped in place; then the whole batch goes to the store in one `add_documents` call, and its outcome is returned |
| Ingestion.LoadAndIngestFile | ingestion.py:18-28 | load with the extension's loader; a load failure stores nothing and propagates; otherwise chunks are stamped `file`/`filePath` and stored |
| Ingestion.LoadAndIngestUrl | ingestion.py:31-34 | load with the web loader; a load failure stores nothing and propagates; otherwise chunks are stamped `url`/`url` and stored |
| Ingestion.DeletionReport | ingestion.py:64-69 | the message says the embeddings for the path were deleted, or which error the store raised |
| Ingestion.DeleteEmbeddingsBySource | ingestion.py:55-69 | exactly one delete filtered on `source_path == sourcePath`; a store exception becomes the error message and is not raised |
| Ingestion.ClearDatabase | ingestion.py:72-85 | exactly one unfiltered delete; the success or error message; it never raises |
| UrlLog.Listed | app.py:102-105 | at most one URL per line (what each URL looks like is `UrlLog.ListedEntries`) |
| UrlLog.SavedUrls | app.py:97-106 | a missing log lists no URL |
| UrlLog.ListedEntries | app.py:102-105 | every listed URL is non-empty and has no whitespace at its ends |
| UrlLog.ListedAppend | app.py:102-105 | listing goes line by line, so it distributes over a split of the lines |
| UrlLog.FirstMatch | app.py:120-124 | the index found is the first line that strips to the URL; when there is none, no line does |
| UrlLog.FirstMatchAt | app.py:120-124 | a line that strips to the URL, with none before it, is the one the scan pops |
| UrlLog.RemoveAt | app.py:122 | `urls.pop(i)`: one element fewer, that element gone; everything before `i` and after it stays in order |
| UrlLog.RemoveFirst | app.py:122 | reference removal from the listing: one occurrence fewer of `u` when `u` is listed, the same list otherwise |
| UrlLog.RemoveFirstAt | app.py:120-124 | when `u` first occurs at `i`, removal takes out exactly position `i` and keeps the order of the rest |
| UrlLog.ListedIffMatch | app.py:102-124 | a URL appears in the listing exactly when it is non-empty and the deletion scan finds a line for it |
| UrlLog.ListedAfterRemoval | app.py:119-124 | popping the first matching line removes the first occurrence of the URL from the listing, and nothing else |
| UrlLog.RewrittenLog | app.py:115-128 | after the scan, the rewritten file lists the old listing minus one occurrence; a tidy log stays tidy |
| UrlLog.AppendedLine | app.py:80-82 | appending a stripped URL without `'\n'` or `'\r'` to a tidy log adds one line, one entry (none when blank), and leaves the log tidy |
| UrlLog.SavedUrlIsFound | app.py:80-82 | a URL without `'\n'` or `'\r'` just saved to a tidy log is found by the deletion scan |
| UrlLog.LineBreakSplitsAny | app.py:82 | for any two non-empty stripped parts `a` and `b` without line breaks, the URL `a + "\n" + b` is saved as the two lines `a\n` and `b\n`, listed as `a` and `b`, and the deletion scan does not find it; one inner `'\n'` gives two entries |
| UrlLog.LineBreakSplitsUrl | app.py:82 | the instance `"a\nb"`: saved as `"a\n"` and `"b\n"`, listed as `"a"` and `"b"`, and not found by the deletion scan |
| UrlLog.LogAfterDelete | app.py:111-135 | deleting a URL neither creates nor removes the log, and leaves it unchanged when no line strips to the URL |
| UrlLog.DeleteFromListing | app.py:109-128 | the log after `delete_url_by_url` lists the old listing minus the first occurrence of the URL, and a tidy log stays tidy |
| App.UploadPath | app.py:35-36 | the name a file is uploaded under is the base name of the path it is ingested under |
| App.UploadKeyMatches | app.py:144 | `os.path.join("./uploads", name)` is the `"./uploads/" + name` that the upload handler ingested under, for every relative name |
| App.UploadLoader | app.py:36-43 | the loader for the uploaded copy is the loader for the bare file name |
| App.ListUrls | app.py:99-106 | the loop of `get_saved_urls_list` yields the listing of the lines |
| App.PopFirstMatch | app.py:119-124 | `found` is true exactly when a line strips to the URL; then the lines lose the first such line, otherwise they are unchanged |
| App.UrlRegistry.SaveUrl | app.py:80-82 | the log becomes the old content (or nothing) plus the stripped URL and `'\n'`, and it is tidy; on a tidy log, and for a URL without `'\n'` or `'\r'`, it gains exactly one last line and one listed entry |
| App.UrlRegistry.GetSavedUrlsList | app.py:97-106 | the result is the listing of the log; a missing log gives an empty list |
| App.UrlRegistry.DeleteUrlByUrl | app.py:109-135 | missing log: no effect; no matching line: no effect and "URL not found"; otherwise the log is rewritten without the first match, then the store deletes by the URL itself |
| App.UrlRegistry.HandleUrlIngestion | app.py:50-64 | a blank URL does nothing; otherwise the stripped URL is loaded, stamped and stored, and saved only if no exception occurred; once saved to a tidy log, a URL without `'\n'` or `'\r'` is listed and found by the deletion scan |
| App.UploadDirectory.CopyIn | app.py:37-40 | the directory exists afterwards and holds the copied file |
| App.IngestUpload | app.py:42-47 | the copied file is loaded with its extension's loader and stamped and stored under `./uploads/<name>`; an exception from loading or storing becomes the error message |
| App.UploadDirectory.HandleFileUpload | app.py:28-47 | no file: no effect; otherwise the base name is copied in and ingested under `./uploads/<name>` with its extension's loader; a failure is reported and the copy stays |
| App.UploadDirectory.DeleteUploadedFile | app.py:141-156 | an existing file is removed and the store deletes by the same `./uploads/<name>` key; a directory name gives the `IsADirectoryError` message; anything else is "File not found" with no effect |
| App.FileReport | app.py:391 | the file report is empty exactly when no file was removed, and otherwise ends with a line break |
| App.UploadDirectory.RemoveAll | app.py:385-393 | every file is removed, once each, in listing order; the report has one line per file in that order |
| App.ClearAllData | app.py:379-404 | the store is cleared, then every upload is removed, then the URL log; afterwards nothing is listed; the report joins the three parts |

## Left out

- The Gradio UI: the layout, the `gr.update` visibility values returned beside each message, the HTML listing `get_saved_urls`, `get_uploaded_files_list`, `list_uploaded_files`, and the legacy handlers at the top of app.py. The handlers return only their message.
- qa_pipeline.py and question answering are not part of this model.
- The internals of the libraries:
  - the text splitter is not modelled; its output is the `chunks` array;
  - the loaders' parsing is not modelled, and neither is the embedding model's configuration;
  - Chroma's storage is not modelled; the journal records the calls made to it.
- Ingestion.StoreEmbeddings: records one `AddedDocuments` entry even when the splitter or the `Chroma(...)` constructor raises before `add_documents` is called. A failure of any of the three is the single `added` outcome, so the entry marks the attempt, not a completed call.
- `print` calls: console output only.
- File-system failures:
  - `open`, `readlines` or `writelines` raising in `delete_url_by_url` ("Error deleting URL: ...");
  - `os.makedirs` or `shutil.copy2` raising in the upload handler;
  - `os.remove` raising in `clear_all_data` ("Error deleting <name>", "Error deleting URLs file").

  Only the store's and the loaders' exceptions are parameters.
- A failure while opening the Chroma client and a failure of the delete call are one `Outcome`; both produce the same message.
- App.UploadDirectory.DeleteUploadedFile:
  - names holding `/` and absolute names can reach outside `./uploads`; they are reported as "File not found";
  - entries of the directory that are not regular files are not modelled;
  - the `[Errno 21]` message is the Linux text of `IsADirectoryError`.
- App.UploadDirectory.HandleFileUpload: requires the uploaded file's base name to be a plain name. Uploads whose base name is `""`, `"."` or `".."` (a path ending in `/`, `/.` or `/..`) are not modelled.
- App.UploadDirectory.RemoveAll: the order of `os.listdir` is not determined by the model; it is the returned `order`, which is a permutation of the old files.
- App.UrlRegistry.DeleteUrlByUrl: its contract ties the new log to `UrlLog.LogAfterDelete`. The effect on the listing is proved once, for that function, in `UrlLog.DeleteFromListing`, and not repeated in the method's `ensures`.
- Text mode's universal-newline translation (`'\r'` and `'\r\n'` read as `'\n'`) is not modelled; lines end at `'\n'` only. The listing properties of `UrlLog.AppendedLine`, `UrlLog.SavedUrlIsFound`, `App.UrlRegistry.SaveUrl` and `App.UrlRegistry.HandleUrlIngestion` are therefore stated only for URLs without `'\r'` (and without `'\n'`). For those URLs the translation changes nothing. A log that already holds a `'\r'` from elsewhere is read by the model at `'\n'` only.
- `str.lower()` is modelled for ASCII letters and the KELVIN SIGN (the only other character whose lower case is an ASCII letter). Other non-ASCII characters are left unchanged, so the model's `Lower` keeps the length, whereas Python's `lower()` does not always: U+0130 (LATIN CAPITAL LETTER I WITH DOT ABOVE) lowers to `i` followed by U+0307. None of these characters can turn an extension into `.pdf`, `.md` or `.markdown` (U+0307 appears in none of them), so the loader choice is the same under both.
