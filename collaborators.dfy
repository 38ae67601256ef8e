/** What the core hands to code it cannot see: the document loaders, the
    vector store and the file system. Each call is recorded, with its
    arguments, in a ghost journal; a call's outcome is an input of the model. */
module Collaborators {

  /** The document loaders the ingestion code can construct. */
  datatype Loader = PyPdfLoader | UnstructuredMarkdownLoader | TextLoader | WebBaseLoader

  /** A chunk as the text splitter returns it: its text and its metadata dict.
      Metadata values are represented by their text. */
  datatype Chunk = Chunk(content: string, metadata: map<string, string>)

  /** How a call into a library ended: it returned, or it raised an exception
      whose `str()` is `message`. */
  datatype Outcome = Returned | Raised(message: string)

  /** One externally visible effect, in the order the core causes it. */
  datatype Effect =
    | Loaded(loader: Loader, target: string)   // `loader(target).load()`
    | AddedDocuments(batch: seq<Chunk>)        // `vectordb.add_documents(batch)`
    | DeletedWhere(sourcePath: string)         // `_collection.delete(where={"source_path": p})`
    | DeletedAll                               // `_collection.delete(where={})`
    | UploadCopied(name: string)               // `shutil.copy2` into the upload directory
    | UploadRemoved(name: string)              // `os.remove` of an uploaded file
    | UrlAppended(text: string)                // `f.write(text)` on the URL log opened with "a"
    | UrlLogRewritten(content: string)         // `f.writelines(...)` on the URL log opened with "w"
    | UrlLogRemoved                            // `os.remove` of the URL log

  /** The ordered record of effects. */
  class Journal {
    ghost var events: seq<Effect>

    constructor ()
      ensures events == []
    {
      events := [];
    }

    method Record(e: Effect)
      modifies this
      ensures events == old(events) + [e]
    {
      events := events + [e];
    }
  }
}
