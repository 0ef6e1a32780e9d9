/**
 * The JSON files the stores persist to, kept abstract: what a file holds is the
 * value last serialised into it, not its text. The file is an object of its own
 * because each store opens it by a fixed name, so a second store created later
 * reads what an earlier one wrote.
 */
module Storage {

  /** What reading a file yields: no file, a document that decodes to `null`, or a value. */
  datatype Stored<T> = Missing | NullDocument | Document(value: T)

  class JsonFile<T> {
    /** The current contents of the file. */
    var stored: Stored<T>
    /** Whether opening the file for writing succeeds; when it does not, nothing is written. */
    var writable: bool

    constructor(initial: Stored<T>, canWrite: bool)
      ensures stored == initial && writable == canWrite
    {
      stored := initial;
      writable := canWrite;
    }

    /**
     * `new FileWriter(path)` followed by `gson.toJson(v, writer)`: the file
     * then holds `v`. When the writer cannot be opened, the `IOException` is
     * caught by every caller and the file keeps its old contents.
     */
    method Write(v: T)
      modifies this
      ensures stored == (if old(writable) then Document(v) else old(stored))
      ensures writable == old(writable)
    {
      if writable {
        stored := Document(v);
      }
    }
  }
}
