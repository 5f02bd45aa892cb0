/** The environment the two stores run against: the files they read and write
    (`readTextFile` / `writeTextFile`) and the subscriptions made by `watch`.
    A file's text is abstracted to what `JSON.parse` makes of it. */
module Fs {
  import opened Chars

  /** What `JSON.parse` yields on a file: a value of the expected shape, or a syntax error. */
  datatype Text<T> = Json(value: T) | Garbled

  datatype ReadResult<T> = Read(text: Text<T>) | ReadFailed(reason: string)

  /** The rejection `readTextFile` gives for a path with no file. */
  const NotFound := "No such file or directory"

  /** The rejection `JSON.parse` throws on text that is not JSON. */
  const SyntaxError := "SyntaxError: JSON.parse: unexpected character"

  /** The files of one kind, by path. */
  class FileSystem<T> {
    var files: map<string, Text<T>>

    constructor (initial: map<string, Text<T>>)
      ensures files == initial
    {
      files := initial;
    }

    /** `readTextFile`: the text at `path`, or a rejection when there is none. */
    function ReadText(path: string): (r: ReadResult<T>)
      reads this
      ensures r.ReadFailed? <==> path !in files
      ensures path in files ==> r.text == files[path]
    {
      if path in files then Read(files[path]) else ReadFailed(NotFound)
    }

    /** `writeTextFile`: replaces the file at `path`, unless the write is
        refused (permission, disk full, bad path), which `fault` stands for. */
    method WriteText(path: string, text: Text<T>, fault: Option<string>) returns (err: Option<string>)
      modifies this
      ensures err == fault
      ensures files == if fault.None? then old(files)[path := text] else old(files)
    {
      err := fault;
      if fault.None? {
        files := files[path := text];
      }
    }
  }

  /** The kinds a `WatchEvent` can carry; `Any` and `Other` arrive as plain
      strings rather than objects. */
  datatype EventKind = Any | Other | Access | Create | Modify | Remove

  /** One `watch` subscription: the watched path and its callback's `cancelled` flag. */
  datatype Watch = Watch(path: string, cancelled: bool)

  /** Events this many milliseconds after the store's own write are taken for its echo. */
  const SuppressionMs := 500

  /** The filter at the head of both watch callbacks: the subscription is live,
      the store's own last write is at least `SuppressionMs` old, and the
      event reports a modification or a removal. For `Any` and `Other` the
      `in` test throws, which aborts the callback just as a return would. */
  predicate Reacts(w: Watch, kind: EventKind, nowMs: int, lastSaveAt: int)
  {
    !w.cancelled && !(nowMs - lastSaveAt < SuppressionMs) && (kind.Modify? || kind.Remove?)
  }
}
