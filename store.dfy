/** The bookmark store: one open document, the session flags around it, the
    save/open/new lifecycle, and the watch on the backing file that reloads
    external edits while ignoring the echo of the store's own writes.

    The lifecycle steps are specified on a snapshot of the store's fields
    (`Session`) by the functions `PersistStep`, `SaveAsStep`, `OpenStep`,
    `EventStep`, ...; each method of `BookmarkStore` is proved to move its
    fields exactly as its step function says, and the lemmas below state what
    the steps promise. */
module Store {
  import opened Chars
  import opened Types
  import opened Fs
  import opened StoreOps
  import Settings

  /** The fields of a `BookmarkStore`. `watches` lists every subscription
      `_watchFile` has made, with its `cancelled` flag; `unwatch` is the one
      that `unwatchFn` would cancel. */
  datatype Session = Session(
    filePath: string,
    data: Data,
    dirty: bool,
    saving: bool,
    error: string,
    lastSaveAt: int,
    watches: seq<Watch>,
    unwatch: Option<nat>)

  predicate WatchesOk(s: Session)
  {
    s.unwatch.Some? ==> s.unwatch.value < |s.watches|
  }

  /** The watch discipline: the handle, when set, indexes a subscription,
      and every live subscription is the one `unwatchFn` reaches, so at most
      one is live and none is stranded. */
  predicate LiveOnlyHandle(s: Session)
  {
    WatchesOk(s) &&
    forall i :: 0 <= i < |s.watches| && !s.watches[i].cancelled ==> s.unwatch == Some(i)
  }

  /** `_stopWatcher`: cancel the subscription `unwatchFn` refers to, forget it. */
  function StopWatch(s: Session): (r: Session)
    requires WatchesOk(s)
    ensures WatchesOk(r) && r.unwatch.None? && |r.watches| == |s.watches|
    ensures forall i :: 0 <= i < |s.watches| ==>
      r.watches[i].path == s.watches[i].path &&
      (r.watches[i].cancelled <==> s.watches[i].cancelled || s.unwatch == Some(i))
    ensures r.(watches := s.watches, unwatch := s.unwatch) == s
    ensures LiveOnlyHandle(s) ==> LiveOnlyHandle(r)
  {
    match s.unwatch
    case None => s
    case Some(i) => s.(watches := s.watches[i := s.watches[i].(cancelled := true)], unwatch := None)
  }

  /** `_watchFile(path)`: a new live subscription that `unwatchFn` now refers to
      (the `.then` that installs `unwatchFn` is taken to run at once). */
  function StartWatch(s: Session, path: string): (r: Session)
    ensures WatchesOk(r)
    ensures LiveOnlyHandle(s) && s.unwatch.None? ==> LiveOnlyHandle(r)
  {
    s.(watches := s.watches + [Watch(path, false)], unwatch := Some(|s.watches|))
  }

  /** `persist(path, data)`: skipped without a path or while a write is in
      flight; otherwise the start is stamped, and the outcome decides `dirty`
      and `error`. `saving` is set for the write and cleared after it. */
  function PersistStep(s: Session, path: string, nowMs: int, fault: Option<string>): Session
  {
    if path == "" || s.saving then s
    else
      match fault
      case None => s.(lastSaveAt := nowMs, dirty := false, error := "")
      case Some(e) => s.(lastSaveAt := nowMs, error := e)
  }

  /** The file contents after `persist(path, d)`. */
  function PersistFiles(s: Session, files: map<string, Text<RawData>>, path: string, d: Data, fault: Option<string>): map<string, Text<RawData>>
  {
    if path == "" || s.saving || fault.Some? then files else files[path := Json(Encode(d))]
  }

  /** The save dialog returned a path (`null` and `""` both mean cancelled). */
  predicate Chosen(chosen: Option<string>)
  {
    chosen.Some? && chosen.value != ""
  }

  /** `saveAs` adopts the chosen path exactly when `error` is empty after `persist`. */
  predicate SaveAsAdopts(s: Session, chosen: Option<string>, nowMs: int, fault: Option<string>)
  {
    Chosen(chosen) && PersistStep(s, chosen.value, nowMs, fault).error == ""
  }

  /** `saveAs` with the previous subscription stopped before the new path is
      watched (see `SaveAsStepAsWritten` for the code as written). */
  function SaveAsStep(s: Session, chosen: Option<string>, nowMs: int, fault: Option<string>): (r: Session)
    requires WatchesOk(s)
    ensures WatchesOk(r)
    ensures LiveOnlyHandle(s) ==> LiveOnlyHandle(r)
  {
    if !Chosen(chosen) then s
    else
      var p := PersistStep(s, chosen.value, nowMs, fault);
      if p.error == "" then StartWatch(StopWatch(p).(filePath := chosen.value), chosen.value) else p
  }

  /** `saveAs` as written: the new path is watched while the subscription on
      the previous path stays live. */
  function SaveAsStepAsWritten(s: Session, chosen: Option<string>, nowMs: int, fault: Option<string>): (r: Session)
    requires WatchesOk(s)
    ensures WatchesOk(r)
  {
    if !Chosen(chosen) then s
    else
      var p := PersistStep(s, chosen.value, nowMs, fault);
      if p.error == "" then StartWatch(p.(filePath := chosen.value), chosen.value) else p
  }

  /** The file contents after `saveAs` (both versions write the same). */
  function SaveAsFiles(s: Session, files: map<string, Text<RawData>>, chosen: Option<string>, fault: Option<string>): map<string, Text<RawData>>
  {
    if Chosen(chosen) then PersistFiles(s, files, chosen.value, s.data, fault) else files
  }

  /** `save`: `saveAs` when there is no path yet, otherwise `persist` to it. */
  function SaveStep(s: Session, chosen: Option<string>, nowMs: int, fault: Option<string>): (r: Session)
    requires WatchesOk(s)
    ensures WatchesOk(r)
    ensures LiveOnlyHandle(s) ==> LiveOnlyHandle(r)
  {
    if s.filePath == "" then SaveAsStep(s, chosen, nowMs, fault) else PersistStep(s, s.filePath, nowMs, fault)
  }

  /** The first half of `newFile`: stop watching, empty document, no path, no flags. */
  function Reset(s: Session): (r: Session)
    requires WatchesOk(s)
    ensures WatchesOk(r)
    ensures LiveOnlyHandle(s) ==> LiveOnlyHandle(r)
  {
    StopWatch(s).(data := EmptyData, filePath := "", dirty := false, error := "")
  }

  /** `newFile`: reset, then `saveAs`. */
  function NewFileStep(s: Session, chosen: Option<string>, nowMs: int, fault: Option<string>): (r: Session)
    requires WatchesOk(s)
    ensures WatchesOk(r)
    ensures LiveOnlyHandle(s) ==> LiveOnlyHandle(r)
  {
    SaveAsStep(Reset(s), chosen, nowMs, fault)
  }

  /** `openPath(path)`: stop watching; a file that reads and parses replaces
      the document and becomes the path, a failure only sets `error`; then
      whatever path the session has is watched again. */
  function OpenStep(s: Session, path: string, read: ReadResult<RawData>): (r: Session)
    requires WatchesOk(s)
    ensures WatchesOk(r)
    ensures LiveOnlyHandle(s) ==> LiveOnlyHandle(r)
  {
    var t := StopWatch(s);
    var u := match Load(read)
      case Ok(d) => t.(data := d, filePath := path, dirty := false, error := "")
      case Err(e) => t.(error := e);
    if u.filePath != "" then StartWatch(u, u.filePath) else u
  }

  /** The callback of subscription `w` for an event of `kind` at `nowMs`,
      `read` being what reading the watched path gives: past the filter a
      document that loads replaces `data` and clears `dirty`; a failed read or
      parse is ignored. */
  function EventStep(s: Session, w: nat, kind: EventKind, nowMs: int, read: ReadResult<RawData>): Session
    requires w < |s.watches|
  {
    if !Reacts(s.watches[w], kind, nowMs, s.lastSaveAt) then s
    else
      match Load(read)
      case Ok(d) => s.(data := d, dirty := false)
      case Err(_) => s
  }

  // ─── What the steps promise ─────────────────────────────────────────────

  /** A `persist` that runs stamps its start, clears `saving`, and either
      clears `dirty` and `error` (success) or records the failure and keeps
      `dirty` (failure); the document, path and watches are untouched. */
  lemma PersistOutcome(s: Session, path: string, nowMs: int, fault: Option<string>)
    requires path != "" && !s.saving
    ensures var r := PersistStep(s, path, nowMs, fault);
      && r.lastSaveAt == nowMs && !r.saving
      && r.data == s.data && r.filePath == s.filePath && r.watches == s.watches && r.unwatch == s.unwatch
      && (fault.None? ==> !r.dirty && r.error == "")
      && (fault.Some? ==> r.dirty == s.dirty && r.error == fault.value)
  {
  }

  /** Without a live handle, as when there is no path, stopping the watcher
      first changes nothing: `save` and `newFile`, which reach `saveAs` only
      without a path, behave exactly as the code as written does. */
  lemma SaveAsAgreesWithoutHandle(s: Session, chosen: Option<string>, nowMs: int, fault: Option<string>)
    requires WatchesOk(s) && s.unwatch.None?
    ensures SaveAsStep(s, chosen, nowMs, fault) == SaveAsStepAsWritten(s, chosen, nowMs, fault)
  {
    if Chosen(chosen) {
      var p := PersistStep(s, chosen.value, nowMs, fault);
      var t := StopWatch(p);
      assert t.watches == p.watches;
    }
  }

  /** With a non-empty failure reason and no write in flight, `saveAs` moves
      the session to the chosen path exactly when the write succeeded, and
      then cancels the old handle's subscription and watches the new path
      through the handle, so a session keeping the watch discipline keeps
      it; a failed write leaves path and watches as they were. A cancelled dialog changes nothing. */
  lemma SaveAsAdoptsOnlyOnSuccess(s: Session, chosen: Option<string>, nowMs: int, fault: Option<string>)
    requires WatchesOk(s) && !s.saving
    requires fault.Some? ==> fault.value != ""
    ensures var r := SaveAsStep(s, chosen, nowMs, fault);
      && (!Chosen(chosen) ==> r == s)
      && (Chosen(chosen) && fault.None? ==>
            && r.filePath == chosen.value && !r.dirty && r.error == "" && r.data == s.data
            && r.unwatch == Some(|s.watches|) && r.watches[|s.watches|] == Watch(chosen.value, false)
            && (s.unwatch.Some? ==> r.watches[s.unwatch.value].cancelled)
            && (forall i :: 0 <= i < |s.watches| ==> r.watches[i].cancelled || s.watches[i].cancelled == r.watches[i].cancelled)
            && (LiveOnlyHandle(s) ==> LiveOnlyHandle(r)))
      && (Chosen(chosen) && fault.Some? ==>
            && r.filePath == s.filePath && r.error == fault.value && r.dirty == s.dirty
            && r.watches == s.watches && r.unwatch == s.unwatch)
  {
  }

  /** If `saveAs` runs while an earlier write is still in flight and `error`
      is empty, `persist` returns at once and the session adopts the chosen
      path although nothing was written to it. */
  lemma SaveAsWhileSaving(s: Session, chosen: Option<string>, nowMs: int, fault: Option<string>, files: map<string, Text<RawData>>)
    requires WatchesOk(s) && s.saving && s.error == "" && Chosen(chosen)
    ensures SaveAsStep(s, chosen, nowMs, fault).filePath == chosen.value
    ensures SaveAsFiles(s, files, chosen, fault) == files
  {
  }

  /** Self-write suppression: after a `persist` that ran at `nowMs`, an event
      arriving less than 500 ms later changes nothing, whatever its kind and
      whatever the file holds. */
  lemma EchoOfOwnWriteIgnored(s: Session, path: string, nowMs: int, fault: Option<string>,
                              w: nat, kind: EventKind, t: int, read: ReadResult<RawData>)
    requires path != "" && !s.saving && w < |s.watches|
    requires t < nowMs + SuppressionMs
    ensures var p := PersistStep(s, path, nowMs, fault);
      EventStep(p, w, kind, t, read) == p
  {
  }

  /** External-change adoption: a modify or remove event on a live
      subscription at least 500 ms after the last write replaces the document
      with what the file holds and clears `dirty`; a file that does not read
      or parse leaves the session as it was. */
  lemma ExternalChangeAdopted(s: Session, w: nat, kind: EventKind, nowMs: int, read: ReadResult<RawData>)
    requires w < |s.watches| && !s.watches[w].cancelled
    requires kind == Modify || kind == Remove
    requires nowMs >= s.lastSaveAt + SuppressionMs
    ensures var r := EventStep(s, w, kind, nowMs, read);
      && (read.Read? && read.text.Json? ==> r == s.(data := Normalize(read.text.value), dirty := false))
      && (!(read.Read? && read.text.Json?) ==> r == s)
  {
  }

  /** A failed open keeps the document, the path and `dirty`, records the
      failure, and watches the old path again (if there was one). */
  lemma OpenFailureKeepsDocument(s: Session, path: string, read: ReadResult<RawData>)
    requires WatchesOk(s) && Load(read).Err?
    ensures var r := OpenStep(s, path, read);
      && r.data == s.data && r.filePath == s.filePath && r.dirty == s.dirty
      && r.error == Load(read).reason
      && (s.filePath != "" ==> r.unwatch == Some(|s.watches|) && r.watches[|s.watches|] == Watch(s.filePath, false))
      && (s.filePath == "" ==> r.unwatch.None?)
  {
  }

  /** A successful open adopts the loaded document and the path, clears the
      flags, cancels the old handle's subscription and watches the new path;
      from a session keeping the watch discipline, that is the one live
      subscription, reached by `unwatchFn`. */
  lemma OpenSuccessWatchesNewPath(s: Session, path: string, read: ReadResult<RawData>)
    requires WatchesOk(s) && Load(read).Ok? && path != ""
    ensures var r := OpenStep(s, path, read);
      && r.data == Load(read).value && r.filePath == path && !r.dirty && r.error == ""
      && r.unwatch == Some(|s.watches|) && r.watches[|s.watches|] == Watch(path, false)
      && (s.unwatch.Some? ==> r.watches[s.unwatch.value].cancelled)
      && (LiveOnlyHandle(s) ==> LiveOnlyHandle(r))
  {
  }

  /** The subscription that was current before `saveAs` is cancelled by the
      corrected step but stays live with the code as written: a later external
      edit of the OLD file then replaces the document of the session that now
      belongs to the new path. The as-written step thus breaks the watch
      discipline, which the corrected step keeps. */
  lemma {:induction false} StaleWatchAfterSaveAs(s: Session, chosen: Option<string>, nowMs: int,
                                                 kind: EventKind, t: int, raw: RawData)
    requires WatchesOk(s) && !s.saving && Chosen(chosen)
    requires s.unwatch.Some? && !s.watches[s.unwatch.value].cancelled
    requires kind == Modify && t >= nowMs + SuppressionMs
    ensures var i := s.unwatch.value;
      var written := SaveAsStepAsWritten(s, chosen, nowMs, None);
      var fixed := SaveAsStep(s, chosen, nowMs, None);
      && written.filePath == fixed.filePath == chosen.value
      && written.watches[i] == s.watches[i] && !LiveOnlyHandle(written)
      && EventStep(written, i, kind, t, Read(Json(raw))).data == Normalize(raw)
      && fixed.watches[i].cancelled
      && EventStep(fixed, i, kind, t, Read(Json(raw))) == fixed
  {
    var i := s.unwatch.value;
    var p := PersistStep(s, chosen.value, nowMs, None);
    assert p.watches == s.watches && p.lastSaveAt == nowMs;
    var written := SaveAsStepAsWritten(s, chosen, nowMs, None);
    assert written == StartWatch(p.(filePath := chosen.value), chosen.value);
    assert written.watches[i] == s.watches[i];
    var fixed := SaveAsStep(s, chosen, nowMs, None);
    assert fixed == StartWatch(StopWatch(p).(filePath := chosen.value), chosen.value);
    assert fixed.watches[i] == StopWatch(p).watches[i];
  }

  // ─── The store ──────────────────────────────────────────────────────────

  /** Noted in the settings: `setLastFile(path)` ran. */
  twostate predicate LastFileNoted(st: Settings.SettingsStore, sfs: FileSystem<Settings.SettingsFile>,
                                   path: string, nowMs: int, fault: Option<string>)
    reads st, sfs
  {
    st.Values() == old(st.Values()).(lastOpenedFile := Some(path)) && st.Wrote(sfs, nowMs, fault)
  }

  twostate predicate SettingsUntouched(st: Settings.SettingsStore, sfs: FileSystem<Settings.SettingsFile>)
    reads st, sfs
  {
    st.Values() == old(st.Values()) && st.lastSaveAt == old(st.lastSaveAt) && sfs.files == old(sfs.files)
  }

  class BookmarkStore {
    var filePath: string
    var data: Data
    var dirty: bool
    var saving: bool
    var error: string
    var lastSaveAt: int
    var watches: seq<Watch>
    var unwatch: Option<nat>

    function State(): Session
      reads this
    {
      Session(filePath, data, dirty, saving, error, lastSaveAt, watches, unwatch)
    }

    /** The handle points into the subscriptions, and without a path there
        is no live handle: every path through the source that clears
        `filePath` stops the watcher first. */
    ghost predicate HandleOk()
      reads this
    {
      WatchesOk(State()) && (filePath == "" ==> unwatch.None?)
    }

    /** `HandleOk`, and the watch discipline: the only live subscription is
        the one `unwatchFn` reaches. The code as written (`SaveAsAsWritten`)
        breaks the discipline. */
    ghost predicate Valid()
      reads this
    {
      HandleOk() && LiveOnlyHandle(State())
    }

    constructor ()
      ensures Valid() && State() == Session("", EmptyData, false, false, "", 0, [], None)
    {
      filePath := "";
      data := EmptyData;
      dirty := false;
      saving := false;
      error := "";
      lastSaveAt := 0;
      watches := [];
      unwatch := None;
    }

    /** `sortedBookmarks`: the bookmarks, newest id first. */
    function SortedBookmarks(): (r: seq<Bookmark>)
      reads this
      ensures SortedDesc(r, BookmarkId) && multiset(r) == multiset(data.bookmarks)
    {
      SortDesc(data.bookmarks, BookmarkId)
    }

    /** `sortedProjects`: the projects, newest id first. */
    function SortedProjects(): (r: seq<Project>)
      reads this
      ensures SortedDesc(r, ProjectId) && multiset(r) == multiset(data.projects)
    {
      SortDesc(data.projects, ProjectId)
    }

    // ─── Persistence ──────────────────────────────────────────────────────

    method Persist(path: string, d: Data, nowMs: int, fs: FileSystem<RawData>, fault: Option<string>)
      modifies this`saving, this`lastSaveAt, this`dirty, this`error, fs
      ensures State() == PersistStep(old(State()), path, nowMs, fault)
      ensures fs.files == PersistFiles(old(State()), old(fs.files), path, d, fault)
    {
      if path == "" || saving {
        return;
      }
      saving := true;
      lastSaveAt := nowMs;
      var err := fs.WriteText(path, Json(Encode(d)), fault);
      if err.None? {
        dirty := false;
        error := "";
      } else {
        error := err.value;
      }
      saving := false;
    }

    method Save(chosen: Option<string>, nowMs: int, fs: FileSystem<RawData>,
                settings: Settings.SettingsStore, sfs: FileSystem<Settings.SettingsFile>,
                fault: Option<string>, settingsFault: Option<string>)
      requires Valid()
      modifies this, fs, settings`lastOpenedFile, settings`lastSaveAt, sfs
      ensures Valid()
      ensures State() == SaveStep(old(State()), chosen, nowMs, fault)
      ensures fs.files == if old(filePath) == "" then SaveAsFiles(old(State()), old(fs.files), chosen, fault)
                          else PersistFiles(old(State()), old(fs.files), old(filePath), old(data), fault)
      ensures if old(filePath) == "" && SaveAsAdopts(old(State()), chosen, nowMs, fault)
              then LastFileNoted(settings, sfs, chosen.value, nowMs, settingsFault)
              else SettingsUntouched(settings, sfs)
    {
      if filePath == "" {
        SaveAs(chosen, nowMs, fs, settings, sfs, fault, settingsFault);
        return;
      }
      Persist(filePath, data, nowMs, fs, fault);
    }

    /** `saveAs`, with the previous subscription stopped before the new path
        is watched. */
    method SaveAs(chosen: Option<string>, nowMs: int, fs: FileSystem<RawData>,
                  settings: Settings.SettingsStore, sfs: FileSystem<Settings.SettingsFile>,
                  fault: Option<string>, settingsFault: Option<string>)
      requires Valid()
      modifies this, fs, settings`lastOpenedFile, settings`lastSaveAt, sfs
      ensures Valid()
      ensures State() == SaveAsStep(old(State()), chosen, nowMs, fault)
      ensures fs.files == SaveAsFiles(old(State()), old(fs.files), chosen, fault)
      ensures if SaveAsAdopts(old(State()), chosen, nowMs, fault)
              then LastFileNoted(settings, sfs, chosen.value, nowMs, settingsFault)
              else SettingsUntouched(settings, sfs)
    {
      if !Chosen(chosen) {
        return;
      }
      var path := chosen.value;
      Persist(path, data, nowMs, fs, fault);
      if error == "" {
        StopWatcher();
        filePath := path;
        settings.SetLastFile(path, nowMs, sfs, settingsFault);
        WatchFile(path);
      }
    }

    /** `saveAs` as the source has it: the subscription on the previous path
        is neither cancelled nor reachable afterwards. */
    method SaveAsAsWritten(chosen: Option<string>, nowMs: int, fs: FileSystem<RawData>,
                           settings: Settings.SettingsStore, sfs: FileSystem<Settings.SettingsFile>,
                           fault: Option<string>, settingsFault: Option<string>)
      requires HandleOk()
      modifies this, fs, settings`lastOpenedFile, settings`lastSaveAt, sfs
      ensures HandleOk()
      ensures State() == SaveAsStepAsWritten(old(State()), chosen, nowMs, fault)
      ensures fs.files == SaveAsFiles(old(State()), old(fs.files), chosen, fault)
      ensures forall i :: 0 <= i < |old(watches)| ==> watches[i] == old(watches)[i]
      ensures if SaveAsAdopts(old(State()), chosen, nowMs, fault)
              then LastFileNoted(settings, sfs, chosen.value, nowMs, settingsFault)
              else SettingsUntouched(settings, sfs)
    {
      if !Chosen(chosen) {
        return;
      }
      var path := chosen.value;
      Persist(path, data, nowMs, fs, fault);
      if error == "" {
        filePath := path;
        settings.SetLastFile(path, nowMs, sfs, settingsFault);
        WatchFile(path);
      }
    }

    method NewFile(chosen: Option<string>, nowMs: int, fs: FileSystem<RawData>,
                   settings: Settings.SettingsStore, sfs: FileSystem<Settings.SettingsFile>,
                   fault: Option<string>, settingsFault: Option<string>)
      requires Valid()
      modifies this, fs, settings`lastOpenedFile, settings`lastSaveAt, sfs
      ensures Valid()
      ensures State() == NewFileStep(old(State()), chosen, nowMs, fault)
      ensures fs.files == SaveAsFiles(Reset(old(State())), old(fs.files), chosen, fault)
      ensures if SaveAsAdopts(Reset(old(State())), chosen, nowMs, fault)
              then LastFileNoted(settings, sfs, chosen.value, nowMs, settingsFault)
              else SettingsUntouched(settings, sfs)
    {
      StopWatcher();
      data := EmptyData;
      filePath := "";
      dirty := false;
      error := "";
      SaveAs(chosen, nowMs, fs, settings, sfs, fault, settingsFault);
    }

    /** `openPath`: the last-opened path is noted in the settings whether or
        not the open succeeded. */
    method OpenPath(path: string, nowMs: int, fs: FileSystem<RawData>,
                    settings: Settings.SettingsStore, sfs: FileSystem<Settings.SettingsFile>,
                    settingsFault: Option<string>)
      requires Valid()
      modifies this, settings`lastOpenedFile, settings`lastSaveAt, sfs
      ensures Valid()
      ensures State() == OpenStep(old(State()), path, fs.ReadText(path))
      ensures LastFileNoted(settings, sfs, path, nowMs, settingsFault)
    {
      StopWatcher();
      var loaded := Load(fs.ReadText(path));
      match loaded {
        case Ok(d) =>
          data := d;
          filePath := path;
          dirty := false;
          error := "";
        case Err(e) =>
          error := e;
      }
      ghost var u := State();
      assert u.watches == StopWatch(old(State())).watches && u.unwatch.None?;
      if filePath != "" {
        WatchFile(filePath);
      }
      assert State() == OpenStep(old(State()), path, fs.ReadText(path));
      settings.SetLastFile(path, nowMs, sfs, settingsFault);
    }

    // ─── Bookmark CRUD ────────────────────────────────────────────────────

    method AddBookmark(f: BookmarkFields, stamp: string) returns (b: Bookmark)
      modifies this`data, this`dirty
      ensures b == NewBookmark(old(data), f, stamp) && b.id == old(data).idCounter + 1
      ensures data == AddBookmarkTo(old(data), f, stamp) && dirty
      ensures WellNumbered(old(data)) ==> WellNumbered(data) && !HasId(old(data), b.id)
    {
      var id := data.idCounter + 1;
      data := data.(idCounter := id);
      b := Bookmark(id, f.url, f.title, f.note, f.tags, stamp);
      data := data.(bookmarks := [b] + data.bookmarks);
      dirty := true;
      if WellNumbered(old(data)) {
        AddBookmarkFresh(old(data), f, stamp);
      }
    }

    method UpdateBookmark(updated: Bookmark, stamp: string)
      modifies this`data, this`dirty
      ensures data == UpdateBookmarkIn(old(data), updated, stamp)
      ensures dirty == (old(dirty) || exists b :: b in old(data).bookmarks && b.id == updated.id)
      ensures WellNumbered(old(data)) ==> WellNumbered(data)
    {
      UpdateBookmarkEffect(data, updated, stamp);
      var idx := FirstIndex(data.bookmarks, BookmarkId, updated.id);
      if idx == -1 {
        return;
      }
      data := data.(bookmarks := data.bookmarks[idx := updated.(lastUpdated := stamp)]);
      dirty := true;
    }

    method DeleteBookmark(id: int)
      modifies this`data, this`dirty
      ensures data == DeleteBookmarkFrom(old(data), id) && dirty
      ensures forall b :: b in data.bookmarks ==> b.id != id
      ensures forall p :: p in data.projects ==> id !in p.bookmarks
      ensures WellNumbered(old(data)) ==> WellNumbered(data)
    {
      DeleteBookmarkIntegrity(data, id);
      data := data.(bookmarks := Without(data.bookmarks, BookmarkId, id));
      var ps := data.projects;
      data := data.(projects := seq(|ps|, i requires 0 <= i < |ps| =>
                      ps[i].(bookmarks := Without(ps[i].bookmarks, RefId, id))));
      dirty := true;
    }

    // ─── Project CRUD ─────────────────────────────────────────────────────

    method AddProject(f: ProjectFields, stamp: string) returns (p: Project)
      modifies this`data, this`dirty
      ensures p == NewProject(old(data), f, stamp) && p.id == old(data).idCounter + 1
      ensures data == AddProjectTo(old(data), f, stamp) && dirty
      ensures WellNumbered(old(data)) ==> WellNumbered(data) && !HasId(old(data), p.id)
    {
      var id := data.idCounter + 1;
      data := data.(idCounter := id);
      p := Project(id, f.title, f.note, f.bookmarks, stamp);
      data := data.(projects := [p] + data.projects);
      dirty := true;
      if WellNumbered(old(data)) {
        AddProjectFresh(old(data), f, stamp);
      }
    }

    method UpdateProject(updated: Project, stamp: string)
      modifies this`data, this`dirty
      ensures data == UpdateProjectIn(old(data), updated, stamp)
      ensures dirty == (old(dirty) || exists p :: p in old(data).projects && p.id == updated.id)
      ensures WellNumbered(old(data)) ==> WellNumbered(data)
    {
      UpdateProjectEffect(data, updated, stamp);
      var idx := FirstIndex(data.projects, ProjectId, updated.id);
      if idx == -1 {
        return;
      }
      data := data.(projects := data.projects[idx := updated.(lastUpdated := stamp)]);
      dirty := true;
    }

    method DeleteProject(id: int)
      modifies this`data, this`dirty
      ensures data == DeleteProjectFrom(old(data), id) && dirty
      ensures data.bookmarks == old(data).bookmarks
      ensures WellNumbered(old(data)) ==> WellNumbered(data)
    {
      if WellNumbered(data) {
        DeleteProjectKeepsNumbering(data, id);
      }
      data := data.(projects := Without(data.projects, ProjectId, id));
      dirty := true;
    }

    // ─── File watcher ─────────────────────────────────────────────────────

    method StopWatcher()
      requires Valid()
      modifies this`watches, this`unwatch
      ensures Valid() && State() == StopWatch(old(State()))
    {
      if unwatch.Some? {
        var i := unwatch.value;
        watches := watches[i := watches[i].(cancelled := true)];
      }
      unwatch := None;
    }

    method WatchFile(path: string)
      modifies this`watches, this`unwatch
      ensures State() == StartWatch(old(State()), path)
      ensures filePath != "" ==> HandleOk()
    {
      watches := watches + [Watch(path, false)];
      unwatch := Some(|watches| - 1);
    }

    /** The callback of subscription `w`; it reads the path it was made for. */
    method OnFileEvent(w: nat, kind: EventKind, nowMs: int, fs: FileSystem<RawData>)
      requires HandleOk() && w < |watches|
      modifies this`data, this`dirty
      ensures HandleOk() && (old(Valid()) ==> Valid())
      ensures State() == EventStep(old(State()), w, kind, nowMs, fs.ReadText(watches[w].path))
    {
      var sub := watches[w];
      if sub.cancelled || nowMs - lastSaveAt < SuppressionMs || !(kind.Modify? || kind.Remove?) {
        return;
      }
      var loaded := Load(fs.ReadText(sub.path));
      if loaded.Ok? {
        data := loaded.value;
        dirty := false;
      }
    }
  }
}
