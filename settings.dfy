/** The settings store: four settings kept in memory and mirrored to one
    settings file, loaded once at start-up, written after every change, and
    reloaded when another process edits the file. */
module Settings {
  import opened Chars
  import opened Fs

  const DefaultModel := "models/gemini-2.5-flash-lite"

  const DefaultPrompt := "Summarize the main content of the following webpage in 3-5 sentences.\n\nIMPORTANT: Detect the language of the webpage. If the webpage is written in Danish, you MUST write the entire summary in Danish. If it is written in English, write in English. For any other language, write in English.\n\nWebpage content:\n{content}\n\nRemember: if the webpage above is in Danish, your summary MUST be in Danish."

  /** The settings file as `JSON.parse` returns it: every field may be
      missing (a JSON `null` reads the same). */
  datatype SettingsFile = SettingsFile(
    lastOpenedFile: Option<string>,
    geminiApiKey: Option<string>,
    geminiModel: Option<string>,
    geminiPrompt: Option<string>)

  /** The four settings as the store holds them. */
  datatype SettingsValues = SettingsValues(
    lastOpenedFile: Option<string>,
    geminiApiKey: string,
    geminiModel: string,
    geminiPrompt: string)

  /** The values a fresh store starts with. */
  const Defaults := SettingsValues(None, "", DefaultModel, DefaultPrompt)

  /** The load-time defaulting: `??` fills a missing key, model or prompt;
      the last opened file is taken as it is. */
  function Decode(f: SettingsFile): SettingsValues
  {
    SettingsValues(
      f.lastOpenedFile,
      match f.geminiApiKey case Some(k) => k case None => "",
      match f.geminiModel case Some(m) => m case None => DefaultModel,
      match f.geminiPrompt case Some(p) => p case None => DefaultPrompt)
  }

  /** What `_write` puts in the file: an empty key (falsy) is left out,
      the other three fields are copied. Loading it back gives the same
      four values. */
  function Encode(v: SettingsValues): (f: SettingsFile)
    ensures f.geminiApiKey.None? <==> v.geminiApiKey == ""
    ensures f.lastOpenedFile == v.lastOpenedFile
    ensures Decode(f) == v
  {
    SettingsFile(
      v.lastOpenedFile,
      if v.geminiApiKey == "" then None else Some(v.geminiApiKey),
      Some(v.geminiModel),
      Some(v.geminiPrompt))
  }

  /** A settings file without fields loads as the defaults. */
  lemma DecodeEmpty()
    ensures Decode(SettingsFile(None, None, None, None)) == Defaults
  {
  }

  /** Writing what was loaded and loading it again changes nothing, although
      the file itself may change (an empty key stored as `""` is dropped). */
  lemma DecodeEncodeDecode(f: SettingsFile)
    ensures Decode(Encode(Decode(f))) == Decode(f)
    ensures f.geminiApiKey == Some("") ==> Encode(Decode(f)) != f
  {
  }

  class SettingsStore {
    var configPath: string
    var lastOpenedFile: Option<string>
    var geminiApiKey: string
    var geminiModel: string
    var geminiPrompt: string
    /** When `_write` last started, in milliseconds. */
    var lastSaveAt: int
    /** Every `watch` subscription made so far; none is ever cancelled. */
    var watches: seq<Watch>

    function Values(): SettingsValues
      reads this
    {
      SettingsValues(lastOpenedFile, geminiApiKey, geminiModel, geminiPrompt)
    }

    constructor ()
      ensures configPath == "" && Values() == Defaults && lastSaveAt == 0 && watches == []
    {
      configPath := "";
      lastOpenedFile := None;
      geminiApiKey := "";
      geminiModel := DefaultModel;
      geminiPrompt := DefaultPrompt;
      lastSaveAt := 0;
      watches := [];
    }

    /** The effect of one `_write` started at `nowMs`: nothing without a
        config path; otherwise the start is stamped and, unless the write is
        refused, the file holds the encoded current values. */
    twostate predicate Wrote(fs: FileSystem<SettingsFile>, nowMs: int, fault: Option<string>)
      reads this, fs
    {
      if configPath == "" then
        lastSaveAt == old(lastSaveAt) && fs.files == old(fs.files)
      else
        && lastSaveAt == nowMs
        && fs.files == if fault.None? then old(fs.files)[configPath := Json(Encode(Values()))] else old(fs.files)
    }

    /** `_write`; a refused write is swallowed. */
    method Write(nowMs: int, fs: FileSystem<SettingsFile>, fault: Option<string>)
      modifies this`lastSaveAt, fs
      ensures Wrote(fs, nowMs, fault)
    {
      if configPath == "" {
        return;
      }
      lastSaveAt := nowMs;
      var _ := fs.WriteText(configPath, Json(Encode(Values())), fault);
    }

    /** `init`, given the path `get_settings_path` answered: load the file
        if it reads and parses; otherwise keep the values and write them
        out. Then watch the file. */
    method Init(path: string, nowMs: int, fs: FileSystem<SettingsFile>, fault: Option<string>)
      modifies this, fs
      ensures configPath == path
      ensures var r := old(fs.ReadText(path));
        if r.Read? && r.text.Json? then
          && Values() == Decode(r.text.value)
          && lastSaveAt == old(lastSaveAt) && fs.files == old(fs.files)
        else
          && Values() == old(Values())
          && (path != "" ==> lastSaveAt == nowMs)
          && fs.files == if path != "" && fault.None? then old(fs.files)[path := Json(Encode(Values()))] else old(fs.files)
      ensures watches == old(watches) + if path != "" then [Watch(path, false)] else []
    {
      configPath := path;
      var r := fs.ReadText(path);
      if r.Read? && r.text.Json? {
        var f := r.text.value;
        lastOpenedFile := f.lastOpenedFile;
        geminiApiKey := match f.geminiApiKey case Some(k) => k case None => "";
        geminiModel := match f.geminiModel case Some(m) => m case None => DefaultModel;
        geminiPrompt := match f.geminiPrompt case Some(p) => p case None => DefaultPrompt;
      } else {
        Write(nowMs, fs, fault);
      }
      WatchFile();
    }

    /** `_watchFile`: subscribe to the config path, if there is one. */
    method WatchFile()
      modifies this`watches
      ensures watches == old(watches) + if configPath != "" then [Watch(configPath, false)] else []
    {
      if configPath == "" {
        return;
      }
      watches := watches + [Watch(configPath, false)];
    }

    method SetLastFile(path: string, nowMs: int, fs: FileSystem<SettingsFile>, fault: Option<string>)
      modifies this`lastOpenedFile, this`lastSaveAt, fs
      ensures Values() == old(Values()).(lastOpenedFile := Some(path))
      ensures Wrote(fs, nowMs, fault)
    {
      lastOpenedFile := Some(path);
      Write(nowMs, fs, fault);
    }

    method SetGeminiApiKey(key: string, nowMs: int, fs: FileSystem<SettingsFile>, fault: Option<string>)
      modifies this`geminiApiKey, this`lastSaveAt, fs
      ensures Values() == old(Values()).(geminiApiKey := key)
      ensures Wrote(fs, nowMs, fault)
    {
      geminiApiKey := key;
      Write(nowMs, fs, fault);
    }

    method SetGeminiModel(model: string, nowMs: int, fs: FileSystem<SettingsFile>, fault: Option<string>)
      modifies this`geminiModel, this`lastSaveAt, fs
      ensures Values() == old(Values()).(geminiModel := model)
      ensures Wrote(fs, nowMs, fault)
    {
      geminiModel := model;
      Write(nowMs, fs, fault);
    }

    method SetGeminiPrompt(prompt: string, nowMs: int, fs: FileSystem<SettingsFile>, fault: Option<string>)
      modifies this`geminiPrompt, this`lastSaveAt, fs
      ensures Values() == old(Values()).(geminiPrompt := prompt)
      ensures Wrote(fs, nowMs, fault)
    {
      geminiPrompt := prompt;
      Write(nowMs, fs, fault);
    }

    /** The callback of subscription `w` for an event of `kind` at `nowMs`:
        past the filter, a file that reads and parses replaces the four
        values; anything else leaves them as they were. */
    method OnConfigEvent(w: nat, kind: EventKind, nowMs: int, fs: FileSystem<SettingsFile>)
      requires w < |watches|
      modifies this`lastOpenedFile, this`geminiApiKey, this`geminiModel, this`geminiPrompt
      ensures var r := fs.ReadText(watches[w].path);
        if Reacts(watches[w], kind, nowMs, lastSaveAt) && r.Read? && r.text.Json? then
          Values() == Decode(r.text.value)
        else
          Values() == old(Values())
    {
      var sub := watches[w];
      if sub.cancelled || nowMs - lastSaveAt < SuppressionMs || !(kind.Modify? || kind.Remove?) {
        return;
      }
      var r := fs.ReadText(sub.path);
      if r.Read? && r.text.Json? {
        var f := r.text.value;
        lastOpenedFile := f.lastOpenedFile;
        geminiApiKey := match f.geminiApiKey case Some(k) => k case None => "";
        geminiModel := match f.geminiModel case Some(m) => m case None => DefaultModel;
        geminiPrompt := match f.geminiPrompt case Some(p) => p case None => DefaultPrompt;
      }
    }
  }
}
