/**
 * `main` and the config-file helpers around it: choosing the config path, backing the file up,
 * writing it atomically, and the write gate that decides whether anything reaches the disk.
 */
module Installer {

  import opened Wrappers
  import opened Text
  import opened ConfigDoc
  import opened ServerDiff
  import opened NodeLocator
  import opened Entries
  import opened Menu

  /** One change the installer makes to the file system, in the order it makes them. */
  datatype FsEvent = Wrote(path: string) | Copied(source: string, target: string) | Replaced(source: string, target: string)

  /** The files the installer touches, by path. */
  class FileSystem {
    var files: map<string, FileContent>
    ghost var log: seq<FsEvent>

    constructor (files: map<string, FileContent>)
      ensures this.files == files && log == []
    {
      this.files := files;
      log := [];
    }

    /** `open(path, "w")` and `json.dump(doc, f, indent=2)`. */
    method WriteJson(path: string, doc: Doc)
      modifies this
      ensures files == old(files)[path := Json(doc)]
      ensures log == old(log) + [Wrote(path)]
    {
      files := files[path := Json(doc)];
      log := log + [Wrote(path)];
    }

    /** `shutil.copy2(source, target)`; the source must exist. */
    method Copy(source: string, target: string)
      requires source in files
      modifies this
      ensures files == old(files)[target := old(files)[source]]
      ensures log == old(log) + [Copied(source, target)]
    {
      files := files[target := files[source]];
      log := log + [Copied(source, target)];
    }

    /** `os.replace(source, target)`: the target takes the source's content in one step. */
    method Replace(source: string, target: string)
      requires source in files
      modifies this
      ensures files == (old(files) - {source})[target := old(files)[source]]
      ensures log == old(log) + [Replaced(source, target)]
    {
      files := (files - {source})[target := files[source]];
      log := log + [Replaced(source, target)];
    }
  }

  /** The command line: `--preview` and `--config PATH`. */
  datatype Args = Args(preview: bool, config: Option<string>)

  /** `if custom_path:` — a `--config` value counts only when it is not empty. */
  predicate Sandboxed(args: Args) {
    args.config.Some? && args.config.value != ""
  }

  /** `DEFAULT_CONFIG_PATH` for the operator's home directory. */
  function DefaultConfigPath(home: string): string {
    home + "/Library/Application Support/Claude/claude_desktop_config.json"
  }

  /** The path `get_config_path` settles on. */
  function ConfigPath(args: Args, home: string): string {
    if Sandboxed(args) then args.config.value else DefaultConfigPath(home)
  }

  /** The files after `get_config_path`: a missing sandbox file is created holding the skeleton. */
  function Prepared(files: map<string, FileContent>, args: Args, home: string): map<string, FileContent> {
    var path := ConfigPath(args, home);
    if Sandboxed(args) && path !in files then files[path := Json(SKELETON)] else files
  }

  /** What `get_config_path` adds to the log. */
  function PrepareLog(files: map<string, FileContent>, args: Args, home: string): seq<FsEvent> {
    var path := ConfigPath(args, home);
    if Sandboxed(args) && path !in files then [Wrote(path)] else []
  }

  datatype Fatal = ConfigNotFound

  /**
   * `get_config_path(args.config)`: a sandbox path is used as given, created with the skeleton
   * when missing; the default path must already exist.
   */
  method GetConfigPath(fs: FileSystem, args: Args, home: string) returns (r: Result<string, Fatal>)
    modifies fs
    ensures fs.files == Prepared(old(fs.files), args, home)
    ensures fs.log == old(fs.log) + PrepareLog(old(fs.files), args, home)
    ensures r.Ok? <==> Sandboxed(args) || DefaultConfigPath(home) in old(fs.files)
    ensures r.Ok? ==> r.value == ConfigPath(args, home) && r.value in fs.files
  {
    if Sandboxed(args) {
      var path := args.config.value;
      if path !in fs.files {
        fs.WriteJson(path, SKELETON);
      }
      return Ok(path);
    }
    var path := DefaultConfigPath(home);
    if path !in fs.files {
      return Err(ConfigNotFound);
    }
    return Ok(path);
  }

  /** `backup_config(path)`: `path.backup` takes a copy of the file as it is now. */
  method BackupConfig(fs: FileSystem, path: string)
    requires path in fs.files
    modifies fs
    ensures fs.files == old(fs.files)[path + ".backup" := old(fs.files)[path]]
    ensures fs.log == old(fs.log) + [Copied(path, path + ".backup")]
  {
    fs.Copy(path, path + ".backup");
  }

  /**
   * `save_config(path, config)`: the document is written to `path.tmp`, which then replaces
   * `path`; no temporary file is left behind.
   */
  method SaveConfig(fs: FileSystem, path: string, doc: Doc)
    modifies fs
    ensures fs.files == (old(fs.files) - {path + ".tmp"})[path := Json(doc)]
    ensures fs.log == old(fs.log) + [Wrote(path + ".tmp"), Replaced(path + ".tmp", path)]
  {
    var tmp := path + ".tmp";
    fs.WriteJson(tmp, doc);
    fs.Replace(tmp, path);
  }

  /** The last the config file holds before the `os.replace`: only the temporary file changed. */
  lemma SaveKeepsOriginalUntilReplace(files: map<string, FileContent>, path: string, doc: Doc)
    requires path in files
    ensures var tmp := path + ".tmp";
      var written := files[tmp := Json(doc)];
      written[path] == files[path] && (written - {tmp}) == files - {tmp}
  {
    var tmp := path + ".tmp";
    assert tmp != path by {
      assert |tmp| == |path| + 4;
    }
  }

  /** How a run of the installer ends. */
  datatype Outcome =
    | NoConfig                             // default config missing: exit status 1
    | InvalidJson                          // config is not valid JSON: exit status 1
    | MenuQuit                             // the operator quit at the menu
    | InputEnded                           // end of input at a prompt
    | NothingInstalled                     // every selected installer skipped
    | Aborted                              // preview answer other than y
    | Written(names: seq<string>, doc: Doc)  // config backed up and replaced

  /** The servers the installers may touch. */
  const MANAGED_KEYS: set<string> := {GYMHAPPY_KEY, METABASE_KEY}

  /**
   * Whether the installer for a menu key installs on its answer: `install_gymhappy` needs a
   * token, `install_metabase` an API key and a Node.js 20 or later, where `node` is what
   * `find_node_v20` returns.
   */
  predicate Installable(key: string, answer: string, node: NodeLookup) {
    answer != "" && (key == "1" || node.Found?)
  }

  /** The definition the installer for a menu key writes for its answer. */
  function EntryFor(key: string, answer: string, node: NodeLookup): Value
    requires key == "1" || node.Found?
  {
    if key == "1" then GymHappyEntry(answer)
    else MetabaseEntry(node.npx, answer, node.binDir)
  }

  /** One installer on its answer: the document afterwards, and whether it installed. */
  function InstallStep(doc: Doc, key: string, answer: string, node: NodeLookup): (Doc, bool)
    requires IsMenuKey(key)
  {
    if Installable(key, answer, node) then
      (SetServer(doc, McpConfigKey(key), EntryFor(key, answer, node)), true)
    else (doc, false)
  }

  /** What the run of the installers leaves: the document, the names installed, the answers read, and whether input ran out. */
  datatype InstallRun = InstallRun(doc: Doc, names: seq<string>, used: nat, ended: bool)

  /**
   * The installers for `selected`, in order, each on the next of `answers` (stripped, as
   * `prompt` returns it); the run stops when the answers run out.
   */
  function Installs(doc: Doc, selected: seq<string>, node: NodeLookup, answers: seq<string>): (r: InstallRun)
    requires forall i :: 0 <= i < |selected| ==> IsMenuKey(selected[i])
    ensures r.used <= |answers| && r.used <= |selected|
    decreases |selected|
  {
    if selected == [] then InstallRun(doc, [], 0, false)
    else if answers == [] then InstallRun(doc, [], 0, true)
    else
      var step := InstallStep(doc, selected[0], Strip(answers[0]), node);
      var rest := Installs(step.0, selected[1..], node, answers[1..]);
      InstallRun(rest.doc, (if step.1 then [McpName(selected[0])] else []) + rest.names, rest.used + 1, rest.ended)
  }

  /** One installer step of `Installs`, unfolded: the first installer left `after`, and reported `installed`. */
  lemma InstallsUnfold(doc: Doc, selected: seq<string>, node: NodeLookup, answers: seq<string>, after: Doc, installed: bool)
    requires forall i :: 0 <= i < |selected| ==> IsMenuKey(selected[i])
    requires selected != [] && answers != []
    requires (after, installed) == InstallStep(doc, selected[0], Strip(answers[0]), node)
    ensures var rest := Installs(after, selected[1..], node, answers[1..]);
      Installs(doc, selected, node, answers)
        == InstallRun(rest.doc, (if installed then [McpName(selected[0])] else []) + rest.names, rest.used + 1, rest.ended)
  {
  }

  /** Each installer reads one answer; the run ends early exactly when the answers run out first. */
  lemma {:induction false} InstallsCount(doc: Doc, selected: seq<string>, node: NodeLookup, answers: seq<string>)
    requires forall i :: 0 <= i < |selected| ==> IsMenuKey(selected[i])
    ensures var r := Installs(doc, selected, node, answers);
      && r.used == (if |answers| < |selected| then |answers| else |selected|)
      && (r.ended <==> |answers| < |selected|)
    decreases |selected|
  {
    if selected != [] && answers != [] {
      var step := InstallStep(doc, selected[0], Strip(answers[0]), node);
      InstallsCount(step.0, selected[1..], node, answers[1..]);
    }
  }

  /**
   * One installer touches only its own managed server, removes nothing, keeps the document
   * well formed, and when it installs, its server holds the definition for the answer.
   */
  lemma InstallStepEffect(doc: Doc, key: string, answer: string, node: NodeLookup)
    requires IsMenuKey(key)
    ensures var step := InstallStep(doc, key, answer, node);
      && (step.1 <==> Installable(key, answer, node))
      && (!step.1 ==> step.0 == doc)
      && (step.1 ==> Get(ServersOf(step.0), McpConfigKey(key)) == Some(EntryFor(key, answer, node)))
      && AgreesOutside(doc, step.0, MANAGED_KEYS)
      && InstalledKeys(doc) <= InstalledKeys(step.0)
      && (WellFormed(doc) ==> WellFormed(step.0))
  {
    if Installable(key, answer, node) {
      SetServerEffect(doc, McpConfigKey(key), EntryFor(key, answer, node));
    }
  }

  /**
   * The installers touch only the GymHappy Support and Metabase servers, remove none, keep the
   * document well formed, report only those two names, and leave the document as it was when
   * they report nothing.
   */
  lemma {:induction false} InstallsFrame(doc: Doc, selected: seq<string>, node: NodeLookup, answers: seq<string>)
    requires forall i :: 0 <= i < |selected| ==> IsMenuKey(selected[i])
    ensures var r := Installs(doc, selected, node, answers);
      && AgreesOutside(doc, r.doc, MANAGED_KEYS)
      && InstalledKeys(doc) <= InstalledKeys(r.doc)
      && (WellFormed(doc) ==> WellFormed(r.doc))
      && (forall j :: 0 <= j < |r.names| ==> r.names[j] in {"GymHappy Support", "Metabase"})
      && (r.names == [] ==> r.doc == doc)
    decreases |selected|
  {
    if selected != [] && answers != [] {
      var step := InstallStep(doc, selected[0], Strip(answers[0]), node);
      InstallStepEffect(doc, selected[0], Strip(answers[0]), node);
      InstallsFrame(step.0, selected[1..], node, answers[1..]);
      var r := Installs(step.0, selected[1..], node, answers[1..]);
      AgreesOutsideTrans(doc, step.0, r.doc, MANAGED_KEYS, MANAGED_KEYS);
      assert MANAGED_KEYS + MANAGED_KEYS == MANAGED_KEYS;
    }
  }

  /** A reported name comes from an answer on which its installer installed: the first name from the first such answer. */
  lemma {:induction false} InstalledWitness(doc: Doc, selected: seq<string>, node: NodeLookup, answers: seq<string>)
    returns (j: nat)
    requires forall i :: 0 <= i < |selected| ==> IsMenuKey(selected[i])
    requires Installs(doc, selected, node, answers).names != []
    ensures var r := Installs(doc, selected, node, answers);
      && j < r.used && Installable(selected[j], Strip(answers[j]), node)
      && r.names[0] == McpName(selected[j])
    decreases |selected|
  {
    var step := InstallStep(doc, selected[0], Strip(answers[0]), node);
    if step.1 {
      j := 0;
    } else {
      var k := InstalledWitness(step.0, selected[1..], node, answers[1..]);
      j := k + 1;
    }
  }

  /** Every answer on which its installer installs is reported, under that installer's name. */
  lemma {:induction false} InstalledNamed(doc: Doc, selected: seq<string>, node: NodeLookup, answers: seq<string>, j: nat)
    requires forall i :: 0 <= i < |selected| ==> IsMenuKey(selected[i])
    requires j < Installs(doc, selected, node, answers).used
    requires Installable(selected[j], Strip(answers[j]), node)
    ensures McpName(selected[j]) in Installs(doc, selected, node, answers).names
    decreases |selected|
  {
    var step := InstallStep(doc, selected[0], Strip(answers[0]), node);
    if j > 0 {
      assert selected[1..][j - 1] == selected[j] && answers[1..][j - 1] == answers[j];
      InstalledNamed(step.0, selected[1..], node, answers[1..], j - 1);
    }
  }

  /** The installers report something exactly when one of them installed on its answer. */
  lemma InstallsNamesIff(doc: Doc, selected: seq<string>, node: NodeLookup, answers: seq<string>)
    requires forall i :: 0 <= i < |selected| ==> IsMenuKey(selected[i])
    ensures var r := Installs(doc, selected, node, answers);
      r.names != [] <==> exists j :: 0 <= j < r.used && Installable(selected[j], Strip(answers[j]), node)
  {
    var r := Installs(doc, selected, node, answers);
    if r.names != [] {
      var j := InstalledWitness(doc, selected, node, answers);
    }
    if exists j :: 0 <= j < r.used && Installable(selected[j], Strip(answers[j]), node) {
      var j :| 0 <= j < r.used && Installable(selected[j], Strip(answers[j]), node);
      InstalledNamed(doc, selected, node, answers, j);
    }
  }

  /** A server whose installer does not install on any of the answers read keeps its definition. */
  lemma {:induction false} InstallsKeepKey(doc: Doc, selected: seq<string>, node: NodeLookup, answers: seq<string>, key: string)
    requires forall i :: 0 <= i < |selected| ==> IsMenuKey(selected[i])
    requires IsMenuKey(key)
    requires forall l :: 0 <= l < Installs(doc, selected, node, answers).used && selected[l] == key ==>
      !Installable(key, Strip(answers[l]), node)
    ensures Get(ServersOf(Installs(doc, selected, node, answers).doc), McpConfigKey(key))
      == Get(ServersOf(doc), McpConfigKey(key))
    decreases |selected|
  {
    if selected != [] && answers != [] {
      var step := InstallStep(doc, selected[0], Strip(answers[0]), node);
      forall l | 0 <= l < Installs(step.0, selected[1..], node, answers[1..]).used && selected[1..][l] == key
        ensures !Installable(key, Strip(answers[1..][l]), node)
      {
        assert selected[l + 1] == selected[1..][l] && answers[l + 1] == answers[1..][l];
      }
      InstallsKeepKey(step.0, selected[1..], node, answers[1..], key);
      if step.1 {
        var k := McpConfigKey(selected[0]);
        PutGet(ServersOf(doc), k, EntryFor(selected[0], Strip(answers[0]), node), McpConfigKey(key));
      }
    }
  }

  /** The last installer to install on a server decides its definition. */
  lemma {:induction false} LastInstallWins(doc: Doc, selected: seq<string>, node: NodeLookup, answers: seq<string>, j: nat)
    requires forall i :: 0 <= i < |selected| ==> IsMenuKey(selected[i])
    requires j < Installs(doc, selected, node, answers).used
    requires Installable(selected[j], Strip(answers[j]), node)
    requires forall l :: j < l < Installs(doc, selected, node, answers).used && selected[l] == selected[j] ==>
      !Installable(selected[j], Strip(answers[l]), node)
    ensures Get(ServersOf(Installs(doc, selected, node, answers).doc), McpConfigKey(selected[j]))
      == Some(EntryFor(selected[j], Strip(answers[j]), node))
    decreases |selected|
  {
    var step := InstallStep(doc, selected[0], Strip(answers[0]), node);
    var rest := Installs(step.0, selected[1..], node, answers[1..]);
    if j == 0 {
      var key := selected[0];
      SetServerEffect(doc, McpConfigKey(key), EntryFor(key, Strip(answers[0]), node));
      forall l | 0 <= l < rest.used && selected[1..][l] == key
        ensures !Installable(key, Strip(answers[1..][l]), node)
      {
        assert selected[l + 1] == selected[1..][l] && answers[l + 1] == answers[1..][l];
      }
      InstallsKeepKey(step.0, selected[1..], node, answers[1..], key);
    } else {
      assert selected[1..][j - 1] == selected[j] && answers[1..][j - 1] == answers[j];
      forall l | j - 1 < l < rest.used && selected[1..][l] == selected[j]
        ensures !Installable(selected[j], Strip(answers[1..][l]), node)
      {
        assert selected[l + 1] == selected[1..][l] && answers[l + 1] == answers[1..][l];
      }
      LastInstallWins(step.0, selected[1..], node, answers[1..], j - 1);
    }
  }

  /**
   * What `main` decides after the installers ran and `k` lines were read: the input may have
   * ended, nothing may have been installed, and in preview mode the next answer confirms.
   */
  function AfterInstalls(run: InstallRun, k: nat, preview: bool, lines: seq<string>): (r: (Outcome, nat))
    requires k <= |lines|
    ensures r.1 <= |lines|
  {
    if run.ended then (InputEnded, k)
    else if run.names == [] then (NothingInstalled, k)
    else if !preview then (Written(run.names, run.doc), k)
    else if k == |lines| then (InputEnded, k)
    else if Lower(Strip(lines[k])) != "y" then (Aborted, k + 1)
    else (Written(run.names, run.doc), k + 1)
  }

  /**
   * The write gate after the installers: the config is written exactly when every chosen
   * installer got its answer, one of them installed and, in preview mode, the next answer is
   * `y` or `Y`; what is written is the document and the names the installers produced.
   */
  lemma AfterInstallsGate(run: InstallRun, k: nat, preview: bool, lines: seq<string>)
    requires k <= |lines|
    ensures var r := AfterInstalls(run, k, preview, lines);
      && (r.0.Written? <==>
            !run.ended && run.names != []
            && (preview ==> k < |lines| && (Strip(lines[k]) == "y" || Strip(lines[k]) == "Y")))
      && (r.0.Written? ==>
            r.0.names == run.names && r.0.doc == run.doc && r.1 == (if preview then k + 1 else k))
  {
    if preview && k < |lines| {
      LowerIsY(Strip(lines[k]));
    }
  }

  /**
   * `main` from the menu on, for the loaded document and the menu's result `menu` after `m`
   * lines: quitting, end of input, or the chosen installers on the lines after the menu and
   * then the write gate.
   */
  function Session(loaded: Doc, menu: MenuResult, m: nat, preview: bool, node: NodeLookup, lines: seq<string>): (r: (Outcome, nat))
    requires m <= |lines|
    requires menu.Chosen? ==> forall i :: 0 <= i < |menu.keys| ==> IsMenuKey(menu.keys[i])
    ensures r.1 <= |lines|
  {
    match menu
    case Bye => (MenuQuit, m)
    case EndOfInput => (InputEnded, m)
    case Chosen(keys) =>
      var run := Installs(loaded, keys, node, lines[m..]);
      AfterInstalls(run, m + run.used, preview, lines)
  }

  /**
   * What `main` decides once the config path is settled, for the file's content and the node
   * lookup: the outcome and the number of lines read.
   */
  function MainOutcome(content: FileContent, preview: bool, node: NodeLookup, lines: seq<string>): (r: (Outcome, nat))
    ensures r.1 <= |lines|
  {
    match LoadConfig(content)
    case Err(_) => (InvalidJson, 0)
    case Ok(loaded) => Session(loaded, MenuSpec(lines).0, MenuSpec(lines).1, preview, node, lines)
  }

  /**
   * The write gate: a config is written only after the menu chose servers, every chosen
   * installer got its answer, at least one of them installed on its answer, and, in preview
   * mode, the next answer was `y` or `Y`; what is written is the document the installers
   * produced.
   */
  lemma SessionWriteGate(loaded: Doc, menu: MenuResult, m: nat, preview: bool, node: NodeLookup, lines: seq<string>)
    requires m <= |lines|
    requires menu.Chosen? ==> forall i :: 0 <= i < |menu.keys| ==> IsMenuKey(menu.keys[i])
    requires Session(loaded, menu, m, preview, node, lines).0.Written?
    ensures menu.Chosen?
    ensures var outcome, used := Session(loaded, menu, m, preview, node, lines).0, Session(loaded, menu, m, preview, node, lines).1;
      var run := Installs(loaded, menu.keys, node, lines[m..]);
      && outcome.names == run.names && outcome.doc == run.doc && !run.ended
      && (exists j :: 0 <= j < run.used && Installable(menu.keys[j], Strip(lines[m..][j]), node))
      && used == (if preview then m + run.used + 1 else m + run.used)
      && (preview ==> Strip(lines[used - 1]) == "y" || Strip(lines[used - 1]) == "Y")
  {
    assert menu.Chosen?;
    var run := Installs(loaded, menu.keys, node, lines[m..]);
    SessionChosen(loaded, menu.keys, m, preview, node, lines, m + run.used);
    AfterInstallsGate(run, m + run.used, preview, lines);
    InstallsNamesIff(loaded, menu.keys, node, lines[m..]);
  }

  /**
   * The converse: when the menu chose servers, every chosen installer got its answer, one of
   * them installed and, in preview mode, the next answer is `y` or `Y`, the config is written.
   */
  lemma SessionWritesWhenInstalled(loaded: Doc, menu: MenuResult, m: nat, preview: bool, node: NodeLookup, lines: seq<string>, j: nat)
    requires m <= |lines|
    requires menu.Chosen? && forall i :: 0 <= i < |menu.keys| ==> IsMenuKey(menu.keys[i])
    requires var run := Installs(loaded, menu.keys, node, lines[m..]);
      && !run.ended && j < run.used && Installable(menu.keys[j], Strip(lines[m..][j]), node)
      && (preview ==> m + run.used < |lines| && (Strip(lines[m + run.used]) == "y" || Strip(lines[m + run.used]) == "Y"))
    ensures var run := Installs(loaded, menu.keys, node, lines[m..]);
      Session(loaded, menu, m, preview, node, lines).0 == Written(run.names, run.doc)
  {
    var run := Installs(loaded, menu.keys, node, lines[m..]);
    SessionChosen(loaded, menu.keys, m, preview, node, lines, m + run.used);
    InstalledNamed(loaded, menu.keys, node, lines[m..], j);
    AfterInstallsGate(run, m + run.used, preview, lines);
  }

  /**
   * A written config differs from the loaded one only in the two managed servers, keeps every
   * server it had, stays well formed, and reports only the two managed servers' names.
   */
  lemma SessionWrittenKeepsOthers(loaded: Doc, menu: MenuResult, m: nat, preview: bool, node: NodeLookup, lines: seq<string>)
    requires m <= |lines|
    requires menu.Chosen? ==> forall i :: 0 <= i < |menu.keys| ==> IsMenuKey(menu.keys[i])
    requires Session(loaded, menu, m, preview, node, lines).0.Written?
    ensures var outcome := Session(loaded, menu, m, preview, node, lines).0;
      && AgreesOutside(loaded, outcome.doc, MANAGED_KEYS)
      && InstalledKeys(loaded) <= InstalledKeys(outcome.doc)
      && (WellFormed(loaded) ==> WellFormed(outcome.doc))
      && outcome.names != []
      && (forall i :: 0 <= i < |outcome.names| ==> outcome.names[i] in {"GymHappy Support", "Metabase"})
  {
    SessionWriteGate(loaded, menu, m, preview, node, lines);
    InstallsFrame(loaded, menu.keys, node, lines[m..]);
  }

  /** `MainOutcome` of a config that loads is the session on the loaded document. */
  lemma MainOutcomeLoaded(content: FileContent, preview: bool, node: NodeLookup, lines: seq<string>)
    requires LoadConfig(content).Ok?
    ensures var loaded, menu := LoadConfig(content).value, MenuSpec(lines);
      && MainOutcome(content, preview, node, lines).0 == Session(loaded, menu.0, menu.1, preview, node, lines).0
      && MainOutcome(content, preview, node, lines).1 == Session(loaded, menu.0, menu.1, preview, node, lines).1
  {
  }

  /** A written session outcome keeps every promise `WrittenSafely` makes. */
  lemma SessionWrittenSafely(loaded: Doc, menu: MenuResult, m: nat, preview: bool, node: NodeLookup, lines: seq<string>)
    requires m <= |lines|
    requires menu.Chosen? ==> forall i :: 0 <= i < |menu.keys| ==> IsMenuKey(menu.keys[i])
    requires Session(loaded, menu, m, preview, node, lines).0.Written?
    ensures WrittenSafely(loaded, Session(loaded, menu, m, preview, node, lines).0, preview, lines,
                          Session(loaded, menu, m, preview, node, lines).1)
  {
    SessionWriteGate(loaded, menu, m, preview, node, lines);
    SessionWrittenKeepsOthers(loaded, menu, m, preview, node, lines);
  }

  /**
   * `main` from the menu to the write gate, on the loaded document: the menu loop, the chosen
   * installers each on its answer, and in preview mode the diff and the confirmation. No file
   * changes here; `outcome` says whether the config is to be written, and with what.
   */
  method Interact(loaded: Doc, preview: bool, probes: Probes, lines: seq<string>) returns (outcome: Outcome, used: nat)
    ensures outcome == Session(loaded, MenuSpec(lines).0, MenuSpec(lines).1, preview, SelectNode(probes), lines).0
    ensures used == Session(loaded, MenuSpec(lines).0, MenuSpec(lines).1, preview, SelectNode(probes), lines).1
    ensures !outcome.NoConfig? && !outcome.InvalidJson?
    ensures outcome.MenuQuit? ==> 0 < used && ParseChoice(Strip(lines[used - 1])) == Quit
    ensures outcome.InputEnded? ==> used == |lines|
    ensures outcome.Aborted? ==> preview && 0 < used && Lower(Strip(lines[used - 1])) != "y"
  {
    var menu, menuUsed := MenuLoop(lines);
    if menu.Bye? {
      return MenuQuit, menuUsed;
    }
    if menu.EndOfInput? {
      return InputEnded, menuUsed;
    }
    outcome, used := InstallAndConclude(loaded, menu.keys, menuUsed, preview, probes, lines);
  }

  /** `main` after the menu chose `keys` on the first `m` lines: the installers, then the write gate. */
  method InstallAndConclude(loaded: Doc, keys: seq<string>, m: nat, preview: bool, probes: Probes, lines: seq<string>)
    returns (outcome: Outcome, used: nat)
    requires m <= |lines|
    requires forall i :: 0 <= i < |keys| ==> IsMenuKey(keys[i])
    ensures outcome == Session(loaded, Chosen(keys), m, preview, SelectNode(probes), lines).0
    ensures used == Session(loaded, Chosen(keys), m, preview, SelectNode(probes), lines).1
    ensures !outcome.MenuQuit? && !outcome.NoConfig? && !outcome.InvalidJson?
    ensures outcome.InputEnded? ==> used == |lines|
    ensures outcome.Aborted? ==> preview && 0 < used && Lower(Strip(lines[used - 1])) != "y"
  {
    var config := new Config(loaded);
    var names, k, ended := RunInstallers(config, keys, probes, lines, m);
    ghost var node := SelectNode(probes);
    ghost var run := Installs(loaded, keys, node, lines[m..]);
    outcome, used := Conclude(loaded, config.Snapshot(), names, ended, preview, lines, k, run);
    SessionChosen(loaded, keys, m, preview, node, lines, k);
  }

  /** The session on chosen keys is the write gate after their installers, which read up to line `k`. */
  lemma SessionChosen(loaded: Doc, keys: seq<string>, m: nat, preview: bool, node: NodeLookup, lines: seq<string>, k: nat)
    requires m <= |lines|
    requires forall i :: 0 <= i < |keys| ==> IsMenuKey(keys[i])
    requires k == m + Installs(loaded, keys, node, lines[m..]).used
    ensures var run := Installs(loaded, keys, node, lines[m..]);
      && Session(loaded, Chosen(keys), m, preview, node, lines).0 == AfterInstalls(run, k, preview, lines).0
      && Session(loaded, Chosen(keys), m, preview, node, lines).1 == AfterInstalls(run, k, preview, lines).1
  {
  }

  /**
   * The end of `main` once the installers ran, up to `k`: end of input, nothing installed, or
   * in preview mode the diff and one confirming answer.
   */
  method Conclude(loaded: Doc, doc: Doc, names: seq<string>, ended: bool, preview: bool, lines: seq<string>, k: nat,
                  ghost run: InstallRun)
    returns (outcome: Outcome, used: nat)
    requires k <= |lines| && (ended ==> k == |lines|)
    requires run.doc == doc && run.names == names && run.ended == ended
    ensures outcome == AfterInstalls(run, k, preview, lines).0 && used == AfterInstalls(run, k, preview, lines).1
    ensures !outcome.MenuQuit? && !outcome.NoConfig? && !outcome.InvalidJson?
    ensures outcome.InputEnded? ==> used == |lines|
    ensures outcome.Aborted? ==> preview && 0 < used && Lower(Strip(lines[used - 1])) != "y"
  {
    used := k;
    if ended {
      return InputEnded, used;
    }
    if names == [] {
      return NothingInstalled, used;
    }
    if preview {
      // print_diff_and_confirm: the diff is shown, then one answer decides.
      var diff := DiffMcpServers(loaded, doc);
      if used == |lines| {
        return InputEnded, used;
      }
      var answer := Strip(lines[used]);
      used := used + 1;
      if Lower(answer) != "y" {
        return Aborted, used;
      }
    }
    return Written(names, doc), used;
  }

  /**
   * `main()`. `lines` are the lines the operator types, in order (each `prompt` strips one);
   * running out of them is end of input. `probes` is what the system shows `find_node_v20`.
   *
   * Past the config path, the run is `MainOutcome` of the file's content. Nothing reaches the
   * disk unless at least one server was installed and, in preview mode, the operator answered
   * `y` or `Y`; a written config differs from the loaded one only in the GymHappy Support and
   * Metabase servers, keeps every server it had, and the original is kept as `path.backup`.
   */
  method Run(fs: FileSystem, args: Args, home: string, probes: Probes, lines: seq<string>)
    returns (outcome: Outcome, used: nat)
    requires probes.home == home
    modifies fs
    ensures used <= |lines|
    ensures outcome.NoConfig? <==> ConfigPath(args, home) !in Prepared(old(fs.files), args, home)
    ensures outcome.NoConfig? ==> used == 0
    ensures var path, prepared := ConfigPath(args, home), Prepared(old(fs.files), args, home);
      path in prepared ==>
        && outcome == MainOutcome(prepared[path], args.preview, SelectNode(probes), lines).0
        && used == MainOutcome(prepared[path], args.preview, SelectNode(probes), lines).1
    ensures var path, prepared := ConfigPath(args, home), Prepared(old(fs.files), args, home);
      outcome.InvalidJson? <==> path in prepared && prepared[path].Malformed?
    ensures !outcome.Written? ==>
      fs.files == Prepared(old(fs.files), args, home) && fs.log == old(fs.log) + PrepareLog(old(fs.files), args, home)
    ensures outcome.MenuQuit? ==> 0 < used && ParseChoice(Strip(lines[used - 1])) == Quit
    ensures outcome.InputEnded? ==> used == |lines|
    ensures outcome.Aborted? ==> args.preview && 0 < used && Lower(Strip(lines[used - 1])) != "y"
    ensures var path, prepared := ConfigPath(args, home), Prepared(old(fs.files), args, home);
      outcome.Written? ==>
        && path in prepared && LoadConfig(prepared[path]).Ok?
        && WrittenSafely(LoadConfig(prepared[path]).value, outcome, args.preview, lines, used)
    ensures var path, prepared := ConfigPath(args, home), Prepared(old(fs.files), args, home);
      outcome.Written? ==>
        && fs.files == (prepared - {path + ".tmp"})[path + ".backup" := prepared[path]][path := Json(outcome.doc)]
        && fs.log == old(fs.log) + PrepareLog(old(fs.files), args, home)
             + [Copied(path, path + ".backup"), Wrote(path + ".tmp"), Replaced(path + ".tmp", path)]
  {
    var found := GetConfigPath(fs, args, home);
    if found.Err? {
      return NoConfig, 0;
    }
    outcome, used := ProcessConfig(fs, found.value, args.preview, probes, lines);
  }

  /**
   * What a written outcome promises about the loaded document: servers were installed, only
   * the two managed servers changed, none was removed, and in preview mode the last answer
   * read was `y` or `Y`.
   */
  ghost predicate WrittenSafely(loaded: Doc, outcome: Outcome, preview: bool, lines: seq<string>, used: nat)
    requires outcome.Written? && used <= |lines|
  {
    && outcome.names != []
    && (forall i :: 0 <= i < |outcome.names| ==> outcome.names[i] in {"GymHappy Support", "Metabase"})
    && (preview ==> 0 < used && (Strip(lines[used - 1]) == "y" || Strip(lines[used - 1]) == "Y"))
    && AgreesOutside(loaded, outcome.doc, MANAGED_KEYS)
    && InstalledKeys(loaded) <= InstalledKeys(outcome.doc)
    && (WellFormed(loaded) ==> WellFormed(outcome.doc))
  }

  /**
   * What `main()` does once the config path is settled, from the files and log `files`, `log`
   * to `files'`, `log'`: the outcome and the lines read are `MainOutcome` of the file's content;
   * invalid JSON is reported exactly for a malformed file; nothing changes unless the outcome is
   * a write; a write keeps the promises of `WrittenSafely` and leaves the backup, the new config
   * and no temporary file, logged as copy, write and replace.
   */
  ghost predicate ConfigProcessed(files: map<string, FileContent>, log: seq<FsEvent>, path: string, preview: bool,
                                  node: NodeLookup, lines: seq<string>, outcome: Outcome, used: nat,
                                  files': map<string, FileContent>, log': seq<FsEvent>)
    requires path in files
  {
    && used <= |lines|
    && outcome == MainOutcome(files[path], preview, node, lines).0
    && used == MainOutcome(files[path], preview, node, lines).1
    && !outcome.NoConfig?
    && (outcome.InvalidJson? <==> files[path].Malformed?)
    && (!outcome.Written? ==> files' == files && log' == log)
    && (outcome.MenuQuit? ==> 0 < used && ParseChoice(Strip(lines[used - 1])) == Quit)
    && (outcome.InputEnded? ==> used == |lines|)
    && (outcome.Aborted? ==> preview && 0 < used && Lower(Strip(lines[used - 1])) != "y")
    && (outcome.Written? ==>
          && LoadConfig(files[path]).Ok?
          && WrittenSafely(LoadConfig(files[path]).value, outcome, preview, lines, used)
          && files' == (files - {path + ".tmp"})[path + ".backup" := files[path]][path := Json(outcome.doc)]
          && log' == log + [Copied(path, path + ".backup"), Wrote(path + ".tmp"), Replaced(path + ".tmp", path)])
  }

  /**
   * `main()` once the config path is settled: load the config, run the session, and write the
   * config back, after a backup, when the session says so.
   */
  method ProcessConfig(fs: FileSystem, path: string, preview: bool, probes: Probes, lines: seq<string>)
    returns (outcome: Outcome, used: nat)
    requires path in fs.files
    modifies fs
    ensures ConfigProcessed(old(fs.files), old(fs.log), path, preview, SelectNode(probes), lines, outcome, used, fs.files, fs.log)
  {
    var loadedOrError := LoadConfig(fs.files[path]);
    if loadedOrError.Err? {
      return InvalidJson, 0;
    }
    var loaded := loadedOrError.value;
    outcome, used := Interact(loaded, preview, probes, lines);
    MainOutcomeLoaded(fs.files[path], preview, SelectNode(probes), lines);
    if !outcome.Written? {
      return;
    }
    SessionWrittenSafely(loaded, MenuSpec(lines).0, MenuSpec(lines).1, preview, SelectNode(probes), lines);
    Commit(fs, path, outcome.doc);
  }

  /** The write itself: `backup_config` and then `save_config`. */
  method Commit(fs: FileSystem, path: string, doc: Doc)
    requires path in fs.files
    modifies fs
    ensures fs.files == (old(fs.files) - {path + ".tmp"})[path + ".backup" := old(fs.files)[path]][path := Json(doc)]
    ensures fs.log == old(fs.log) + [Copied(path, path + ".backup"), Wrote(path + ".tmp"), Replaced(path + ".tmp", path)]
  {
    ghost var before := fs.files;
    BackupConfig(fs, path);
    SaveConfig(fs, path, doc);
    BackupThenSave(before, path, doc);
  }

  /** `INSTALLERS[key](config)`: the installer for a menu key, on the answer to its prompt. */
  method RunInstaller(config: Config, key: string, answer: string, probes: Probes) returns (installed: bool)
    requires IsMenuKey(key)
    modifies config
    ensures (config.Snapshot(), installed) == InstallStep(old(config.Snapshot()), key, answer, SelectNode(probes))
  {
    if key == "1" {
      installed := config.InstallGymhappy(answer);
    } else {
      installed := config.InstallMetabase(answer, probes);
    }
  }

  /**
   * `for key in selected: if INSTALLERS[key](config): installed_names.append(...)`, each
   * installer reading its one answer from `lines` at `start` onwards. `ended` reports that the
   * input ran out at a prompt. The run is `Installs` of the document: only the managed servers
   * change, and none is removed.
   */
  method RunInstallers(config: Config, selected: seq<string>, probes: Probes, lines: seq<string>, start: nat)
    returns (names: seq<string>, used: nat, ended: bool)
    requires forall i :: 0 <= i < |selected| ==> IsMenuKey(selected[i])
    requires start <= |lines|
    modifies config
    ensures start <= used <= |lines| && (ended ==> used == |lines|)
    ensures Installs(old(config.Snapshot()), selected, SelectNode(probes), lines[start..])
      == InstallRun(config.Snapshot(), names, used - start, ended)
    ensures forall j :: 0 <= j < |names| ==> names[j] in {"GymHappy Support", "Metabase"}
    ensures AgreesOutside(old(config.Snapshot()), config.Snapshot(), MANAGED_KEYS)
    ensures InstalledKeys(old(config.Snapshot())) <= InstalledKeys(config.Snapshot())
    ensures WellFormed(old(config.Snapshot())) ==> WellFormed(config.Snapshot())
  {
    ghost var loaded := config.Snapshot();
    names, used, ended := InstallEach(config, selected, probes, lines, start);
    InstallsFrame(loaded, selected, SelectNode(probes), lines[start..]);
  }

  /** The loop of `RunInstallers`: each installer in turn, on the next answer, until the answers run out. */
  method InstallEach(config: Config, selected: seq<string>, probes: Probes, lines: seq<string>, start: nat)
    returns (names: seq<string>, used: nat, ended: bool)
    requires forall i :: 0 <= i < |selected| ==> IsMenuKey(selected[i])
    requires start <= |lines|
    modifies config
    ensures start <= used <= |lines| && (ended ==> used == |lines|)
    ensures Installs(old(config.Snapshot()), selected, SelectNode(probes), lines[start..])
      == InstallRun(config.Snapshot(), names, used - start, ended)
  {
    ghost var loaded := config.Snapshot();
    ghost var node := SelectNode(probes);
    ghost var total := Installs(loaded, selected, node, lines[start..]);
    names, used, ended := [], start, false;
    var i := 0;
    assert selected[0..] == selected && lines[start..] == lines[used..];
    while i < |selected|
      invariant i <= |selected| && used == start + i && used <= |lines|
      invariant InstallsFrom(total, config.Snapshot(), names, selected, i, node, lines, used)
    {
      if used == |lines| {
        InstallsOutOfAnswers(total, config.Snapshot(), names, selected, i, node, lines, used);
        return names, used, true;
      }
      names := InstallNext(config, selected, i, probes, lines, used, names, total);
      used := used + 1;
      i := i + 1;
    }
    InstallsDone(total, config.Snapshot(), names, selected, i, node, lines, used);
  }

  /** One turn of the loop: installer `i` on answer `used`, its name appended when it installed. */
  method InstallNext(config: Config, selected: seq<string>, i: nat, probes: Probes, lines: seq<string>, used: nat,
                     names: seq<string>, ghost total: InstallRun)
    returns (names': seq<string>)
    requires forall k :: 0 <= k < |selected| ==> IsMenuKey(selected[k])
    requires i < |selected| && used < |lines|
    requires InstallsFrom(total, config.Snapshot(), names, selected, i, SelectNode(probes), lines, used)
    modifies config
    ensures InstallsFrom(total, config.Snapshot(), names', selected, i + 1, SelectNode(probes), lines, used + 1)
  {
    var answer := Strip(lines[used]);
    ghost var before := config.Snapshot();
    var installed := RunInstaller(config, selected[i], answer, probes);
    var reported := if installed then [McpName(selected[i])] else [];
    InstallsAdvance(total, before, config.Snapshot(), installed, names, selected, i, SelectNode(probes), lines, used);
    names' := names + reported;
  }

  /**
   * The loop's invariant: after `i` installers, with `done` the document and `names` the names
   * so far, the rest of the run on `selected[i..]` and `lines[used..]` completes `total`.
   */
  predicate InstallsFrom(total: InstallRun, done: Doc, names: seq<string>, selected: seq<string>, i: nat,
                         node: NodeLookup, lines: seq<string>, used: nat)
    requires forall k :: 0 <= k < |selected| ==> IsMenuKey(selected[k])
    requires i <= |selected| && used <= |lines|
  {
    var rest := Installs(done, selected[i..], node, lines[used..]);
    total == InstallRun(rest.doc, names + rest.names, i + rest.used, rest.ended)
  }

  /** One installer on the next answer keeps the loop's invariant. */
  lemma InstallsAdvance(total: InstallRun, before: Doc, after: Doc, installed: bool, names: seq<string>,
                        selected: seq<string>, i: nat, node: NodeLookup, lines: seq<string>, used: nat)
    requires forall k :: 0 <= k < |selected| ==> IsMenuKey(selected[k])
    requires i < |selected| && used < |lines|
    requires InstallsFrom(total, before, names, selected, i, node, lines, used)
    requires (after, installed) == InstallStep(before, selected[i], Strip(lines[used]), node)
    ensures InstallsFrom(total, after, names + (if installed then [McpName(selected[i])] else []),
                         selected, i + 1, node, lines, used + 1)
  {
    InstallsUnfoldAt(before, after, installed, selected, i, node, lines, used);
    var next := Installs(after, selected[i + 1..], node, lines[used + 1..]);
    var reported := if installed then [McpName(selected[i])] else [];
    assert (names + reported) + next.names == names + (reported + next.names);
  }

  /** `InstallsUnfold` at installer `i` and answer `used`. */
  lemma InstallsUnfoldAt(before: Doc, after: Doc, installed: bool, selected: seq<string>, i: nat,
                         node: NodeLookup, lines: seq<string>, used: nat)
    requires forall k :: 0 <= k < |selected| ==> IsMenuKey(selected[k])
    requires i < |selected| && used < |lines|
    requires (after, installed) == InstallStep(before, selected[i], Strip(lines[used]), node)
    ensures var next := Installs(after, selected[i + 1..], node, lines[used + 1..]);
      Installs(before, selected[i..], node, lines[used..])
        == InstallRun(next.doc, (if installed then [McpName(selected[i])] else []) + next.names, next.used + 1, next.ended)
  {
    var todo, answers := selected[i..], lines[used..];
    assert todo[0] == selected[i] && todo[1..] == selected[i + 1..];
    assert answers[0] == lines[used] && answers[1..] == lines[used + 1..];
    InstallsUnfold(before, todo, node, answers, after, installed);
  }

  /** Running out of answers before the last installer ends the run with what was done so far. */
  lemma InstallsOutOfAnswers(total: InstallRun, done: Doc, names: seq<string>, selected: seq<string>, i: nat,
                             node: NodeLookup, lines: seq<string>, used: nat)
    requires forall k :: 0 <= k < |selected| ==> IsMenuKey(selected[k])
    requires i < |selected| && used == |lines|
    requires InstallsFrom(total, done, names, selected, i, node, lines, used)
    ensures total == InstallRun(done, names, i, true)
  {
    assert lines[used..] == [] && selected[i..] != [];
    assert names + [] == names;
  }

  /** After the last installer the run is complete. */
  lemma InstallsDone(total: InstallRun, done: Doc, names: seq<string>, selected: seq<string>, i: nat,
                     node: NodeLookup, lines: seq<string>, used: nat)
    requires forall k :: 0 <= k < |selected| ==> IsMenuKey(selected[k])
    requires i == |selected| && used <= |lines|
    requires InstallsFrom(total, done, names, selected, i, node, lines, used)
    ensures total == InstallRun(done, names, i, false)
  {
    assert selected[i..] == [];
    assert names + [] == names;
  }

  /** An answer of `1` at the menu chooses GymHappy Support alone, on the first line. */
  lemma MenuPicksGymHappy(rest: seq<string>)
    ensures MenuSpec(["1"] + rest).0 == Chosen(["1"]) && MenuSpec(["1"] + rest).1 == 1
  {
    StripUnchanged("1");
    ExampleSingleKey();
    MenuSpecStep(["1"] + rest);
  }

  /** Choosing GymHappy Support and pasting an empty token installs nothing, so nothing is written. */
  lemma EmptyTokenNotWritten(loaded: Doc, preview: bool, node: NodeLookup)
    ensures MainOutcome(Json(loaded), preview, node, ["1", ""]).0 == NothingInstalled
  {
    MenuPicksGymHappy([""]);
    assert ["1"] + [""] == ["1", ""];
    var lines := ["1", ""];
    assert lines[1..] == [""] && [""][1..] == [] && ["1"][1..] == [];
    assert Installs(loaded, ["1"], node, [""]) == InstallRun(loaded, [], 1, false);
  }

  /**
   * Choosing GymHappy Support, pasting a token and answering `y` writes the loaded config with
   * the GymHappy Support definition for that token set, with or without the preview.
   */
  lemma TokenWritten(loaded: Doc, preview: bool, node: NodeLookup, token: string)
    requires token != "" && !IsSpace(token[0]) && !IsSpace(token[|token| - 1])
    ensures MainOutcome(Json(loaded), preview, node, ["1", token, "y"]).0
      == Written(["GymHappy Support"], SetServer(loaded, GYMHAPPY_KEY, GymHappyEntry(token)))
  {
    MenuPicksGymHappy([token, "y"]);
    var lines := ["1", token, "y"];
    assert ["1"] + [token, "y"] == lines && lines[1..] == [token, "y"];
    GymHappyOnToken(loaded, node, token, "y");
    StripUnchanged("y");
    assert Lower("y") == "y";
  }

  /** GymHappy Support alone, on a token: its definition is set and its name reported. */
  lemma GymHappyOnToken(loaded: Doc, node: NodeLookup, token: string, next: string)
    requires token != "" && !IsSpace(token[0]) && !IsSpace(token[|token| - 1])
    ensures Installs(loaded, ["1"], node, [token, next])
      == InstallRun(SetServer(loaded, GYMHAPPY_KEY, GymHappyEntry(token)), ["GymHappy Support"], 1, false)
  {
    StripUnchanged(token);
    assert [token, next][1..] == [next] && ["1"][1..] == [];
  }

  /** Backing up and then saving leaves the backup, the new config, and no temporary file. */
  lemma BackupThenSave(files: map<string, FileContent>, path: string, doc: Doc)
    requires path in files
    ensures var backedUp := files[path + ".backup" := files[path]];
      (backedUp - {path + ".tmp"})[path := Json(doc)]
        == (files - {path + ".tmp"})[path + ".backup" := files[path]][path := Json(doc)]
  {
    assert path + ".tmp" != path + ".backup" by {
      assert (path + ".tmp")[|path| + 1] == 't' && (path + ".backup")[|path| + 1] == 'b';
    }
  }

  /**
   * Preview mode in a fresh sandbox: choosing GymHappy Support, pasting `123|abc` and then
   * declining writes nothing, and the sandbox file is the newly created skeleton.
   */
  method DeclinedPreview(probes: Probes) returns (outcome: Outcome, content: FileContent)
    ensures !outcome.Written?
    ensures content == Json(SKELETON)
  {
    var fs := new FileSystem(map[]);
    var sandbox := "/tmp/test-config.json";
    var args := Args(true, Some(sandbox));
    var lines := ["1", "123|abc", "n"];
    StripUnchanged(lines[0]);
    StripUnchanged(lines[1]);
    StripUnchanged(lines[2]);
    assert forall i :: 0 <= i < |lines| ==> Strip(lines[i]) != "y" && Strip(lines[i]) != "Y";
    var used;
    outcome, used := Run(fs, args, probes.home, probes, lines);
    assert Prepared(map[], args, probes.home) == map[sandbox := Json(SKELETON)];
    content := fs.files[sandbox];
  }
}
