# PushPress MCP installer, modelled in Dafny

`install-mcps.py` adds two PushPress-managed MCP servers to Claude Desktop's config file:

- GymHappy Support, a remote server reached through `mcp-remote` with a Sanctum token in the URL;
- Metabase, an npm package that needs Node.js 20 or later.

The config file is a JSON object whose `mcpServers` member maps server identifiers to launch
definitions. The installer:

1. reads the file;
2. shows a menu;
3. asks for the chosen servers' secrets;
4. merges the new definitions in.

It then writes the file back: first a `.backup` copy, then a write to `.tmp` followed by
`os.replace`. Two flags change this. `--config PATH` uses a sandbox file, created with an empty
`mcpServers` when it is missing. `--preview` shows a diff and asks for confirmation before
anything is written.

The model is split into these modules, one file each:

| file | module | models |
|---|---|---|
| `wrappers.dfy` | `Wrappers` | `Option` and `Result` |
| `text.dfy` | `Text` | the Python string built-ins used: `strip`, `lstrip("v")`, `upper`, `lower`, `split`, `str <`, and the decimal parse behind `int(...)` |
| `config_doc.dfy` | `ConfigDoc` | the config document and `mcpServers` as an insertion-ordered dict; `servers[key] = value`, `get_installed_keys`, and `load_config` after parsing |
| `server_diff.dfy` | `ServerDiff` | `diff_mcp_servers` as a method with a loop, proved against a specification function of the two documents |
| `node_locator.dfy` | `NodeLocator` | `find_node_v20` as a method with a loop over the nvm listing, proved against the selection rule `SelectNode`; the probe results are passed in |
| `entries.dfy` | `Entries` | the token encoding, the two server definitions, and the `Config` class whose `InstallGymhappy` and `InstallMetabase` methods update the document in place, as `install_gymhappy` and `install_metabase` do |
| `menu.dfy` | `Menu` | the registry keys, the reading of one menu answer, and `main`'s menu loop over the typed lines |
| `installer.dfy` | `Installer` | a `FileSystem` class (files by path, plus a ghost log of writes, copies and replaces); `get_config_path`, `backup_config`, `save_config`, and `main` as `Run` |

Some inputs become parameters:

- The lines the operator types are a sequence; running out of them stands for end of input.
- The results of `node --version`, of listing `~/.nvm/versions/node`, and of the `npx` existence
  check are a `Probes` value.

## Model

| member | source | states |
|---|---|---|
| Text.IsSpace | install-mcps.py:321 | the characters Python's `str.isspace()` accepts, which `strip()` removes |
| Text.LStrip | install-mcps.py:321 | `s.lstrip()`; LStripFacts states what it returns |
| Text.LStripFacts | install-mcps.py:321 | `strip` drops exactly the leading whitespace: the result is a suffix, every dropped character is whitespace, and the result does not start with whitespace |
| Text.RStrip | install-mcps.py:321 | `s.rstrip()`; RStripFacts states what it returns |
| Text.RStripFacts | install-mcps.py:321 | the same for trailing whitespace |
| Text.LStripV | install-mcps.py:278 | `s.lstrip("v")`; LStripVDropsLeadingVs states what it returns |
| Text.LStripVDropsLeadingVs | install-mcps.py:278 | `lstrip("v")` drops exactly the leading `v`s: the result is a suffix not starting with `v` |
| Text.Strip | install-mcps.py:321 | `s.strip()` as leading then trailing whitespace removed; what it returns is stated by StripSlice, StripIdempotent and StripUnchanged |
| Text.StripSlice | install-mcps.py:320-321 | a stripped answer is a slice of the line with whitespace only outside it and at neither of its ends |
| Text.StripIdempotent | install-mcps.py:547 | stripping an already stripped answer changes nothing |
| Text.StripUnchanged | install-mcps.py:321 | a string with no whitespace at either end is its own strip |
| Text.UpperChar | install-mcps.py:538 | one character of `upper()`: an ASCII lower-case letter becomes its capital, anything else is kept |
| Text.LowerChar | install-mcps.py:495 | one character of `lower()`: an ASCII capital becomes its lower-case letter, anything else is kept |
| Text.Upper | install-mcps.py:538 | `str.upper()` character by character on ASCII letters; UpperIsChar and UpperEmpty state what the menu relies on |
| Text.Lower | install-mcps.py:495 | `str.lower()` character by character on ASCII letters; LowerIsY states the confirmation test |
| Text.UpperIsChar | install-mcps.py:538-544 | the upper-cased answer is one given capital exactly when the answer is that letter in either case |
| Text.UpperUnchanged | install-mcps.py:538 | an answer with no lower-case ASCII letter is its own upper case |
| Text.UpperEmpty | install-mcps.py:538-540 | upper-casing keeps an answer empty or non-empty |
| Text.LowerIsY | install-mcps.py:495 | `answer.lower() == "y"` holds exactly for `y` and `Y` |
| Text.Split | install-mcps.py:547 | `s.split(sep)`: at least one piece, empty pieces kept; JoinSplit, SplitPiecesLackSep, SplitWithoutSep and SplitAtSep pin the pieces down |
| Text.Join | install-mcps.py:547 | `sep.join(parts)`, the inverse that JoinSplit relates `split` to |
| Text.JoinConsFirst | install-mcps.py:547 | a character put before the first piece comes first in the joined string |
| Text.JoinSplit | install-mcps.py:547 | `split(",")` loses nothing: joining the pieces back gives the answer |
| Text.SplitPiecesLackSep | install-mcps.py:547 | no piece contains a comma |
| Text.SplitWithoutSep | install-mcps.py:547 | an answer without a comma is a single piece |
| Text.SplitAtSep | install-mcps.py:547 | the first comma ends the first piece |
| Text.StrLess | install-mcps.py:284 | Python's `<` on `str`: code-point order at the first difference, a proper prefix first; the four lemmas below state it |
| Text.StrLessAtFirstDifference | install-mcps.py:284 | the first differing character decides Python's string order |
| Text.StrLessIrreflexive | install-mcps.py:284 | no name sorts before itself |
| Text.StrLessTransitive | install-mcps.py:284 | string order is transitive |
| Text.StrLessTotal | install-mcps.py:284 | any two different names are ordered one way or the other |
| Text.IsDigit | install-mcps.py:266 | an ASCII decimal digit |
| Text.DecimalValue | install-mcps.py:266 | the value of a run of decimal digits, most significant first |
| Text.FirstPiece | install-mcps.py:266 | `split(".")[0]` is the prefix before the first `.`; it holds no `.` and, when shorter than the input, is followed by one |
| Text.ParseDecimal | install-mcps.py:266 | the parse succeeds exactly on a non-empty run of decimal digits |
| ConfigDoc.DistinctKeys | install-mcps.py:122-123 | no key occurs twice in `mcpServers`, as in any Python dict |
| ConfigDoc.WellFormed | install-mcps.py:121-127 | `mcpServers` lives only in its own field and holds distinct keys |
| ConfigDoc.ServersOf | install-mcps.py:226 | `config.get("mcpServers", {})` |
| ConfigDoc.KeySet | install-mcps.py:214-216 | the keys of `mcpServers` |
| ConfigDoc.KeySetCons | install-mcps.py:214-216 | the keys of a non-empty dict are its first key and the keys of the rest |
| ConfigDoc.Get | install-mcps.py:230-232 | a server is found exactly when its key is present, and what is found is stored under that key |
| ConfigDoc.GetAt | install-mcps.py:232 | with distinct keys the value found is the one at the key's position |
| ConfigDoc.Put | install-mcps.py:358 | `servers[key] = value` keeps every key in its place and appends only `(key, value)` |
| ConfigDoc.PutGet | install-mcps.py:358 | afterwards `key` holds the new value and every other key what it held |
| ConfigDoc.PutKeys | install-mcps.py:127 | the keys afterwards are the keys before plus `key`; the length grows exactly when the key was new |
| ConfigDoc.PutDistinctAppend | install-mcps.py:123 | only a missing key is appended |
| ConfigDoc.PutNew | install-mcps.py:122 | a missing key is added at the end |
| ConfigDoc.PutExisting | install-mcps.py:123 | an existing key is overwritten in place |
| ConfigDoc.PutDistinct | install-mcps.py:358 | the dict still holds no key twice |
| ConfigDoc.SetServer | install-mcps.py:358 | `config.setdefault("mcpServers", {})[key] = value`, also at line 436; SetServerEffect states its effect |
| ConfigDoc.InstalledKeys | install-mcps.py:214-216 | exactly the keys under which a server is found |
| ConfigDoc.LoadConfig | install-mcps.py:162-182 | invalid JSON is the only error; a blank file loads as `{}` with no servers; valid JSON loads as itself |
| ConfigDoc.AgreesOutside | install-mcps.py:127 | two documents differ at most in the servers under the given keys, and not at all at the top level; SetServerEffect and InstallsFrame establish it |
| ConfigDoc.SetServerEffect | install-mcps.py:120-127 | one install sets its server, leaves every other server and top-level member alone, only adds keys, and keeps the document well formed |
| ConfigDoc.PutIdempotent | install-mcps.py:123 | writing the same entry twice gives the same dict as writing it once |
| ConfigDoc.SetServerIdempotent | install-mcps.py:123 | the same for the whole document |
| ConfigDoc.AgreesOutsideTrans | install-mcps.py:127 | untouched-outside-the-given-keys composes over successive installs |
| ServerDiff.Diff | install-mcps.py:226-229 | the changes between two documents' `mcpServers`, a missing one counting as `{}`; DiffAddIff and DiffUpdateIff state it |
| ServerDiff.Classify | install-mcps.py:229-233 | one after-member against the before-map: ADD when its key is missing, UPDATE when the definitions differ, nothing when equal; DiffAddIff and DiffUpdateIff state it for whole documents |
| ServerDiff.Changes | install-mcps.py:229-234 | the classifications of the after-map's members, in its order; InChanges, ChangesAppend, ChangeSource and ChangeReported characterise it |
| ServerDiff.Render | install-mcps.py:231-233 | the two line formats `  + ADD    "key"` and `  ~ UPDATE "key"`; RenderInjective states they are unambiguous |
| ServerDiff.DiffMcpServers | install-mcps.py:219-235 | the loop returns one rendered line per change of the specification, in the same order |
| ServerDiff.ChangesAppend | install-mcps.py:229 | changes follow the order of the after-map's members |
| ServerDiff.InChanges | install-mcps.py:229-234 | a change is reported exactly when some member of the after-map classifies as it |
| ServerDiff.ChangeSource | install-mcps.py:229-234 | a reported change comes from a member of the after-map |
| ServerDiff.ChangeReported | install-mcps.py:229-234 | every member's classification is reported |
| ServerDiff.DiffAddIff | install-mcps.py:230-231 | ADD k exactly when k is installed after and not before |
| ServerDiff.DiffUpdateIff | install-mcps.py:232-233 | UPDATE k exactly when k is installed on both sides with different definitions |
| ServerDiff.UpdateReported | install-mcps.py:232-233 | a reported UPDATE names a server present on both sides whose definition changed |
| ServerDiff.UpdateReportedWhen | install-mcps.py:232-233 | a server present on both sides whose definition changed is reported as UPDATE |
| ServerDiff.DiffKeysFromAfter | install-mcps.py:229 | a key present only before is never reported |
| ServerDiff.ChangesNone | install-mcps.py:234 | members the before-map already holds with the same definition are not mentioned |
| ServerDiff.DiffSelf | install-mcps.py:226-235 | a document compared with itself gives no lines |
| ServerDiff.ChangesOwnSlice | install-mcps.py:234 | no run of a document's own servers shows a change against it |
| ServerDiff.ChangesSingle | install-mcps.py:229-233 | a single member is reported as its classification |
| ServerDiff.ChangesSplice | install-mcps.py:229-235 | one member between two unchanged runs is the only change |
| ServerDiff.ChangesAfterPutNew | install-mcps.py:230-231 | installing a new server shows one ADD |
| ServerDiff.UpdateIsSplice | install-mcps.py:123 | overwriting a member in place is splicing the new member between the ones before and after it |
| ServerDiff.ChangesAfterPutExisting | install-mcps.py:232-234 | re-installing a server shows its UPDATE, or nothing when the definition is the same |
| ServerDiff.DiffAfterSetServer | install-mcps.py:226-235 | what one install shows in the preview: ADD when new, UPDATE when changed, nothing when equal |
| ServerDiff.RenderInjective | install-mcps.py:231-233 | a diff line names its kind and key unambiguously |
| NodeLocator.NvmDir | install-mcps.py:272 | `~/.nvm/versions/node` under the home directory |
| NodeLocator.NvmBinDir | install-mcps.py:286 | `os.path.join(nvm_dir, best, "bin")` |
| NodeLocator.ParseMajor | install-mcps.py:278 | `int(s.lstrip("v").split(".")[0])`, `None` where `int` raises; MajorOf states how a concrete name parses, FirstPiece and ParseDecimal the parts |
| NodeLocator.SystemQualifies | install-mcps.py:261-268 | `node --version` ran and its stripped output has a major of at least 20; SystemNodeWins states its effect |
| NodeLocator.AsCandidate | install-mcps.py:277-282 | one listed name's contribution: `(major, entry)` when its major parses and is at least 20, else nothing; InCandidates states it for the whole listing |
| NodeLocator.Qualifies | install-mcps.py:278-280 | a name whose major parses to the given value of at least 20 |
| NodeLocator.Candidates | install-mcps.py:276-282 | the `(major, entry)` pairs of the listed names whose major parses and is at least 20, in listing order; InCandidates characterises it |
| NodeLocator.SelectNode | install-mcps.py:261-291 | the selection rule of `find_node_v20`; SystemNodeWins, NvmChoiceIsHighest and NotFoundIff state it |
| NodeLocator.CandidateLess | install-mcps.py:284 | Python's `<` on `(major, entry)` tuples: the major first, then the name as a string |
| NodeLocator.CandidateLessTransitive | install-mcps.py:284 | tuple order is transitive |
| NodeLocator.CandidateLessTotal | install-mcps.py:284 | tuple order is total on different candidates |
| NodeLocator.Best | install-mcps.py:284-285 | the first element after a reverse sort is a candidate that every other candidate sorts below |
| NodeLocator.CollectCandidates | install-mcps.py:276-282 | the listing loop builds exactly `Candidates` of the listing |
| NodeLocator.CandidatesStep | install-mcps.py:276-282 | one more listed name adds that name's candidate, if any, at the end |
| NodeLocator.FindNodeV20 | install-mcps.py:248-291 | the loop-and-sort procedure returns what the selection rule prescribes |
| NodeLocator.InCandidates | install-mcps.py:276-282 | the candidates are exactly the listed names whose major parses and is at least 20 |
| NodeLocator.SystemNodeWins | install-mcps.py:261-268 | a system node of major 20 or more gives `("npx", None)` |
| NodeLocator.NvmChoiceIsHighest | install-mcps.py:272-289 | otherwise a found node is the listed entry with the highest qualifying major, the larger name winning a tie, and its `bin/npx` exists |
| NodeLocator.NotFoundIff | install-mcps.py:248-291 | `(None, None)` exactly when the system node does not qualify and there is no nvm directory, no qualifying entry, or no `npx` in the best one |
| NodeLocator.BinDirNonEmpty | install-mcps.py:286 | a returned bin directory is a non-empty path |
| NodeLocator.ExampleHighestChosen | install-mcps.py:272-289 | of v18.0.0, v20.5.0 and v21.1.0, v21.1.0 is chosen |
| NodeLocator.ThreeEntries | install-mcps.py:272-289 | of three names with majors below 20, then rising from 20, the last is chosen |
| NodeLocator.CandidatesOfThree | install-mcps.py:276-282 | a name with major below 20 is skipped; qualifying names are kept in order |
| NodeLocator.CandidatesThree | install-mcps.py:276-282 | a three-name listing contributes each name's candidate in turn |
| NodeLocator.CandidatesTwo | install-mcps.py:276-282 | the same for two names |
| NodeLocator.BestOfTwo | install-mcps.py:284-285 | the higher major wins |
| NodeLocator.CandidatesSnoc | install-mcps.py:276-280 | one more listed name adds at most its own candidate at the end |
| NodeLocator.ExampleOnlyOldNode | install-mcps.py:272-291 | with only v18.0.0 installed nothing is found |
| NodeLocator.ExampleTieBrokenByName | install-mcps.py:284-285 | within one major the names compare as strings: v20.9.0 is preferred to v20.10.0 |
| NodeLocator.MajorV18 | install-mcps.py:278 | `v18.0.0` has major 18 |
| NodeLocator.MajorV20 | install-mcps.py:278 | `v20.5.0` has major 20 |
| NodeLocator.MajorV21 | install-mcps.py:278 | `v21.1.0` has major 21 |
| NodeLocator.MajorOf | install-mcps.py:278 | how a concrete `vMAJOR.MINOR.PATCH` name parses |
| Entries.EncodeToken | install-mcps.py:356 | `token.replace("\|", "%7C")`; EncodeHasNoPipe, EncodeWithoutPipe, EncodeAppend and DecodeEncode state what it does |
| Entries.DecodePipes | install-mcps.py:339-344 | the receiving side's decoding of `%7C` to `\|`; DecodeEncode states it undoes the encoding |
| Entries.EncodeHasNoPipe | install-mcps.py:339-344 | the encoded token holds no bare `\|` |
| Entries.EncodeWithoutPipe | install-mcps.py:356 | a token without `\|` is embedded verbatim |
| Entries.EncodeAppend | install-mcps.py:356 | encoding works piece by piece, so each `\|` is replaced where it stands and nothing else changes |
| Entries.DecodeEncode | install-mcps.py:339-344 | decoding `%7C` restores the token, when it holds no `%` of its own |
| Entries.EncodeSanctumToken | install-mcps.py:339-344 | a Sanctum token `{id}\|{secret}` travels as `{id}%7C{secret}` |
| Entries.ExampleEncoding | install-mcps.py:356 | `123\|abc` travels as `123%7Cabc` |
| Entries.GymHappyEntry | install-mcps.py:358-365 | the GymHappy Support definition for a token; GymHappyEntryEmbedsToken states its command and URL |
| Entries.MetabaseEnv | install-mcps.py:423-433 | the `env` block: the fixed URL and the key, plus `PATH` when the bin directory is non-empty |
| Entries.MetabaseEntry | install-mcps.py:420-433 | the Metabase definition for a located `npx`, a key and a bin directory; MetabaseEntryForLookup states it |
| Entries.MetabaseEntryForLookup | install-mcps.py:420-433 | the Metabase definition runs the located npx with the fixed URL and the key; `PATH` is present exactly when a bin directory was found, and then lists it before the system path |
| Entries.GymHappyEntryEmbedsToken | install-mcps.py:358-365 | the GymHappy definition runs `npx -y mcp-remote` with the fixed URL followed by the encoded token |
| Entries.Config.Snapshot | install-mcps.py:519 | `copy.deepcopy(config)`: the document's current value |
| Entries.Config.InstallGymhappy | install-mcps.py:350-367 | installs exactly when the token is non-empty; then the document is the old one with the GymHappy definition set, otherwise it is unchanged |
| Entries.Config.InstallMetabase | install-mcps.py:408-438 | installs exactly when the key is non-empty and a node is found; then the document is the old one with the Metabase definition for that lookup set, otherwise it is unchanged |
| Menu.IsMenuKey | install-mcps.py:51-62 | `key in MCPS`: the keys `1` and `2`, which `list(MCPS.keys())` (the constant `ALL_KEYS`) lists in that order |
| Menu.McpName | install-mcps.py:51-62 | `MCPS[key]["name"]`: GymHappy Support for `1`, Metabase for `2` |
| Menu.McpConfigKey | install-mcps.py:51-62 | `MCPS[key]["config_key"]`: `gymhappy-support` for `1`, `metabase` for `2` |
| Menu.KeepMenuKeys | install-mcps.py:547 | only registry keys are kept |
| Menu.KeepMenuKeysAppend | install-mcps.py:547 | the filter keeps input order and every repetition |
| Menu.InKeepMenuKeys | install-mcps.py:547 | a key is selected exactly when it is a registry key and some piece strips to it |
| Menu.ParseChoice | install-mcps.py:538-550 | what one menu answer decides; QuitIff, AllSelectsEveryServer, SelectionIsMenuKeys and InvalidIff state each case |
| Menu.QuitIff | install-mcps.py:538-542 | the menu quits exactly on an empty answer, `q` or `Q` |
| Menu.AllSelectsEveryServer | install-mcps.py:544-545 | `a` or `A` selects every registry key in registry order |
| Menu.SelectionIsMenuKeys | install-mcps.py:544-552 | a selection is non-empty and names registry keys only |
| Menu.NamesNoServer | install-mcps.py:547-548 | no comma-separated piece of the upper-cased answer strips to a registry key |
| Menu.InvalidIff | install-mcps.py:546-550 | an answer is rejected exactly when it neither quits nor selects all and none of its pieces is a registry key |
| Menu.MenuSpec | install-mcps.py:526-552 | how the menu loop ends and how many lines it reads; a choice is non-empty and names registry keys only |
| Menu.MenuSpecStep | install-mcps.py:526-552 | a rejected answer passes the decision to the next line; a quitting or selecting one decides |
| Menu.MenuSpecFacts | install-mcps.py:526-552 | every answer before the deciding one was rejected; quitting and choosing are decided by the last line read; end of input exactly when every line was rejected |
| Menu.MenuLoop | install-mcps.py:526-552 | the result and the lines read are those of `MenuSpec`; every answer before the deciding one was rejected; the deciding answer quits or selects; end of input exactly when every line was rejected |
| Menu.KeepTwo | install-mcps.py:547 | two pieces that strip to registry keys are both kept, in order |
| Menu.ParseChoiceSelected | install-mcps.py:544-550 | an answer that is already upper case and no single-letter command selects the registry keys among its pieces, when there are any |
| Menu.KeepKeyPair | install-mcps.py:547 | the pieces of `a, b` keep the two keys, in order |
| Menu.ParseKeyPair | install-mcps.py:547 | two keys separated by `, ` are selected in the order typed |
| Menu.KeepGymHappyKey | install-mcps.py:547 | a lone `1` is kept by the filter |
| Menu.ExampleSingleKey | install-mcps.py:538-547 | `1` selects GymHappy Support alone |
| Menu.ExampleOrderKept | install-mcps.py:547 | `2, 1` selects Metabase, then GymHappy Support |
| Installer.Sandboxed | install-mcps.py:142 | `if custom_path:`, a `--config` value counting only when non-empty |
| Installer.DefaultConfigPath | install-mcps.py:129-131 | `DEFAULT_CONFIG_PATH` under the home directory |
| Installer.ConfigPath | install-mcps.py:134-159 | the path `get_config_path` returns: the sandbox path when given, else the default; GetConfigPath states when it is returned |
| Installer.Prepared | install-mcps.py:142-152 | the files after `get_config_path`: a missing sandbox file now holds the skeleton; GetConfigPath states it |
| Installer.PrepareLog | install-mcps.py:148-150 | the one write `get_config_path` makes, for a missing sandbox file |
| Installer.FileSystem.WriteJson | install-mcps.py:148-150 | the file at the path now holds the document |
| Installer.FileSystem.Copy | install-mcps.py:193 | the target now holds the source's content |
| Installer.FileSystem.Replace | install-mcps.py:211 | the target takes the source's content and the source is gone |
| Installer.GetConfigPath | install-mcps.py:134-159 | a non-empty sandbox path is used and created with the skeleton when missing; the default path is used only when it exists, else the run fails |
| Installer.BackupConfig | install-mcps.py:185-194 | `path.backup` now holds the file's current content |
| Installer.SaveConfig | install-mcps.py:197-211 | the path now holds the document and no temporary file is left |
| Installer.SaveKeepsOriginalUntilReplace | install-mcps.py:198-211 | writing the temporary file leaves the config itself untouched |
| Installer.Installable | install-mcps.py:350-418 | whether an installer installs on its answer: `if not token` at line 351, `if not api_key` and `if npx_path is None` at lines 409-418; InstallStepEffect states its role |
| Installer.EntryFor | install-mcps.py:358-433 | the definition written: the GymHappy Support one for key `1`, the Metabase one for the located node for key `2`; GymHappyEntryEmbedsToken and MetabaseEntryForLookup state them |
| Installer.InstallStep | install-mcps.py:441-444 | `INSTALLERS[key](config)` on its answer: the document afterwards and the returned flag; InstallStepEffect states it and RunInstaller implements it |
| Installer.InstallStepEffect | install-mcps.py:350-438 | one installer installs exactly when its answer is non-empty and, for Metabase, a node is found; it then sets its own server to the definition for the answer, otherwise changes nothing; it touches nothing outside the two managed servers, removes nothing and keeps the document well formed |
| Installer.Installs | install-mcps.py:555-558 | the installers for the selection in order, each on the next answer, stopping when the answers run out; it reads at most one answer per installer |
| Installer.InstallsUnfold | install-mcps.py:556-558 | the run is the first installer's step followed by the run of the rest |
| Installer.InstallsUnfoldAt | install-mcps.py:556-558 | the same at installer `i` and answer `used` |
| Installer.InstallsCount | install-mcps.py:555-558 | each installer reads one answer; the run ends early exactly when there are fewer answers than installers |
| Installer.InstallsFrame | install-mcps.py:555-558 | the installers change only the GymHappy Support and Metabase servers, remove none, keep the document well formed, report only those two names, and leave the document as loaded when they report nothing |
| Installer.InstalledWitness | install-mcps.py:556-558 | a reported name comes from an installer that installed on its answer |
| Installer.InstalledNamed | install-mcps.py:556-558 | every installer that installs on its answer has its name reported |
| Installer.InstallsNamesIff | install-mcps.py:555-560 | `installed_names` is non-empty exactly when some installer installed on its answer |
| Installer.InstallsKeepKey | install-mcps.py:555-558 | a server whose installer never installs keeps its definition |
| Installer.LastInstallWins | install-mcps.py:555-558 | the last installer to install on a server decides its definition |
| Installer.AfterInstalls | install-mcps.py:560-574 | what `main` decides after the installers: end of input, nothing installed, or in preview mode the confirming answer; AfterInstallsGate states it |
| Installer.AfterInstallsGate | install-mcps.py:560-574 | after the installers, the config is to be written exactly when the input did not run out, something was installed and, in preview mode, the next answer is `y` or `Y`; what is written is the installers' document and names |
| Installer.Session | install-mcps.py:526-574 | `main` from the menu on: quit, end of input, or the chosen installers on the following lines and then the write gate; SessionWriteGate and SessionWritesWhenInstalled state it |
| Installer.SessionChosen | install-mcps.py:554-574 | a session whose menu chose keys is the write gate after those keys' installers |
| Installer.MainOutcome | install-mcps.py:517-577 | `main` once the path is settled: invalid JSON, or the session on the loaded document; MainOutcomeLoaded states the second case |
| Installer.MainOutcomeLoaded | install-mcps.py:518-526 | a config that loads is followed by the session on the loaded document and the menu's result |
| Installer.SessionWriteGate | install-mcps.py:526-574 | a write happens only after the menu chose servers, every chosen installer got its answer and one installed; what is written is the installed document; the lines read are the menu's, one per installer, and in preview mode the confirming `y` or `Y` |
| Installer.SessionWritesWhenInstalled | install-mcps.py:555-574 | the converse: when one chosen installer installed, the input did not run out, and in preview mode the next answer is `y` or `Y`, the installed document is written |
| Installer.SessionWrittenKeepsOthers | install-mcps.py:555-577 | a written config differs from the loaded one only in the two managed servers, loses none, stays well formed, and reports only those two names |
| Installer.SessionWrittenSafely | install-mcps.py:555-577 | a written outcome keeps every promise of `WrittenSafely` about the loaded document |
| Installer.GymHappyOnToken | install-mcps.py:350-367 | GymHappy Support alone on a token sets its definition for the token and reports its name |
| Installer.MenuPicksGymHappy | install-mcps.py:538-552 | an answer of `1` chooses GymHappy Support alone, on the first line |
| Installer.EmptyTokenNotWritten | install-mcps.py:555-562 | choosing GymHappy Support with an empty token ends with nothing installed, so nothing is written |
| Installer.TokenWritten | install-mcps.py:555-577 | choosing GymHappy Support, pasting a token and answering `y` writes the loaded config with that token's definition set, in either mode |
| Installer.WrittenSafely | install-mcps.py:555-577 | what a written outcome promises: names were installed and are the managed servers' names, in preview mode the confirming answer was `y` or `Y`, and only the managed servers changed, none removed |
| Installer.RunInstaller | install-mcps.py:441-444 | `INSTALLERS[key](config)`: the config afterwards and the returned flag are one installer step on the answer |
| Installer.InstallNext | install-mcps.py:556-558 | one turn of the loop keeps the loop's invariant: the run so far plus the rest of the run is the whole run |
| Installer.InstallsFrom | install-mcps.py:555-558 | the install loop's invariant: the run so far followed by the rest of the run is the whole run |
| Installer.InstallsAdvance | install-mcps.py:556-558 | one installer step on the next answer carries the loop's invariant one installer further |
| Installer.InstallsOutOfAnswers | install-mcps.py:556-558 | running out of answers before the last installer ends the run with what was done so far |
| Installer.InstallsDone | install-mcps.py:556-558 | after the last installer the run is complete |
| Installer.InstallEach | install-mcps.py:555-558 | the loop's document, names, answers read and end of input are exactly those of `Installs` on the loaded document |
| Installer.RunInstallers | install-mcps.py:555-558 | the document, the names, the answers read and whether input ran out are exactly `Installs` of the old document on the answers from `start`; with it, only the managed servers change, none is removed, and only their names are reported |
| Installer.Conclude | install-mcps.py:560-574 | the outcome and lines read are the write gate after the installers; an abort follows a preview answer other than `y` |
| Installer.InstallAndConclude | install-mcps.py:554-574 | after the menu's choice, the outcome and lines read are the session's |
| Installer.Interact | install-mcps.py:526-574 | the menu, the installers and the confirmation give the session's outcome and lines read; a quit follows a quitting answer, end of input reads every line |
| Installer.Commit | install-mcps.py:576-577 | the files afterwards are the backup, the new config and no temporary file, logged as copy, write and replace |
| Installer.ConfigProcessed | install-mcps.py:517-577 | what `main` does once the path is settled: `MainOutcome` of the file; nothing changes on disk unless the outcome is a write; a write keeps `WrittenSafely` and leaves backup, new config and no temporary file |
| Installer.ProcessConfig | install-mcps.py:518-577 | for a settled path, the outcome is `MainOutcome` of the file's content; invalid JSON exactly when the file is malformed; nothing changes on disk unless the outcome is a write, and a write keeps the promises of `WrittenSafely` |
| Installer.Run | install-mcps.py:500-577 | the outcome and lines read are `MainOutcome` of the prepared file; exit-1 cases are exactly a missing default config and invalid JSON; no file changes beyond the sandbox skeleton unless a server was installed and, in preview mode, the confirming answer was `y` or `Y`; a written config is the installers' document, differs from the loaded one only in the two managed servers, loses none, and the original is kept as `.backup`, copied before the save |
| Installer.BackupThenSave | install-mcps.py:576-577 | backing up then saving leaves the backup, the new config and no temporary file |
| Installer.DeclinedPreview | install-mcps.py:569-574 | a sandbox preview run that selects GymHappy Support, pastes `123\|abc` and declines writes nothing, and the file is the new skeleton |

## Left out

- JSON parsing and serialisation, including the 2-space format and the trailing newline, are left out. File contents are `Blank` (whitespace only), `Json(doc)` or `Malformed`.
- Numbers, booleans and null inside a definition are one abstract `Atom`, because the installer only carries them through.
- A config whose top level, or whose `mcpServers`, is valid JSON but not an object is out of the model. The script fails on it with a traceback.
- The terminal is not modelled: `/dev/tty` versus `input()`, Ctrl-C, and the prompt texts. Answers are the typed lines; end of input is running out of them, which exits with status 0.
- Printing is left out: the banners, `print_current_config`, the menu's installed/not-installed status, and the diff lines' output. `get_installed_keys` feeds only that status display, so `Run` does not call it. The diff lines themselves are computed.
- `argparse` is left out. The flags are an `Args` value.
- The `node --version` subprocess and its 5-second timeout are left out. A failed or timed-out run is a missing `versionOutput`.
- The other probes, `os.path.isdir`, `os.listdir` and `os.path.exists`, are also left out; their results are inputs.
- `os.path.expanduser` and `os.path.join` are home-relative string concatenation. The home directory is a parameter.
- `os.makedirs` for a sandbox path's parent directories is left out.
- The metadata that `shutil.copy2` keeps is left out.
- `os.replace` is one atomic step, which is what POSIX guarantees.
- Interleavings with other processes writing the config are not modelled.
- `candidates.sort(reverse=True)` followed by `[0]` is modelled as the maximum under tuple order (`Best`), which is the same element; the in-place sort itself is not.
- NodeLocator.ParseMajor: does not model Python `int()` accepting surrounding whitespace, a sign, underscores or non-ASCII digits. The part before the first `.` must be a non-empty run of ASCII digits.
- Text.Upper: `str.upper()` and `str.lower()` are modelled on ASCII letters only. No other character can turn into the menu's `Q` and `A` or into `y`.
- Entries.DecodePipes: models only the decoding of `%7C`, not full URL decoding on the server side.
- Installer.DeclinedPreview: states that nothing is written and what the file holds. It does not state which non-writing outcome is reached.
- The top level of the config is a map, so the order of its members is lost, including that `setdefault` appends a new `mcpServers` after the members already there and that `json.dump` writes it there.
- The ordering of `mcpServers` members in the written file follows Python dict insertion order. Members nested inside a definition are compared as unordered maps, as Python's `==` compares them.
