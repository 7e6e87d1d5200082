# ares: profile store and unpack engine, modelled in Dafny

`ares.py` is a command-line tool for Android resources. It has two commands:

- `profile` keeps named profiles in `~/.ares/config.json`. A profile holds a resource directory and up to eight optional file-name suffixes, one per density qualifier (`ldpi`, `mdpi`, `hdpi`, `xhdpi`, `xxhdpi`, `xxxhdpi`, `nodpi`, `tvdpi`). The config also names one profile as active.
- `unpack` extracts each given zip archive into a scratch directory under `~/.ares/temp`. For each configured suffix `S`, in field order, it moves every scratch file whose name matches the glob `*S.*` to `<resdir>/drawable-<tag>/` under the `--name` file name, then removes the scratch directory.

The model has four files:

- `wrappers.dfy` holds `Option`, `Result` and a pass/fail `Outcome`.
- `paths.dfy` (module `Paths`) models pathlib's `name`, `suffix`, `stem` and `with_suffix`, the glob `*S.*` and path joining, on '/'-separated strings.
- `profiles.dfy` (module `Profiles`) models the profile records, the config and the lookups over it. It also has the class `ConfigFile`, whose methods are the `profile` subcommands and the profile resolution of `unpack`. The file is modelled by three fields: whether it exists, the config it holds, and how many times it was rewritten. The class invariant `Valid` says that an existing config is well formed: names are unique and the active name is one of them. `add` and `delete` preserve it.
- `unpack.dfy` (module `Unpack`) models the unpack loop.
  - The filesystem is a map from path to contents. Next to it is the set of folders that exist in the resource tree.
  - A scratch tree is the sequence of its files, in the order `rglob` visits them.
  - Messages and moves are appended to an event log.
  - An archive that cannot be opened is an `Archive` whose contents are `None`.
  - An archive also records how many directory members it has. An archive with no members at all makes `extractall` create no scratch directory, so the `rmtree` at the end of that archive raises `FileNotFoundError`.
  - `--name` is an `Option<string>`.
  - An exception that ends the program is a `crashed` run, or a batch status other than `Completed`.
  - The three nested loops of the source are the methods `MoveMatches` (the matches of one suffix), `UnpackArchive` (the (suffix, tag) pairs of one archive) and `UnpackBatch` (the archives). `UnpackPair` is the body of the loop over pairs. Each method is proved equal to a recursive function (`MoveEach`, `ProcessPair`, `ArchiveResult`, `BatchResult`). The lemmas about those functions state what a run does to each file and to the resource tree.

The central property is `FirstTakerWins`. It holds for one archive whose `--name` is usable (given, and neither empty nor ".", whose pathlib name is empty):

- A pair *takes* a file when its suffix is set, the glob `*S.*` matches the file name, and its `drawable-<tag>` folder exists.
- Every extracted file is moved exactly once, to the first pair in field order that takes it.
- A file that no pair takes is never moved.
- The scratch tree is removed at the end. That removal raises exactly when the archive has no members.
- In the resource tree, every path that is no extracted file's home keeps what it held. Every home exists afterwards and holds the contents of an extracted file whose home it is.

A file whose folder is missing stays in the scratch tree, so a later pair whose pattern also matches it can still take it. That is why the folder's existence is part of "takes".

Suffixes are tried in field order, and a file moved for one suffix is no longer there for the next. A file such as `icon_xhdpi.png` therefore goes to `drawable-hdpi` when the hdpi suffix is `hdpi`, since `*hdpi.*` also matches it (`Unpack.HdpiComesBeforeXhdpi`).

## Model

| member | source | states |
|---|---|---|
| Paths.BaseNameIsLastComponent | ares.py:243 | The final component of a path has no '/', ends the path, and follows the path's last '/' |
| Paths.ExtensionIsPathlibSuffix | ares.py:246-247 | pathlib's `suffix` is empty exactly when the name is empty, ends in '.', or has no '.' after its first character; otherwise it is a '.' followed by a dot-free tail that ends the name |
| Paths.Stem | ares.py:236 | The stem followed by the suffix gives back the file name |
| Paths.ExtensionOfAppended | ares.py:246-247 | Appending a suffix to a non-empty name that has none makes that suffix the name's suffix |
| Paths.MatchesFromSpec | ares.py:243 | Scanning from position k finds `S` directly before a '.' exactly when such a position exists at or after k |
| Paths.NameMatchesGlob | ares.py:243 | The matcher accepts a file name exactly when the glob `*S.*` matches it |
| Paths.TargetNameExtension | ares.py:245-247 | The destination name keeps `--name` as its prefix; its suffix is the one in `--name` if there is one, else the matched file's |
| Paths.JoinSpec | ares.py:244-250 | Joining keeps the folder as a prefix, and a single-component file name becomes the last component |
| Profiles.SuffixesToFolders | ares.py:230 | A profile yields eight (suffix, tag) pairs in field order, the i-th pairing the i-th density with its configured suffix |
| Profiles.Names | ares.py:113 | The listed names match the profiles one for one, in store order |
| Profiles.FindByName | ares.py:194-195 | The lookup fails exactly when no profile has the name; otherwise it returns a stored profile with that name |
| Profiles.FindByNameIsFirst | ares.py:194-195 | A found profile is the earliest one with that name |
| Profiles.FindByNameAppend | ares.py:161 | After a profile is appended, a name already present finds the same profile; a new name finds the appended profile only if it carries that name |
| Profiles.DefaultProfile | ares.py:198-199 | The default profile exists exactly when the active name is stored, and then it is a stored profile with that name |
| Profiles.WithoutName | ares.py:128 | The filter keeps exactly the profiles with a different name |
| Profiles.WithoutNameAppend | ares.py:128 | The filter distributes over concatenation, so the survivors keep their order |
| Profiles.WithoutAbsentName | ares.py:128 | Deleting a name that no profile has leaves the list unchanged |
| Profiles.WithoutNameUnique | ares.py:128 | The filter keeps names unique |
| Profiles.AddKeepsWellFormed | ares.py:146-162 | Appending a new-named profile and making it active keeps the config well formed, and the new profile is then found by its name |
| Profiles.AddKeepsOtherLookups | ares.py:161 | Appending a new-named profile changes the lookup of no other name |
| Profiles.FirstProfileWellFormed | ares.py:168-183 | The first config written (the new profile alone, active) is well formed and finds the profile |
| Profiles.DeleteKeepsWellFormed | ares.py:124-128 | Deleting a non-active name keeps the config well formed |
| Profiles.DeleteKeepsDefault | ares.py:124-128 | After the delete no profile has the name, and the default profile is unchanged |
| Profiles.ConfigFile.Missing | ares.py:143 | Before any `add` there is no config file and nothing has been written |
| Profiles.ConfigFile.AddProfile | ares.py:137-191 | Missing resdir fails; a duplicate name fails with nothing written. Otherwise the profile is appended, or starts a new file, and becomes active with one write. Validity is kept and the new profile is found by its name |
| Profiles.ConfigFile.DeleteProfile | ares.py:119-134 | A missing file fails; deleting the active name fails with nothing written. Otherwise exactly the profiles with that name are removed with one write, the active name is unchanged and validity is kept |
| Profiles.ConfigFile.ListProfiles | ares.py:109-116 | A missing file fails; otherwise the names come out one per profile, in store order |
| Profiles.ConfigFile.SetActive | ares.py:202-210 | The profile becomes active; the file is rewritten only when the active name changes. A valid store stays valid when the profile's name is stored |
| Profiles.ConfigFile.ResolveProfile | ares.py:213-227 | A missing file fails. A requested name that is absent fails with nothing changed; a present one is returned and made active. With no request the active profile is returned unchanged, and for a valid config it is always found |
| Unpack.ScratchDir | ares.py:236 | The scratch directory lies under `~/.ares/temp`, and its last component is the archive's file name minus its suffix |
| Unpack.DrawableFolder | ares.py:244 | The destination folder lies under the resource directory, and its last component is `drawable-<tag>` |
| Unpack.DrawableFoldersDistinct | ares.py:244 | Different densities never share a destination folder |
| Unpack.MatchesOf | ares.py:243 | The matches are exactly the scratch files whose name matches `*S.*` |
| Unpack.MatchesOfAppend | ares.py:243 | The matches of a tree split along the tree, so they keep the traversal order |
| Unpack.RemovePath | ares.py:250 | Moving a file out of the scratch tree removes exactly the entries at its path |
| Unpack.MovedEvents | ares.py:250 | There is one record per match, and every record is a move |
| Unpack.MovedEventsAt | ares.py:250 | The i-th move record names the i-th match and that match's destination |
| Unpack.MissingEvents | ares.py:251-252 | A missing folder yields one report per match |
| Unpack.HomeIsFirstTaker | ares.py:239-252 | A file's home is the destination given by the first pair that takes it; it has none exactly when no pair takes it |
| Unpack.MoveEachMissing | ares.py:249-252 | If the folder is missing, every match stays in the scratch tree and each is reported as missing |
| Unpack.MoveEachLog | ares.py:249-250 | If the folder exists, one move is recorded per match, in traversal order, and nothing raises |
| Unpack.MoveEachScratch | ares.py:250 | If the folder exists, exactly the matches leave the scratch tree, and paths stay distinct |
| Unpack.MoveEachFiles | ares.py:249-250 | If the folder exists, every destination holds the contents of a match sent to it, and every path no match is sent to keeps what it held |
| Unpack.LastMatchWins | ares.py:243-250 | If several files match one suffix and `--name` has a suffix, they all go to one path and the last match's contents win |
| Unpack.PairScratch | ares.py:239-252 | With a usable name, one pair removes from the scratch tree exactly the files it takes, and raises nothing |
| Unpack.PairMoves | ares.py:239-252 | One pair records one move for each file it takes, to its own destination, and no move for any other path |
| Unpack.RoutesScratch | ares.py:239-252 | After all pairs, the scratch tree holds exactly the files no pair takes |
| Unpack.RoutesToFirstTaker | ares.py:239-252 | All pairs together move every scratch file exactly to its home (or nowhere) and record no move of other paths |
| Unpack.PairFiles | ares.py:239-252 | One pair writes each destination of a file it takes with the contents of a file it sends there, and leaves every other path as it was |
| Unpack.RoutesFiles | ares.py:239-252 | After all pairs, every path that is no scratch file's home keeps what it held, and every home holds the contents of a file whose home it is |
| Unpack.PairReport | ares.py:239-254 | An unset suffix does nothing. A set suffix only appends to the log, and "no files" is logged exactly when nothing matches |
| Unpack.UnusableNameMovesNothing | ares.py:245-247 | With a missing `--name`, or one that is empty or ".", nothing is moved. The run raises exactly when some set suffix has a match |
| Unpack.EmptyTreeMovesNothing | ares.py:239-254 | With nothing extracted, no pair matches: nothing moves, nothing raises and the resource tree is unchanged |
| Unpack.FirstTakerWins | ares.py:230-255 | With a usable name, every extracted file is moved once to its first taker or not at all, and the scratch tree is removed; the removal raises exactly when the archive has no members. In the resource tree, non-home paths keep what they held and every home holds the contents of a file whose home it is |
| Unpack.NothingTakenKeepsFiles | ares.py:239-255 | An archive none of whose files any pair takes leaves the resource tree exactly as it was |
| Unpack.MoveMatches | ares.py:243-252 | The per-match loop finds something exactly when there are matches, raises exactly on a match without a usable name, and otherwise performs every move in order |
| Unpack.UnpackPair | ares.py:239-254 | The per-pair step equals the pair's specification, and it raises only without a usable name |
| Unpack.UnpackArchive | ares.py:239-255 | The per-archive loop equals its specification. A finished archive leaves no scratch; an exception leaves files and scratch as extracted. An archive without members always raises; one with members raises only without a usable name. With a usable name every file goes to its first taker, non-home paths keep what they held, and every home holds a file sent there |
| Unpack.UsableNameNeverCrashes | ares.py:245-252 | With a usable name, no pair raises |
| Unpack.CrashLeavesScratch | ares.py:236-255 | An archive without members always raises (at `rmtree`); one with members raises only without a usable name. Either way its extracted tree is left in place and nothing is moved |
| Unpack.BatchCompletes | ares.py:232-256 | A batch completes only if every archive could be opened and had members, and always does when they all do and the name is usable |
| Unpack.BatchStopsAtUnreadable | ares.py:237-238 | An unreadable archive ends the batch right after all earlier archives were extracted, and the error names that archive |
| Unpack.BatchStopsAtEmpty | ares.py:236-255 | A missing scratch directory ends the batch at an archive with no members, right after all earlier archives were extracted, and the error names that archive |
| Unpack.BatchNameError | ares.py:233-256 | A `--name` error means the name is unusable, and it ends the batch at an archive with members whose whole extracted tree is left in its scratch directory |
| Unpack.UnpackBatch | ares.py:229-256 | The loop over archives equals its specification, and it completes, or stops at an unreadable or memberless archive, as described above |
| Unpack.ExampleTargetName | ares.py:245-247 | `--name icon` on `icon_xhdpi.png` gives `icon.png` |
| Unpack.HdpiComesBeforeXhdpi | ares.py:230-247 | With both the hdpi and xhdpi suffixes set and the hdpi folder present, `icon_xhdpi.png` goes to `drawable-hdpi/icon.png`, because `*hdpi.*` comes first and also matches it |

## Where the code differs from the intended behaviour

The model follows the code in each case.

- A file matches suffix `S` when the glob `*S.*` matches its name: `S` must stand directly before a '.'. The intended behaviour is to match `S` anywhere in the stem (`Paths.NameMatchesGlob`).
- Without `--name`, `pathlib.Path(None)` raises at the first match and ends the program (`Unpack.UnusableNameMovesNothing`). The intended behaviour is for the file to keep its own name.
- An archive that is missing or not a zip makes `zipfile.ZipFile` raise, which ends the whole batch (`Unpack.BatchStopsAtUnreadable`). The intended behaviour is to report the archive and continue with the next.
- The scratch directory is removed only when the archive's loop finishes; an exception leaves it behind (`Unpack.BatchNameError`). The intended behaviour is to remove it on every path.
- A zip archive with no members makes `extractall` create no scratch directory. After each set suffix reports no files, `shutil.rmtree` raises `FileNotFoundError`, which ends the whole batch (`Unpack.BatchStopsAtEmpty`). The intended behaviour is to delete the scratch directory after processing, when there is one, and continue with the next archive.

## Left out

- Argument parsing with argparse, `exit_not_initialized` and `parser.error`: they are the failing outcomes (`StoreError`), and the process exit is not modelled.
- Reading and writing JSON and the config file's contents on disk, and `os.mkdir(ARES_HOME)`: the file is its `Config` plus a presence flag and a write counter.
- Profile field order for a hand-edited config: the pairs come from `list(profile.items())[2::]`. The model fixes the order that `add` writes (name, resdir, then the eight densities).
- The printed messages and stderr text, including the success line of `add` and of `SetActive`: they are log events or left out.
- Zip extraction: an archive is given as the tree it extracts to and its count of directory members, or as unreadable. Partial extraction of a damaged archive is not modelled.
- Expansion of `~` in `~/.ares/temp`: the scratch root is kept as a literal path.
- pathlib normalisation of `//`, `.`, `..` and trailing '/': paths are plain '/'-joined strings.
- Paths.TargetName: a `--name` with '/' in it, or an absolute one: the model treats `--name` as one plain component. pathlib would take the suffix of the last component, and an absolute name would replace the folder. A '/'-name whose pathlib name is empty, such as "/" or "./", makes `with_suffix` raise just as "" and "." do; the model does not count it as unusable.
- Glob metacharacters (`*`, `?`, `[`) and '/' inside a suffix: they are read literally, and matching is case-sensitive. A suffix containing '/', such as `a/b`, would make `rglob` match `b.*` files inside directories whose name matches `*a`. The model compares the suffix against the file name only, so such a suffix never matches.
- `rglob` also yielding directories whose name matches; the scratch tree holds only files. The traversal order is taken as the order of the extracted entries.
- Files moved while `rglob` is still iterating: the matches of a suffix are computed before its moves begin.
- A scratch directory that is not empty when an archive is extracted into it: each archive's tree is taken as extracted afresh. This happens when two archives share a stem, or when an earlier run crashed on a `--name` error and left its tree behind (`Unpack.BatchNameError`). `rglob` would then also pick up the leftover files, and the `rmtree` of an archive without members would find the leftover directory and not raise.
- `shutil.move` raising anything but `FileNotFoundError` (permissions, a directory at the destination, a cross-device copy failing): only a missing destination folder is modelled.
- The profile resolution and `UnpackBatch` are separate: `ResolveProfile` returns the profile that `UnpackBatch` then takes as its argument. A profile whose `resdir` or suffixes are missing from the JSON is not modelled.
- `ares_install.py` and `ares_update.py` are not part of this model.
