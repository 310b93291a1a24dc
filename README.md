# monorepo-hatchet, modelled in Dafny

monorepo-hatchet prunes a Go monorepo down to a few packages and what they need.
`go list -json ./...` describes every package of the repository. The command then:

1. Matches the caller's comma-separated patterns against the packages.
2. Closes that set under the dependencies that are themselves in the repository.
3. Projects the kept packages to a list of files. These are Go files; with tests, test
   files and all other files; without tests, only the other files outside `testdata`;
   and embedded files in both cases.
4. Hands the list to a cleaner. The cleaner walks the source directory, removes every
   file it does not keep, and then removes the directories that are left without
   entries. Files in `.git`, and `go.mod`/`go.sum` outside `testdata`, are protected
   unless the caller turns that off. A dry run removes nothing.

The project models three parts:

* The `pkglist` package: the `Finder` and its matcher.
* The `cleaner` package: the `Cleaner`, its options and its two passes.
* `main.go`: its own inline copy of listing, matching, closure and projection, and the
  way it wires the cleaner.

Modules:

* `GoStrings` (`strings.dfy`): the Go `strings`/`filepath` functions the code uses. It
  also holds their algebra: split and join are inverse, the last segment, `Base` of a
  joined path, and the shape of `TrimSpace`.
* `GoPackages` (`packages.dfy`): the package record, the `go list` output, and the
  definitions everything else is proved against:
  * indexing records under their import path, where later duplicates overwrite earlier
    ones;
  * the file projection;
  * selection by a matching rule;
  * the dependency closure, defined as the least closed superset and proved equal to
    reachability along `Deps`.
* `PackageSteps` (`steps.dfy`): the loops shared by `pkglist` and `main.go`. These are
  the pattern loop, the closure worklist over a keep set that is grown in place, and
  the append loops of the projection.
* `PkgList` (`pkglist.dfy`): `pkg/pkglist/pkglist.go`.
* `MemFs` (`memfs.dfy`): the filesystem the cleaner works against (files, directories,
  and the directories or entries whose listing or removal fails), with `ReadDir`,
  `Remove` and `Walk`.
* `Cleaner` (`cleaner.dfy`): `pkg/cleaner/cleaner.go`, plus the clean of the
  two-package tree of its test.
* `Hatchet` (`hatchet.dfy`): `main.go`.

The two matchers differ, and the model keeps both:

* `pkglist` matches wildcards at segment boundaries.
* `main.go` strips `github.com/<org>/` from both sides and compares prefixes as plain
  strings. So `a/...` matches the package `ab` (`Hatchet.WildcardCrossesSegmentBoundary`).

## Definitions

The functions every contract below is stated against. They compute what the source
computes, and their meaning is given by the lemmas in the table that follows.

| definition | source | computes |
|---|---|---|
| `GoPackages.Joined` | pkg/pkglist/pkglist.go:111-113 | `dir/name` for each name, in order |
| `PkgList.MatchPackage` | pkg/pkglist/pkglist.go:148-209 | `matchPackage` of the `Finder` |
| `Hatchet.NormalizeImportPath` | main.go:81-88 | the `normalizeImportPath` closure of `main.go` |
| `Hatchet.MatchPackage` | main.go:62-136 | `matchPackage` of `main.go` |
| `Hatchet.CleanPattern` | main.go:154-158 | the cleanup of one comma-separated pattern |
| `Cleaner.Configure` | pkg/cleaner/cleaner.go:69-80 | the defaults of `New`, then each option in order |
| `Cleaner.KeepsFile` | pkg/cleaner/cleaner.go:111-130 | the walk callback's decision to keep a file |
| `Cleaner.Cleaner.Removable` | pkg/cleaner/cleaner.go:95-132 | the files a clean removes: at or below the source directory and not kept |

## Model

| member | source | states |
|---|---|---|
| GoStrings.JoinSplit | pkg/pkglist/pkglist.go:189 | joining the pieces of `strings.Split` with the separator gives back the input |
| GoStrings.SplitJoin | main.go:82-85 | splitting a join of separator-free pieces gives back the pieces |
| GoStrings.LastSegmentIsSuffix | pkg/pkglist/pkglist.go:189-190 | the last piece of a split on `/` has no `/` and is the whole path or follows its last `/` |
| GoStrings.SplitLastOfSuffix | pkg/pkglist/pkglist.go:189-190 | a `/`-free suffix after a `/` is the last piece of the split |
| GoStrings.BaseOfJoin | pkg/cleaner/cleaner.go:126-127 | `filepath.Base` of `dir/name` is `name` for a non-empty `/`-free name |
| GoStrings.JoinInjective | pkg/cleaner/cleaner.go:175 | two joins of `/`-free names are equal only when directory and name are |
| GoStrings.ContainsIff | pkg/cleaner/cleaner.go:117 | `strings.Contains` holds exactly when the text occurs at some index |
| GoStrings.ContainsInfix | pkg/cleaner/cleaner.go:117 | text with `sub` in it contains `sub` |
| GoStrings.TrimSpaceShape | main.go:155 | `TrimSpace` returns the input minus white-space runs at both ends, and neither end of the result is white space |
| GoStrings.TrimSpaceOfPadded | main.go:155 | white space around a core whose ends are not white space is exactly what `TrimSpace` removes |
| GoStrings.TrimPrefix | main.go:100 | a present prefix is cut off, otherwise the input is returned |
| GoStrings.TrimSuffix | main.go:72 | a present suffix is cut off, otherwise the input is returned |
| GoStrings.Split | main.go:147 | a split has at least one piece, and no piece holds the separator |
| GoPackages.IndexedKeys | pkg/pkglist/pkglist.go:53-60 | the index holds the earlier keys and the import path of every record |
| GoPackages.IndexedLastWins | pkg/pkglist/pkglist.go:58 | a record not followed by another with its import path is what the index stores |
| GoPackages.IndexedUntouched | pkg/pkglist/pkglist.go:58 | keys no record names keep their earlier entries |
| GoPackages.IndexedKeyed | main.go:55 | indexing keeps every record under its own import path |
| GoPackages.WithoutTestdataMembers | pkg/pkglist/pkglist.go:128-135 | a path survives the filter exactly when it is not under `/testdata/` |
| GoPackages.PackageFilesMembers | pkg/pkglist/pkglist.go:110-142 | membership of a package's projection, class by class for both settings of `withTests` |
| GoPackages.ProjectionGrowsWithTests | pkg/pkglist/pkglist.go:116-136 | every file listed without tests is listed with tests |
| GoPackages.TestdataExcludedWithoutTests | pkg/pkglist/pkglist.go:128-135 | without tests, a listed `testdata` path is a Go or an embedded file |
| GoPackages.ClosureUnique | pkg/pkglist/pkglist.go:81-100 | the closure of a set is unique |
| GoPackages.ClosureIdempotent | pkg/pkglist/pkglist.go:81-100 | closing a closed set adds nothing |
| GoPackages.ClosureAddsOnlyRepoPackages | pkg/pkglist/pkglist.go:92 | the closure adds no identity from outside the repository |
| GoPackages.ExternalDepIsInert | pkg/pkglist/pkglist.go:92 | a dependency outside the repository changes neither coverage nor closedness |
| GoPackages.PathStaysInClosed | pkg/pkglist/pkglist.go:87-99 | a dependency path starting in a closed superset of the initial set ends inside it |
| GoPackages.ClosureIsReachable | pkg/pkglist/pkglist.go:81-100 | the closure is exactly the set of identities reachable along in-repo `Deps` edges |
| GoPackages.ReachableSetClosed | pkg/pkglist/pkglist.go:87-99 | the reachable identities include the initial set and are closed |
| PackageSteps.SelectMatching | pkg/pkglist/pkglist.go:67-77 | the keep set is exactly the import paths of the packages some pattern matches |
| PackageSteps.CloseOverDeps | pkg/pkglist/pkglist.go:82-99 | the worklist grows the keep set to exactly its dependency closure |
| PackageSteps.VisitDeps | pkg/pkglist/pkglist.go:90-97 | one queued package: its in-repo dependencies become kept and queued once, the queue only grows, and nothing outside every closed superset is kept |
| PackageSteps.AppendJoined | pkg/pkglist/pkglist.go:111-113 | the loop appends the joined path of every name, in order |
| PackageSteps.AppendOutsideTestdata | pkg/pkglist/pkglist.go:128-135 | the loop appends the joined paths outside `testdata`, in order |
| PackageSteps.SeqOfSet | pkg/pkglist/pkglist.go:82-85 | the initial queue lists every kept identity once |
| PkgList.Finder.constructor | pkg/pkglist/pkglist.go:33-40 | a new finder has its source directory and commander, and no packages |
| PkgList.Finder.FindAll | pkg/pkglist/pkglist.go:43-63 | a failed command is an error and changes nothing. Otherwise each record is stored under its import path, later ones winning. A malformed value ends the loop with an error and keeps what was stored |
| PkgList.Finder.FilterByPatterns | pkg/pkglist/pkglist.go:66-78 | exactly the import paths of the packages some pattern matches |
| PkgList.Finder.AddDependencies | pkg/pkglist/pkglist.go:81-100 | the caller's keep set becomes its dependency closure |
| PkgList.Finder.GetFileList | pkg/pkglist/pkglist.go:103-145 | a file is listed exactly when it is in the projection of a kept package of the repository |
| PkgList.AppendPackageFiles | pkg/pkglist/pkglist.go:110-142 | one kept package appends exactly its projection |
| PkgList.MatchExact | pkg/pkglist/pkglist.go:157-160 | a pattern equal to the import path matches |
| PkgList.MatchPlain | pkg/pkglist/pkglist.go:188-208 | a plain pattern matches exactly when it is the import path or a trailing segment run of the import path or directory; the package-name test adds nothing |
| PkgList.MatchWildcard | pkg/pkglist/pkglist.go:163-186 | `prefix/...` matches exactly when it is the import path, `prefix` is a trailing or leading segment run of the import path, or an inner segment run of the directory |
| PkgList.DotWildcardMatchesAll | pkg/pkglist/pkglist.go:167-170 | `./...` matches every package |
| PkgList.WildcardCoversSubpackages | pkg/pkglist/pkglist.go:173 | `prefix/...` matches every import path below `prefix` |
| PkgList.WildcardSegmentBoundary | pkg/pkglist/pkglist.go:173-182 | for any prefix other than `.`, one or several segments long, `prefix/...` matches neither the package `prefix` followed by a non-`/` character nor its directory: `pkg/foo/...` rejects `pkg/foox` in `/pkg/foox` |
| PkgList.WildcardExcludesNamedPackage | pkg/pkglist/pkglist.go:173-182 | `a/b/...` does not match the package `a/b` in `/a/b` |
| PkgList.SelectedAreKeys | pkg/pkglist/pkglist.go:70-73 | with records keyed by import path, every selected identity is a package of the repository |
| PkgList.SelectedByExactPattern | pkg/pkglist/pkglist.go:157-160 | a pattern naming a package's import path selects it |
| PkgList.SelectedGrowsWithPatterns | pkg/pkglist/pkglist.go:68-76 | more patterns only select more |
| PkgList.KeptFileGrowsWithTests | pkg/pkglist/pkglist.go:116-136 | the file list with tests contains the one without |
| PkgList.KeptFileMonotone | pkg/pkglist/pkglist.go:105-108 | a wider keep set lists more files |
| MemFs.FileSystem.ReadDir | pkg/cleaner/cleaner.go:167-170 | a missing directory fails with not-exist, an unreadable one with permission denied; otherwise every immediate entry is named once, flagged when it is a directory |
| MemFs.FileSystem.Remove | pkg/cleaner/cleaner.go:142 | a missing path, a locked entry and a non-empty directory fail and change nothing; otherwise exactly that path is removed |
| MemFs.FileSystem.Walk | pkg/cleaner/cleaner.go:95-137 | a walk fails exactly when the root is missing or it reaches an unreadable directory; otherwise it lists every file at or below the root once |
| MemFs.RemovalKeepsValid | pkg/cleaner/cleaner.go:142 | removing a file or an empty directory keeps every entry's parent directories present |
| MemFs.ChildrenDisjoint | pkg/cleaner/cleaner.go:173-184 | two entries of one directory above the same path are the same entry |
| Cleaner.Cleaner.New | pkg/cleaner/cleaner.go:63-83 | `New`: the keep list as a set, and the options applied in order to the defaults |
| Cleaner.NewWithFs | pkg/cleaner/cleaner.go:86-90 | as New, with the given filesystem in place of the operating system's |
| Cleaner.Cleaner.Clean | pkg/cleaner/cleaner.go:92-164 | a failed walk is an error and changes nothing. The removal order lists each removable file once, and the first failed removal stops the clean with exactly the files before it gone. Only removable files go, none on a dry run. Only reached, emptied directories other than the source directory go. Success, and a failure of the empty-directory pass, leave exactly the removable files gone, as the source removes them all before that pass. Success leaves no reached directory but the source directory empty. When nothing can fail, it succeeds |
| Cleaner.Cleaner.RemoveEmptyDirs | pkg/cleaner/cleaner.go:166-201 | files are untouched. Only directories reached from `path`, other than the source directory and left without entries, are removed, none on a dry run. On success no reached directory but the source directory is left empty. When nothing it reaches can fail, it succeeds |
| Cleaner.Cleaner.VisitEntry | pkg/cleaner/cleaner.go:173-184 | one entry of the loop: a directory other than a protected `.git` is cleaned recursively and its failure returned; other entries change nothing |
| Cleaner.Cleaner.RemoveIfEmpty | pkg/cleaner/cleaner.go:186-200 | a directory left without entries is removed unless it is the source directory or this is a dry run; otherwise nothing changes |
| Cleaner.LaterOptionWins | pkg/cleaner/cleaner.go:78-80 | of two options for the same flag, the later one decides |
| Cleaner.DistinctOptionsCommute | pkg/cleaner/cleaner.go:78-80 | options for different flags can be given in either order |
| Cleaner.UnsetFlagsKeepDefaults | pkg/cleaner/cleaner.go:69-76 | a flag no option sets keeps its default: both protections on, dry run, test keeping and tidy off |
| Cleaner.GitContentsKept | pkg/cleaner/cleaner.go:116-119 | with `.git` protected, every file inside a `.git` directory is kept |
| Cleaner.ManifestKept | pkg/cleaner/cleaner.go:121-130 | with manifests protected, `go.mod` and `go.sum` outside `testdata` are kept |
| Cleaner.TestdataManifestRemovable | pkg/cleaner/cleaner.go:111-132 | an unlisted file under `testdata` and outside `.git` is removed even with both protections on |
| Cleaner.ProtectedGitNotReached | pkg/cleaner/cleaner.go:177-179 | with `.git` protected, the empty-directory pass never visits a `.git` entry of its root or anything below it |
| Cleaner.ReachesViaChild | pkg/cleaner/cleaner.go:173-184 | the pass visits a path below an entry of the root exactly when the entry is not a protected `.git` and the pass from the entry visits it |
| Cleaner.EmptiedTrans | pkg/cleaner/cleaner.go:193-198 | removing only directories without entries composes over successive removals |
| Cleaner.CleanFaultFree | pkg/cleaner/cleaner.go:92-164 | a clean that nothing can stop succeeds and removes exactly the files it does not keep |
| Cleaner.CleanTwoPackages | pkg/cleaner/cleaner_test.go:10-55 | the clean of `/src` with `file1.go` and `file4_test.go` listed succeeds. It leaves exactly those two files, and both package directories stay |
| Hatchet.NormalizeOnlyGithub | main.go:81-88 | normalization changes only paths below `github.com/` |
| Hatchet.NormalizeGithub | main.go:81-88 | `github.com/<org>/<rest>` normalizes to `rest` |
| Hatchet.NormalizeOrganisationOnly | main.go:81-88 | `github.com/<org>` is too short to change |
| Hatchet.NormalizeSnoc | main.go:81-88 | a character other than `/` appended to a path is appended to its normalization |
| Hatchet.DotWildcardMatchesAll | main.go:75-78 | `./...` matches every package |
| Hatchet.WildcardMatch | main.go:71-108 | outside `github.com/`, `prefix/...` matches exactly when the import path starts with `prefix` as a string, or the directory without its leading `/` contains `/prefix` |
| Hatchet.GithubWildcardIgnoresOrganisation | main.go:90-97 | `github.com/<org>/<rest>/...` matches every `github.com` import path under any organisation that continues `rest` |
| Hatchet.WildcardCrossesSegmentBoundary | main.go:90-97 | for any prefix other than `.`, one or several segments long and `github.com` ones included, `prefix/...` matches the package `prefix` followed by any non-`/` character in its own directory, which the `pkglist` matcher rejects |
| Hatchet.PlainMatch | main.go:111-135 | outside `github.com/`, a plain pattern matches exactly when it is the import path, or the directory without its leading `/` ends in `/pattern` |
| Hatchet.PlainMatchIgnoresOrganisation | main.go:119-125 | a plain `github.com/<org>/<rest>` matches `github.com/<other>/<rest>` |
| Hatchet.PlainMatchByDirectory | main.go:127-132 | a plain pattern matches every package in a directory `parent/<normalized pattern>` for an absolute `parent`, whatever its import path |
| Hatchet.PlainMatchMissesTopDirectory | main.go:127-132 | for every plain pattern and every package in a directory `/x` one level below the root, the directory test fails, so the pattern matches exactly when the normalized import paths are equal |
| Hatchet.CleanPatternOfPadded | main.go:154-158 | white space around a pattern and one trailing `/` are removed |
| Hatchet.CleanPatternRemovesOneSlash | main.go:157 | only one trailing `/` is removed, so the cleanup is not idempotent |
| Hatchet.PreparePatterns | main.go:147-158 | one pattern per comma-separated piece, at least one, each cleaned up |
| Hatchet.FindPackagesInRepo | main.go:26-60 | a failed `go list` and a malformed value are errors that discard everything. Otherwise every record is stored under its import path, later ones winning |
| Hatchet.SelectPackages | main.go:177-186 | exactly the import paths of the packages some pattern matches |
| Hatchet.DotWildcardSelectsAll | main.go:75-78 | with `./...` among the patterns every package is selected |
| Hatchet.AddDependencies | main.go:189-206 | the keep set grows to exactly its dependency closure |
| Hatchet.AppendOtherFiles | main.go:227-237 | with tests, both branches append every other file, in order |
| Hatchet.AppendKeptPackage | main.go:211-254 | one kept package appends exactly its projection |
| Hatchet.ProjectFiles | main.go:209-256 | a file is listed exactly when it is in the projection of a kept package of the repository |
| Hatchet.MainOptionsConfigure | main.go:263-268 | the cleaner gets the four flags unchanged and `go mod tidy` off |
| Hatchet.PlanKeep | main.go:147-256 | an empty source directory stops the run, and so does a failed listing. Otherwise: the cleaned patterns, the listed packages, exactly the selected identities, their closure, and exactly the files of the closure's projection |
| Hatchet.Run | main.go:147-271 | the plan is the one `PlanKeep` promises, and a run reports it unless the clean fails. A run stopped before the cleaner changes nothing. A dry run changes nothing. No run removes a file of the plan, not even one whose clean fails part way, and none removes a file or a directory outside the source directory or inside a protected `.git`, nor the source directory itself |

## Left out

- Running the `go list` command and decoding its JSON. A run is represented by its outcome: the command failed, or it produced a sequence of records and possibly a malformed value after them (`GoPackages.ListOutput`). The commander interface of `pkg/pkglist/interfaces.go` is not part of this model.
- Logging (`log.Printf`) and the `flag` parsing of `main.go`. The flags are parameters of `Hatchet.PlanKeep` and `Hatchet.Run`.
- `os.Getwd`/`os.Chdir` and `filepath.Abs`. Paths are taken to be absolute and clean, and the source directory is not the filesystem root `/`, so `Abs`, `ToSlash` and `filepath.Join` are the identity and `dir + "/" + name`. For the root itself `filepath.Join("/", "a")` is `/a`, which the model would write `//a`. The fatal error of a failing `Abs` is therefore not modelled.
- `log.Fatalf` ends the process. In the model it is an `Aborted` result.
- The `go mod tidy` steps. The source's `Clean` runs one when `runGoModTidy` is set and it is not a dry run, and returns its failure as an error (`pkg/cleaner/cleaner.go:153-161`). `Cleaner.Cleaner.Clean` leaves out that step and that error. `main.go` never sets the option (lines 263-268, `Hatchet.MainOptionsConfigure`), and runs its own tidy after the clean (lines 273-294) with errors only logged. External command execution is not modelled.
- The usage branch of `main.go` (lines 148-151) never runs, because `strings.Split` returns at least one piece (`GoStrings.Split`). `Hatchet.PreparePatterns` omits it.
- The operating system's filesystem and afero. `MemFs.FileSystem` stands in for both. Faults are two fixed sets: directories whose listing fails and entries whose removal fails. Which error the OS would give is not modelled beyond not-exist, permission denied and directory-not-empty.
- The order of Go map iteration, of `afero.Walk` and of `ReadDir`. The model picks an arbitrary order, and contracts speak of sets or of "each once", not of order.
- The multiplicity of a file in the file list when two kept packages list it: contracts are stated on membership.
- `Cleaner.Cleaner.RemoveIfEmpty`: the second `ReadDir` of `removeEmptyDirs` cannot fail in the model, because the unreadable set is fixed and the directory was just listed. Its error path is therefore not reachable here.
- The `keepTests` flag is stored by `WithTestKeeping` and never consulted by the cleaner, as in the source.
- The `Finder.fs` field, which `pkglist.go` never uses, and the embed analyzer of `pkg/analyzer`, which supplies `EmbedFiles`.
- `XTestGoFiles` and other `go list` fields that neither record type declares.
