# Antivirus scanning engine of witch_craft, in Dafny

This project models the scanning engine of the `witch_craft` antivirus module
(`witch_craft/src/modules/antivirus/antivirus.rs`) and proves what it does:

- the two signature-database lookups, `search_malware_hash` and
  `search_malware_pattern`, which turn a search result into a verdict and
  differ on an empty match list;
- `calculate_sha256_hash`, which never returns an error and panics when the
  file cannot be digested;
- `list_files_and_folders`, a recursive, depth-first, pre-order listing of a
  directory tree that stops at the first I/O error;
- `active_malware_scanner`, whose loop returns on its first iteration after
  hashing the fixed file `/bin/yes` instead of the entry it found;
- `shell_antivirus`, which routes the mode tag at index 2 of the command line
  to one of four handlers and gives false for any other tag.

Files:

- `outcomes.dfy` (module `Outcomes`): I/O error kinds, Rust's `Result` and
  `Option`, and `Run`, which records whether a call returned or panicked.
- `enumeration.dfy` (module `Enumeration`): the directory tree (`Node`,
  `Listing`), paths (`FsPath`), the walk as a recursive function (`Walk`),
  the imperative walk `ListFilesAndFolders` proved equal to it, and the
  walk's properties.
- `antivirus.dfy` (module `Antivirus`): the `Environment` of collaborators,
  the two lookups, the hasher, the active scan (`ActiveMalwareScanner`,
  specified by `ActiveScan`) and the dispatcher `ShellAntivirus`.

How the outside world appears:

- The signature database is reached only through two functions of the
  `Environment`: `searchCsv` (term to matching rows, or an error) and
  `findAllMatchingLines` (pattern to matching lines, or an error). Both stand
  for searches of the same configured database file.
- `tryDigest` stands for `sha256::try_digest`: a path's digest or an I/O error.
- `tree(directory)` is the finite, acyclic tree that repeated
  `fs::read_dir` calls find below `directory`. The three `?` of the walk map
  to `Unlistable` (listing a directory failed), `BadEntry` (reading one entry
  failed) and the recursive call.
- A panic (`unwrap` on an error, `system_input[2]` out of bounds) is the
  outcome `Panic` of `Run`, not a precondition.

The model follows the code as written, including behaviour that looks
unintended: the pattern lookup returns true when nothing matched; the active
scan hashes `/bin/yes` once and never the entries it found; hashing panics
instead of returning an error; an unknown mode tag gives false, the same
value as a clean or failed scan.

## Model

| member | source | states |
|---|---|---|
| `Antivirus.SearchMalwareHash` | witch_craft/src/modules/antivirus/antivirus.rs:24-47 | true exactly when the database search succeeds with at least one matching row; false on no match and false on a search error |
| `Antivirus.SearchMalwarePattern` | witch_craft/src/modules/antivirus/antivirus.rs:56-78 | true exactly when the line search succeeds, in particular when it succeeds with no matching line; false only on a search error |
| `Antivirus.Classify` | witch_craft/src/modules/antivirus/antivirus.rs:24-78 | a search result is a failure exactly when it is an error, clean exactly when it is an empty match list, and flagged only with a non-empty list of the lines found |
| `Antivirus.HashVerdictIsFlagged` | witch_craft/src/modules/antivirus/antivirus.rs:24-47 | the hash lookup says true exactly for a flagged finding |
| `Antivirus.PatternVerdictIsNotFailed` | witch_craft/src/modules/antivirus/antivirus.rs:56-78 | the pattern lookup says true for every finding except a failed search, the clean one included |
| `Antivirus.VerdictsDisagreeOnlyWhenClean` | witch_craft/src/modules/antivirus/antivirus.rs:24-78 | on the same search result a hash verdict of true implies a pattern verdict of true, and the two verdicts differ exactly when the search succeeded with no match |
| `Antivirus.CalculateSha256Hash` | witch_craft/src/modules/antivirus/antivirus.rs:81-91 | never returns an error: it panics exactly when the file cannot be digested and otherwise returns the file's digest |
| `Enumeration.ListFilesAndFolders` | witch_craft/src/modules/antivirus/antivirus.rs:93-108 | the loop that pushes each entry's path and extends with its subdirectory's listing returns exactly the recursive pre-order walk `Walk` |
| `Enumeration.WalkReportsFirstError` | witch_craft/src/modules/antivirus/antivirus.rs:93-107 | the walk fails exactly when the tree holds an unlistable directory or unreadable entry anywhere, and then returns the first error in traversal order and no list |
| `Enumeration.EntriesReportFirstError` | witch_craft/src/modules/antivirus/antivirus.rs:96-105 | the same fail-fast property for the entries of one listing |
| `Enumeration.WalkLength` | witch_craft/src/modules/antivirus/antivirus.rs:93-107 | a successful walk lists as many paths as the tree has files and subdirectories |
| `Enumeration.EntriesLength` | witch_craft/src/modules/antivirus/antivirus.rs:96-105 | the same count for the entries of one listing |
| `Enumeration.WalkListsEveryPath` | witch_craft/src/modules/antivirus/antivirus.rs:93-107 | a successful walk lists every file and subdirectory path of the tree and no other path |
| `Enumeration.EntriesListEveryPath` | witch_craft/src/modules/antivirus/antivirus.rs:96-105 | the same completeness for the entries of one listing |
| `Enumeration.WalkStaysBelow` | witch_craft/src/modules/antivirus/antivirus.rs:96-99 | every listed path lies strictly beneath the walked directory, so the root itself is never listed |
| `Enumeration.EntriesStayBelow` | witch_craft/src/modules/antivirus/antivirus.rs:96-104 | every path listed for one listing lies beneath one of that listing's readable entries |
| `Enumeration.WalkHasNoDuplicates` | witch_craft/src/modules/antivirus/antivirus.rs:96-104 | when no directory holds two entries of the same name, a successful walk lists no path twice |
| `Enumeration.EntriesHaveNoDuplicates` | witch_craft/src/modules/antivirus/antivirus.rs:96-104 | the same uniqueness for the entries of one listing |
| `Enumeration.WalkKeepsReadingOrder` | witch_craft/src/modules/antivirus/antivirus.rs:96-99 | the walked directory's own entries appear in the result in the order the listing yielded them |
| `Enumeration.WalkListsParentsFirst` | witch_craft/src/modules/antivirus/antivirus.rs:99-104 | parents first: every listed path below the first level comes after the path of the directory holding it |
| `Enumeration.EntriesListParentsFirst` | witch_craft/src/modules/antivirus/antivirus.rs:99-104 | the same parents-first property for the entries of one listing |
| `Enumeration.WalkListsSubtreesContiguously` | witch_craft/src/modules/antivirus/antivirus.rs:99-104 | depth first: when no directory holds two entries of the same name, whatever a successful walk lists between a path and any of its descendants lies beneath that path, so each subdirectory's whole subtree follows it before any other entry; with parents first this is pre-order |
| `Enumeration.EntriesListSubtreesContiguously` | witch_craft/src/modules/antivirus/antivirus.rs:99-104 | the same depth-first property for the entries of one listing |
| `Antivirus.ActiveMalwareScanner` | witch_craft/src/modules/antivirus/antivirus.rs:110-147 | the scan with its first-iteration return gives exactly `ActiveScan`: false on a failed listing, true on an empty one, otherwise the outcome of hashing `/bin/yes` and looking the digest up as a pattern |
| `Antivirus.ScanFailsOnUnreadableTree` | witch_craft/src/modules/antivirus/antivirus.rs:115-145 | any unreadable directory or entry anywhere in the tree makes the active scan return false |
| `Antivirus.ScanPassesEmptyTree` | witch_craft/src/modules/antivirus/antivirus.rs:115-134 | a readable directory with no entries makes the active scan return true |
| `Antivirus.ScanChecksOnlyYesBinary` | witch_craft/src/modules/antivirus/antivirus.rs:117-121 | on a readable, non-empty tree the scan panics when `/bin/yes` cannot be digested and otherwise returns the pattern verdict for the digest of `/bin/yes` |
| `Antivirus.ScanIgnoresEntries` | witch_craft/src/modules/antivirus/antivirus.rs:117-120 | any two readable, non-empty trees get the same scan outcome: the entries found are never inspected |
| `Antivirus.ParseMode` | witch_craft/src/modules/antivirus/antivirus.rs:150-185 | a tag selects a mode only when it is that mode's tag, and selects none when it is no mode's tag |
| `Antivirus.ParseModeTag` | witch_craft/src/modules/antivirus/antivirus.rs:152-178 | each of `--hash`, `--pattern`, `--scanner`, `--entropy` selects its own mode |
| `Antivirus.ShellAntivirus` | witch_craft/src/modules/antivirus/antivirus.rs:149-185 | panics with fewer than three arguments; otherwise each recognised tag runs its handler on the value of that handler's flag (`--hash`, `--pattern`, `--directory`, `--path`) and any other tag gives false |
| `Antivirus.UnknownTagRejected` | witch_craft/src/modules/antivirus/antivirus.rs:180-184 | a tag other than the four recognised ones gives false |

## Left out

- Configuration loading (`read_meow` on a fixed path) and building the database path with `format!`: file I/O with a hardcoded path; the database is reached only through the `Environment`'s two search functions.
- The matching rules of `search_csv` and `find_all_matching_lines`: their source is not part of this model, so their results are arbitrary values of `Result<seq<string>, string>`.
- SHA-256 itself (`sha256::try_digest`): a foreign library, modelled as the function `tryDigest` from path to digest or error.
- Console output (`standard_messages`, `println!`) and the `debug` flags of `search_malware_hash`, `search_malware_pattern`, `calculate_sha256_hash` and `active_malware_scanner`: they only decide what is printed, never a verdict.
- `fs::read_dir` on a real filesystem: symbolic links, cycles and changes during the walk are not modelled; the tree is finite and acyclic, and `is_dir` is the choice between `File` and `Dir`.
- `path.to_str().unwrap()` in `list_files_and_folders`: a path that is not valid UTF-8 would panic there; the model recurses on the path itself and has no such panic.
- `advanced_entropy_scanner`, `take_system_args` and `take_system_args_debug`: their source is not part of this model, so they are opaque functions of the `Environment`; any change `take_system_args` might make to the argument vector is not modelled.
- Enumeration.WalkKeepsReadingOrder: states reading order for the entries of the walked directory itself; for a nested directory it follows from applying the lemma to that directory's own walk, which the result contains as one contiguous run.
- Enumeration.WalkListsSubtreesContiguously: assumes, like WalkHasNoDuplicates, that no directory lists two entries with the same name; with repeated names a later entry's subtree could sit under an earlier path.
- Enumeration.WalkHasNoDuplicates: assumes that no directory lists two entries with the same name, as a real filesystem guarantees; the tree datatype itself does not enforce it.
