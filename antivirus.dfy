/**
  The scanning engine of the antivirus module: the two signature-database
  lookups, the SHA-256 hasher, the active directory scan, and the
  dispatcher that routes a command-line mode tag to one of them.

  Everything the engine reaches outside this file is a field of an
  `Environment`: the database searches, the file digester, the directory
  tree found at a path, the entropy scanner, and the argument helpers.
 */
module Antivirus {
  import opened Outcomes
  import opened Enumeration

  /** What a search of the signature database gives: the matching lines, or the displayed error. */
  type SearchResult = Result<seq<string>, string>

  /** The collaborators of the engine, as functions of their inputs. */
  datatype Environment = Environment(
    // search_csv over the configured signature database: search term to matching rows
    searchCsv: string -> SearchResult,
    // find_all_matching_lines over the same database: pattern to matching lines
    findAllMatchingLines: string -> SearchResult,
    // sha256::try_digest: file path to its hex digest, or the I/O error
    tryDigest: string -> Result<string, IoError>,
    // the finite, acyclic tree that fs::read_dir finds below a directory path
    tree: string -> Listing,
    // advanced_entropy_scanner(path, debug)
    entropyScanner: (string, bool) -> bool,
    // take_system_args(arguments, flag)
    takeSystemArgs: (seq<string>, string) -> string,
    // take_system_args_debug(value of --debug)
    takeSystemArgsDebug: string -> bool)

  /** The fixed file the active scan hashes, whatever entry it found. */
  const YesBinary: string := "/bin/yes"

  // ---------------------------------------------------------------------
  // Verdicts of the two database lookups.

  /** `search_malware_hash`: flags malware exactly when the search succeeds with at least one row. */
  function SearchMalwareHash(env: Environment, searchTerm: string): (found: bool)
    ensures found <==> env.searchCsv(searchTerm).Ok? && |env.searchCsv(searchTerm).value| > 0
  {
    match env.searchCsv(searchTerm)
    case Ok(matches) => if matches != [] then true else false
    case Err(_) => false
  }

  /** `search_malware_pattern`: true whenever the search succeeds, even when no line matched. */
  function SearchMalwarePattern(env: Environment, pattern: string): (found: bool)
    ensures found <==> env.findAllMatchingLines(pattern).Ok?
    ensures env.findAllMatchingLines(pattern) == Ok([]) ==> found
  {
    match env.findAllMatchingLines(pattern)
    case Ok(result) => if result != [] then true else true
    case Err(_) => false
  }

  /** The three outcomes a database search can have. */
  datatype Finding = Flagged(lines: seq<string>) | Clean | SearchFailed(message: string)

  /** Reads a search result as a finding: matches flag, no match is clean, an error is a failure. */
  function Classify(r: SearchResult): (f: Finding)
    ensures f.Flagged? ==> r == Ok(f.lines) && f.lines != []
    ensures f.Clean? <==> r == Ok([])
    ensures f.SearchFailed? <==> r.Err?
  {
    match r
    case Ok(lines) => if lines == [] then Clean else Flagged(lines)
    case Err(message) => SearchFailed(message)
  }

  /** The hash lookup reports exactly the flagged findings. */
  lemma HashVerdictIsFlagged(env: Environment, searchTerm: string)
    ensures SearchMalwareHash(env, searchTerm) <==> Classify(env.searchCsv(searchTerm)).Flagged?
  {
  }

  /** The pattern lookup reports every finding that is not a failure, the clean one included. */
  lemma PatternVerdictIsNotFailed(env: Environment, pattern: string)
    ensures SearchMalwarePattern(env, pattern) <==> !Classify(env.findAllMatchingLines(pattern)).SearchFailed?
  {
  }

  /**
    Given the same search result, the two lookups disagree exactly when the
    search succeeded with no match: then the hash lookup says false and the
    pattern lookup says true.
   */
  lemma VerdictsDisagreeOnlyWhenClean(env: Environment, term: string)
    requires env.searchCsv(term) == env.findAllMatchingLines(term)
    ensures SearchMalwareHash(env, term) ==> SearchMalwarePattern(env, term)
    ensures SearchMalwareHash(env, term) != SearchMalwarePattern(env, term)
        <==> Classify(env.searchCsv(term)).Clean?
  {
  }

  // ---------------------------------------------------------------------
  // Hashing.

  /**
    `calculate_sha256_hash`: the digest of the file at `filePath`. It never
    returns an error: when the file cannot be digested, the `unwrap` panics.
   */
  function CalculateSha256Hash(env: Environment, filePath: string): (r: Run<Result<string, IoError>>)
    ensures r.Panic? <==> env.tryDigest(filePath).Err?
    ensures r.Done? ==> r.value.Ok? && r.value.value == env.tryDigest(filePath).value
  {
    match env.tryDigest(filePath)
    case Ok(hash) => Done(Ok(hash))
    case Err(_) => Panic
  }

  // ---------------------------------------------------------------------
  // Active scan.

  /**
    The verdict of the active scan once the directory has been enumerated:
    false when enumeration failed, true when it found nothing, and
    otherwise the pattern lookup of the digest of `/bin/yes`, taken on the
    first entry without looking at it.
   */
  function ScanVerdict(env: Environment, enumeration: Result<seq<FsPath>, IoError>): Run<bool>
  {
    match enumeration
    case Err(_) => Done(false)
    case Ok(items) =>
      if items == [] then Done(true)
      else
        match CalculateSha256Hash(env, YesBinary)
        case Panic => Panic
        case Done(Ok(hash)) => Done(SearchMalwarePattern(env, hash))
        case Done(Err(_)) => Done(false)
  }

  /** `active_malware_scanner(directory)`: the verdict for the walk of the tree at `directory`. */
  function ActiveScan(env: Environment, directory: string): Run<bool>
  {
    ScanVerdict(env, Walk(Root(directory), env.tree(directory)))
  }

  /**
    `active_malware_scanner`: lists the directory, then, in a loop that
    returns on its first iteration, hashes `/bin/yes` and looks its digest
    up as a pattern; when the list is empty the loop never runs.
   */
  method ActiveMalwareScanner(env: Environment, directory: string) returns (r: Run<bool>)
    ensures r == ActiveScan(env, directory)
  {
    var listed := ListFilesAndFolders(Root(directory), env.tree(directory));
    if listed.Err? {
      return Done(false);
    }
    var items := listed.value;
    for k := 0 to |items|
      invariant k == 0
    {
      var hashed := CalculateSha256Hash(env, YesBinary);
      if hashed.Panic? {
        return Panic;
      }
      match hashed.value {
        case Ok(hash) =>
          return Done(SearchMalwarePattern(env, hash));
        case Err(_) =>
          assert false;
      }
    }
    return Done(true);
  }

  /** Any error anywhere in the tree makes the active scan return false. */
  lemma ScanFailsOnUnreadableTree(env: Environment, directory: string)
    requires ErrorsOf(env.tree(directory)) != []
    ensures ActiveScan(env, directory) == Done(false)
  {
    WalkReportsFirstError(Root(directory), env.tree(directory));
  }

  /** A readable tree with no entries makes the active scan return true without hashing anything. */
  lemma ScanPassesEmptyTree(env: Environment, directory: string)
    requires ErrorsOf(env.tree(directory)) == []
    requires EntryCount(env.tree(directory)) == 0
    ensures ActiveScan(env, directory) == Done(true)
  {
  }

  /**
    On a readable tree with at least one entry, the active scan's outcome
    is that of hashing `/bin/yes` and looking its digest up as a pattern:
    a panic when `/bin/yes` cannot be digested, otherwise the pattern verdict.
   */
  lemma ScanChecksOnlyYesBinary(env: Environment, directory: string)
    requires ErrorsOf(env.tree(directory)) == []
    requires EntryCount(env.tree(directory)) > 0
    ensures env.tryDigest(YesBinary).Err? ==> ActiveScan(env, directory) == Panic
    ensures env.tryDigest(YesBinary).Ok? ==>
      ActiveScan(env, directory) == Done(SearchMalwarePattern(env, env.tryDigest(YesBinary).value))
  {
    WalkReportsFirstError(Root(directory), env.tree(directory));
    WalkLength(Root(directory), env.tree(directory));
  }

  /**
    The scan never inspects what it found: two directories whose trees are
    both readable and non-empty get the same outcome.
   */
  lemma ScanIgnoresEntries(env: Environment, dir1: string, dir2: string)
    requires ErrorsOf(env.tree(dir1)) == [] && EntryCount(env.tree(dir1)) > 0
    requires ErrorsOf(env.tree(dir2)) == [] && EntryCount(env.tree(dir2)) > 0
    ensures ActiveScan(env, dir1) == ActiveScan(env, dir2)
  {
    ScanChecksOnlyYesBinary(env, dir1);
    ScanChecksOnlyYesBinary(env, dir2);
  }

  // ---------------------------------------------------------------------
  // Mode dispatch.

  /** The scan modes `shell_antivirus` recognises. */
  datatype Mode = HashMode | PatternMode | ScannerMode | EntropyMode

  /** The command-line tag that selects each mode. */
  function ModeTag(m: Mode): string
  {
    match m
    case HashMode => "--hash"
    case PatternMode => "--pattern"
    case ScannerMode => "--scanner"
    case EntropyMode => "--entropy"
  }

  /** The mode a tag selects, if any. */
  function ParseMode(tag: string): (m: Option<Mode>)
    ensures m.Some? ==> ModeTag(m.value) == tag
    ensures m.None? ==> forall k :: ModeTag(k) != tag
  {
    match tag
    case "--hash" => Some(HashMode)
    case "--pattern" => Some(PatternMode)
    case "--scanner" => Some(ScannerMode)
    case "--entropy" => Some(EntropyMode)
    case _ => None
  }

  /** Every mode's tag selects that mode. */
  lemma ParseModeTag(m: Mode)
    ensures ParseMode(ModeTag(m)) == Some(m)
  {
  }

  /**
    `shell_antivirus`: reads the mode tag at index 2 of the arguments
    (panicking when there is none) and runs the selected handler on the
    value of that handler's flag; an unknown tag gives false.
   */
  function ShellAntivirus(env: Environment, systemInput: seq<string>): (r: Run<bool>)
    ensures |systemInput| < 3 ==> r == Panic
    ensures |systemInput| >= 3 && ParseMode(systemInput[2]).None? ==> r == Done(false)
    ensures |systemInput| >= 3 && systemInput[2] == "--hash" ==>
      r == Done(SearchMalwareHash(env, env.takeSystemArgs(systemInput, "--hash")))
    ensures |systemInput| >= 3 && systemInput[2] == "--pattern" ==>
      r == Done(SearchMalwarePattern(env, env.takeSystemArgs(systemInput, "--pattern")))
    ensures |systemInput| >= 3 && systemInput[2] == "--scanner" ==>
      r == ActiveScan(env, env.takeSystemArgs(systemInput, "--directory"))
    ensures |systemInput| >= 3 && systemInput[2] == "--entropy" ==>
      r == Done(env.entropyScanner(env.takeSystemArgs(systemInput, "--path"),
                                   env.takeSystemArgsDebug(env.takeSystemArgs(systemInput, "--debug"))))
  {
    if |systemInput| < 3 then Panic
    else
      match ParseMode(systemInput[2])
      case None => Done(false)
      case Some(mode) =>
        var debug := env.takeSystemArgsDebug(env.takeSystemArgs(systemInput, "--debug"));
        match mode
        case HashMode => Done(SearchMalwareHash(env, env.takeSystemArgs(systemInput, "--hash")))
        case PatternMode => Done(SearchMalwarePattern(env, env.takeSystemArgs(systemInput, "--pattern")))
        case ScannerMode => ActiveScan(env, env.takeSystemArgs(systemInput, "--directory"))
        case EntropyMode => Done(env.entropyScanner(env.takeSystemArgs(systemInput, "--path"), debug))
  }

  /** Any tag other than the four recognised ones makes the dispatcher return false. */
  lemma UnknownTagRejected(env: Environment, systemInput: seq<string>)
    requires |systemInput| >= 3
    requires systemInput[2] !in ["--hash", "--pattern", "--scanner", "--entropy"]
    ensures ShellAntivirus(env, systemInput) == Done(false)
  {
  }
}
