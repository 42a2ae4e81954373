/**
  The recursive file enumerator `list_files_and_folders`: a depth-first,
  pre-order listing of every entry beneath a directory that stops at the
  first I/O error.

  The filesystem below the directory is a finite tree. The walk can fail
  at three places, one per `?` in the source: listing a directory
  (`fs::read_dir`), reading one entry of a listing, and the recursive call
  on a subdirectory.
 */
module Enumeration {
  import opened Outcomes

  /**
    A `PathBuf` built by the walk: the directory string it was started
    on, followed by the file names appended below it.
   */
  datatype FsPath = FsPath(base: string, names: seq<string>)

  /** `entry.path()`: the directory's path with the entry's file name appended. */
  function Join(dir: FsPath, name: string): FsPath
  {
    FsPath(dir.base, dir.names + [name])
  }

  /** The path at which a walk of `directory` starts. */
  function Root(directory: string): FsPath
  {
    FsPath(directory, [])
  }

  /** One item produced by iterating a directory listing. */
  datatype Node =
    | File(name: string)                   // an entry for which `is_dir()` is false
    | Dir(name: string, listing: Listing)  // an entry for which `is_dir()` is true
    | BadEntry(error: IoError)             // the listing's iterator yielded an error

  /** What `fs::read_dir` gives for a directory: its entries in reading order, or an error. */
  datatype Listing = Listed(entries: seq<Node>) | Unlistable(error: IoError)

  /** Prepends `items` to a successful result; an error passes through with no list. */
  function Prepend(items: seq<FsPath>, r: Result<seq<FsPath>, IoError>): Result<seq<FsPath>, IoError>
  {
    match r
    case Ok(rest) => Ok(items + rest)
    case Err(e) => Err(e)
  }

  lemma PrependNothing(r: Result<seq<FsPath>, IoError>)
    ensures Prepend([], r) == r
  {
    if r.Ok? {
      assert [] + r.value == r.value;
    }
  }

  lemma PrependPrepend(a: seq<FsPath>, b: seq<FsPath>, r: Result<seq<FsPath>, IoError>)
    ensures Prepend(a, Prepend(b, r)) == Prepend(a + b, r)
  {
    if r.Ok? {
      assert a + (b + r.value) == a + b + r.value;
    }
  }

  /** The walk of the directory at `dir` whose listing is `l`, as a recursive function. */
  function Walk(dir: FsPath, l: Listing): Result<seq<FsPath>, IoError>
    decreases l
  {
    match l
    case Unlistable(e) => Err(e)
    case Listed(es) => WalkEntries(dir, es)
  }

  /**
    The walk of the listing `es` of `dir`: each entry's path, then (for a
    directory) everything below it, then the remaining entries.
   */
  function WalkEntries(dir: FsPath, es: seq<Node>): Result<seq<FsPath>, IoError>
    decreases es
  {
    if es == [] then Ok([])
    else
      match es[0]
      case BadEntry(e) => Err(e)
      case File(n) => Prepend([Join(dir, n)], WalkEntries(dir, es[1..]))
      case Dir(n, sub) =>
        match Walk(Join(dir, n), sub)
        case Err(e) => Err(e)
        case Ok(below) => Prepend([Join(dir, n)] + below, WalkEntries(dir, es[1..]))
  }

  /**
    `list_files_and_folders`: grows a vector of paths entry by entry,
    recursing into each subdirectory right after pushing its path, and
    returns the first error it meets.
   */
  method ListFilesAndFolders(dir: FsPath, l: Listing) returns (r: Result<seq<FsPath>, IoError>)
    ensures r == Walk(dir, l)
    decreases l
  {
    if l.Unlistable? {
      return Err(l.error);
    }
    var es := l.entries;
    var items: seq<FsPath> := [];
    var i := 0;
    PrependNothing(WalkEntries(dir, es));
    while i < |es|
      invariant 0 <= i <= |es|
      invariant Prepend(items, WalkEntries(dir, es[i..])) == WalkEntries(dir, es)
    {
      assert es[i..][0] == es[i] && es[i..][1..] == es[i + 1..];
      ghost var restWalk := WalkEntries(dir, es[i + 1..]);
      match es[i] {
        case BadEntry(e) =>
          return Err(e);
        case File(n) =>
          assert WalkEntries(dir, es[i..]) == Prepend([Join(dir, n)], restWalk);
          PrependPrepend(items, [Join(dir, n)], restWalk);
          items := items + [Join(dir, n)];
        case Dir(n, sub) =>
          var subItems := ListFilesAndFolders(Join(dir, n), sub);
          if subItems.Err? {
            return Err(subItems.error);
          }
          assert WalkEntries(dir, es[i..]) == Prepend([Join(dir, n)] + subItems.value, restWalk);
          PrependPrepend(items, [Join(dir, n)] + subItems.value, restWalk);
          items := items + ([Join(dir, n)] + subItems.value);
      }
      i := i + 1;
    }
    assert items + [] == items;
    return Ok(items);
  }

  // ---------------------------------------------------------------------
  // Reference definitions over the tree, independent of the walk.

  /** Every error in the tree, in the order a pre-order traversal meets them. */
  function ErrorsOf(l: Listing): seq<IoError>
    decreases l
  {
    match l
    case Unlistable(e) => [e]
    case Listed(es) => EntriesErrors(es)
  }

  function EntriesErrors(es: seq<Node>): seq<IoError>
    decreases es
  {
    if es == [] then []
    else
      var here := match es[0]
        case BadEntry(e) => [e]
        case File(_) => []
        case Dir(_, sub) => ErrorsOf(sub);
      here + EntriesErrors(es[1..])
  }

  /** The number of files and subdirectories anywhere in the tree (the root not included). */
  function EntryCount(l: Listing): nat
    decreases l
  {
    match l
    case Unlistable(_) => 0
    case Listed(es) => EntriesCount(es)
  }

  function EntriesCount(es: seq<Node>): nat
    decreases es
  {
    if es == [] then 0
    else
      var here := match es[0]
        case BadEntry(_) => 0
        case File(_) => 1
        case Dir(_, sub) => 1 + EntryCount(sub);
      here + EntriesCount(es[1..])
  }

  /** The paths of all files and subdirectories in the tree below `dir`. */
  function TreePaths(dir: FsPath, l: Listing): set<FsPath>
    decreases l
  {
    match l
    case Unlistable(_) => {}
    case Listed(es) => EntriesTreePaths(dir, es)
  }

  function EntriesTreePaths(dir: FsPath, es: seq<Node>): set<FsPath>
    decreases es
  {
    if es == [] then {}
    else
      var here := match es[0]
        case BadEntry(_) => {}
        case File(n) => {Join(dir, n)}
        case Dir(n, sub) => {Join(dir, n)} + TreePaths(Join(dir, n), sub);
      here + EntriesTreePaths(dir, es[1..])
  }

  /** The file names of the readable entries of one listing. */
  function Names(es: seq<Node>): set<string>
  {
    if es == [] then {}
    else (if es[0].BadEntry? then {} else {es[0].name}) + Names(es[1..])
  }

  /** The paths of the readable entries of one listing, in reading order. */
  function EntryPaths(dir: FsPath, es: seq<Node>): seq<FsPath>
  {
    if es == [] then []
    else (if es[0].BadEntry? then [] else [Join(dir, es[0].name)]) + EntryPaths(dir, es[1..])
  }

  /** No two readable entries of one directory share a file name, at any depth. */
  predicate WellNamed(l: Listing)
    decreases l
  {
    match l
    case Unlistable(_) => true
    case Listed(es) => EntriesWellNamed(es)
  }

  predicate EntriesWellNamed(es: seq<Node>)
    decreases es
  {
    es == [] ||
    ((!es[0].BadEntry? ==> es[0].name !in Names(es[1..])) &&
     (es[0].Dir? ==> WellNamed(es[0].listing)) &&
     EntriesWellNamed(es[1..]))
  }

  /** `p` lies strictly beneath `dir`. */
  predicate StrictlyBelow(dir: FsPath, p: FsPath)
  {
    p.base == dir.base && |dir.names| < |p.names| && p.names[..|dir.names|] == dir.names
  }

  /** `p` is an entry of the directory `dir` itself. */
  predicate DirectlyIn(dir: FsPath, p: FsPath)
  {
    StrictlyBelow(dir, p) && |p.names| == |dir.names| + 1
  }

  /** The paths of `ps` that are entries of `dir` itself, in their order in `ps`. */
  function Children(dir: FsPath, ps: seq<FsPath>): seq<FsPath>
  {
    if ps == [] then []
    else (if DirectlyIn(dir, ps[0]) then [ps[0]] else []) + Children(dir, ps[1..])
  }

  /** The directory that holds `p`. */
  function Parent(p: FsPath): FsPath
    requires |p.names| > 0
  {
    FsPath(p.base, p.names[..|p.names| - 1])
  }

  /** Pre-order: every path deeper than the entries of `dir` comes after its parent directory. */
  predicate ParentsFirst(dir: FsPath, ps: seq<FsPath>)
  {
    forall j | 0 <= j < |ps| && |ps[j].names| > |dir.names| + 1 :: Parent(ps[j]) in ps[..j]
  }

  /**
    Depth-first: whatever lies between a path and one of its descendants
    in `ps` lies beneath that path too, so each directory's subtree is one
    unbroken run right after the directory.
   */
  predicate SubtreesContiguous(ps: seq<FsPath>)
  {
    forall i, m, j | 0 <= i < m < j < |ps| && StrictlyBelow(ps[i], ps[j]) :: StrictlyBelow(ps[i], ps[m])
  }

  predicate NoDuplicates(ps: seq<FsPath>)
  {
    forall i, j | 0 <= i < j < |ps| :: ps[i] != ps[j]
  }

  // ---------------------------------------------------------------------
  // Properties of the walk.

  /**
    Fail fast: the walk fails exactly when the tree holds an error, and
    then it reports the first error in traversal order and no list.
   */
  lemma {:induction false} WalkReportsFirstError(dir: FsPath, l: Listing)
    ensures Walk(dir, l).Err? <==> ErrorsOf(l) != []
    ensures Walk(dir, l).Err? ==> Walk(dir, l).error == ErrorsOf(l)[0]
    decreases l
  {
    match l
    case Unlistable(_) =>
    case Listed(es) => EntriesReportFirstError(dir, es);
  }

  lemma {:induction false} EntriesReportFirstError(dir: FsPath, es: seq<Node>)
    ensures WalkEntries(dir, es).Err? <==> EntriesErrors(es) != []
    ensures WalkEntries(dir, es).Err? ==> WalkEntries(dir, es).error == EntriesErrors(es)[0]
    decreases es
  {
    if es != [] {
      EntriesReportFirstError(dir, es[1..]);
      match es[0]
      case BadEntry(_) =>
      case File(_) =>
      case Dir(n, sub) => WalkReportsFirstError(Join(dir, n), sub);
    }
  }

  /** A successful walk lists as many paths as the tree has files and subdirectories. */
  lemma {:induction false} WalkLength(dir: FsPath, l: Listing)
    requires Walk(dir, l).Ok?
    ensures |Walk(dir, l).value| == EntryCount(l)
    decreases l
  {
    match l
    case Listed(es) => EntriesLength(dir, es);
  }

  lemma {:induction false} EntriesLength(dir: FsPath, es: seq<Node>)
    requires WalkEntries(dir, es).Ok?
    ensures |WalkEntries(dir, es).value| == EntriesCount(es)
    decreases es
  {
    if es != [] {
      EntriesLength(dir, es[1..]);
      match es[0]
      case File(_) =>
      case Dir(n, sub) => WalkLength(Join(dir, n), sub);
    }
  }

  /** A successful walk lists every path of the tree and nothing else. */
  lemma {:induction false} WalkListsEveryPath(dir: FsPath, l: Listing)
    requires Walk(dir, l).Ok?
    ensures forall p :: p in Walk(dir, l).value <==> p in TreePaths(dir, l)
    decreases l
  {
    match l
    case Listed(es) => EntriesListEveryPath(dir, es);
  }

  lemma {:induction false} EntriesListEveryPath(dir: FsPath, es: seq<Node>)
    requires WalkEntries(dir, es).Ok?
    ensures forall p :: p in WalkEntries(dir, es).value <==> p in EntriesTreePaths(dir, es)
    decreases es
  {
    if es != [] {
      EntriesListEveryPath(dir, es[1..]);
      match es[0]
      case File(n) =>
      case Dir(n, sub) => WalkListsEveryPath(Join(dir, n), sub);
    }
  }

  /** Every path a successful walk lists lies strictly beneath the directory walked: the root itself is never listed. */
  lemma {:induction false} WalkStaysBelow(dir: FsPath, l: Listing)
    requires Walk(dir, l).Ok?
    ensures forall p | p in Walk(dir, l).value :: StrictlyBelow(dir, p)
    ensures dir !in Walk(dir, l).value
    decreases l
  {
    match l
    case Listed(es) => EntriesStayBelow(dir, es);
  }

  /** Every path listed for `es` lies beneath `dir` through one of the readable entries of `es`. */
  lemma {:induction false} EntriesStayBelow(dir: FsPath, es: seq<Node>)
    requires WalkEntries(dir, es).Ok?
    ensures forall p | p in WalkEntries(dir, es).value ::
      StrictlyBelow(dir, p) && p.names[|dir.names|] in Names(es)
    decreases es
  {
    if es != [] {
      EntriesStayBelow(dir, es[1..]);
      match es[0]
      case File(n) =>
      case Dir(n, sub) =>
        var child := Join(dir, n);
        WalkStaysBelow(child, sub);
        forall p | p in Walk(child, sub).value
          ensures StrictlyBelow(dir, p) && p.names[|dir.names|] == n
        {
          assert p.names[..|child.names|][..|dir.names|] == p.names[..|dir.names|];
          assert p.names[..|child.names|][|dir.names|] == p.names[|dir.names|];
        }
    }
  }

  lemma NoDuplicatesAppend(a: seq<FsPath>, b: seq<FsPath>)
    requires NoDuplicates(a) && NoDuplicates(b)
    requires forall p | p in a :: p !in b
    ensures NoDuplicates(a + b)
  {
    forall i, j | 0 <= i < j < |a + b|
      ensures (a + b)[i] != (a + b)[j]
    {
      if j >= |a| && i < |a| {
        assert (a + b)[i] in a && (a + b)[j] in b;
      }
    }
  }

  /** In a tree whose directories hold no two entries of the same name, a successful walk lists no path twice. */
  lemma {:induction false} WalkHasNoDuplicates(dir: FsPath, l: Listing)
    requires WellNamed(l)
    requires Walk(dir, l).Ok?
    ensures NoDuplicates(Walk(dir, l).value)
    decreases l
  {
    match l
    case Listed(es) => EntriesHaveNoDuplicates(dir, es);
  }

  lemma {:induction false} EntriesHaveNoDuplicates(dir: FsPath, es: seq<Node>)
    requires EntriesWellNamed(es)
    requires WalkEntries(dir, es).Ok?
    ensures NoDuplicates(WalkEntries(dir, es).value)
    decreases es
  {
    if es != [] {
      var rest := WalkEntries(dir, es[1..]).value;
      EntriesHaveNoDuplicates(dir, es[1..]);
      EntriesStayBelow(dir, es[1..]);
      match es[0]
      case File(n) =>
        var here := [Join(dir, n)];
        assert Join(dir, n).names[|dir.names|] == n;
        NoDuplicatesAppend(here, rest);
      case Dir(n, sub) =>
        var child := Join(dir, n);
        var below := Walk(child, sub).value;
        WalkHasNoDuplicates(child, sub);
        WalkStaysBelow(child, sub);
        NoDuplicatesAppend([child], below);
        forall p | p in [child] + below
          ensures p.names[|dir.names|] == n
        {
          if p in below {
            assert p.names[..|child.names|][|dir.names|] == p.names[|dir.names|];
          }
        }
        NoDuplicatesAppend([child] + below, rest);
        assert WalkEntries(dir, es).value == [child] + below + rest;
    }
  }

  lemma ChildrenAppend(dir: FsPath, a: seq<FsPath>, b: seq<FsPath>)
    ensures Children(dir, a + b) == Children(dir, a) + Children(dir, b)
  {
    if a == [] {
      assert a + b == b;
    } else {
      assert (a + b)[0] == a[0] && (a + b)[1..] == a[1..] + b;
      ChildrenAppend(dir, a[1..], b);
    }
  }

  lemma ChildrenOfDeeper(dir: FsPath, ps: seq<FsPath>)
    requires forall p | p in ps :: |p.names| > |dir.names| + 1
    ensures Children(dir, ps) == []
  {
    if ps != [] {
      ChildrenOfDeeper(dir, ps[1..]);
    }
  }

  /**
    Sibling order: the entries of the walked directory itself appear in
    the walk's result in the order the listing yielded them.
   */
  lemma {:induction false} WalkKeepsReadingOrder(dir: FsPath, es: seq<Node>)
    requires WalkEntries(dir, es).Ok?
    ensures Children(dir, WalkEntries(dir, es).value) == EntryPaths(dir, es)
    decreases es
  {
    if es != [] {
      var rest := WalkEntries(dir, es[1..]).value;
      WalkKeepsReadingOrder(dir, es[1..]);
      var child := Join(dir, es[0].name);
      assert DirectlyIn(dir, child);
      assert Children(dir, [child]) == [child];
      match es[0]
      case File(n) =>
        ChildrenAppend(dir, [child], rest);
      case Dir(n, sub) =>
        var below := Walk(child, sub).value;
        WalkStaysBelow(child, sub);
        ChildrenOfDeeper(dir, below);
        ChildrenAppend(dir, [child], below);
        ChildrenAppend(dir, [child] + below, rest);
        assert WalkEntries(dir, es).value == [child] + below + rest;
    }
  }

  /** Pre-order: in a successful walk every listed path comes after the directory that holds it. */
  lemma {:induction false} WalkListsParentsFirst(dir: FsPath, l: Listing)
    requires Walk(dir, l).Ok?
    ensures ParentsFirst(dir, Walk(dir, l).value)
    decreases l
  {
    match l
    case Listed(es) => EntriesListParentsFirst(dir, es);
  }

  lemma ParentsFirstAppend(dir: FsPath, a: seq<FsPath>, b: seq<FsPath>)
    requires ParentsFirst(dir, a) && ParentsFirst(dir, b)
    ensures ParentsFirst(dir, a + b)
  {
    var ps := a + b;
    forall j | 0 <= j < |ps| && |ps[j].names| > |dir.names| + 1
      ensures Parent(ps[j]) in ps[..j]
    {
      if j < |a| {
        assert ps[j] == a[j] && ps[..j] == a[..j];
      } else {
        var k := j - |a|;
        assert ps[j] == b[k] && ps[..j] == a + b[..k];
      }
    }
  }

  /** The parent of an entry of `dir` is `dir`. */
  lemma ParentOfDirectEntry(dir: FsPath, q: FsPath)
    requires DirectlyIn(dir, q)
    ensures Parent(q) == dir
  {
    assert q.names[..|q.names| - 1] == q.names[..|dir.names|];
  }

  /** A subdirectory's path followed by a parents-first walk beneath it is itself parents-first. */
  lemma ParentsFirstBelowChild(dir: FsPath, n: string, below: seq<FsPath>)
    requires ParentsFirst(Join(dir, n), below)
    requires forall p | p in below :: StrictlyBelow(Join(dir, n), p)
    ensures ParentsFirst(dir, [Join(dir, n)] + below)
  {
    var child := Join(dir, n);
    var ps := [child] + below;
    forall j | 0 <= j < |ps| && |ps[j].names| > |dir.names| + 1
      ensures Parent(ps[j]) in ps[..j]
    {
      var q := below[j - 1];
      assert ps[j] == q && q in below;
      assert ps[..j] == [child] + below[..j - 1];
      if |q.names| == |child.names| + 1 {
        ParentOfDirectEntry(child, q);
      }
    }
  }

  lemma {:induction false} EntriesListParentsFirst(dir: FsPath, es: seq<Node>)
    requires WalkEntries(dir, es).Ok?
    ensures ParentsFirst(dir, WalkEntries(dir, es).value)
    decreases es
  {
    if es != [] {
      var rest := WalkEntries(dir, es[1..]).value;
      EntriesListParentsFirst(dir, es[1..]);
      var child := Join(dir, es[0].name);
      match es[0]
      case File(n) =>
        ParentsFirstAppend(dir, [child], rest);
      case Dir(n, sub) =>
        var below := Walk(child, sub).value;
        WalkListsParentsFirst(child, sub);
        WalkStaysBelow(child, sub);
        ParentsFirstBelowChild(dir, n, below);
        ParentsFirstAppend(dir, [child] + below, rest);
    }
  }

  lemma SubtreesContiguousAppend(a: seq<FsPath>, b: seq<FsPath>)
    requires SubtreesContiguous(a) && SubtreesContiguous(b)
    requires forall p, q | p in a && q in b :: !StrictlyBelow(p, q)
    ensures SubtreesContiguous(a + b)
  {
    var ps := a + b;
    forall i, j | 0 <= i < |a| <= j < |ps|
      ensures !StrictlyBelow(ps[i], ps[j])
    {
      assert ps[i] in a && ps[j] in b;
    }
    forall i, m, j | 0 <= i < m < j < |ps| && StrictlyBelow(ps[i], ps[j])
      ensures StrictlyBelow(ps[i], ps[m])
    {
      if j < |a| {
        assert ps[i] == a[i] && ps[m] == a[m] && ps[j] == a[j];
      } else {
        assert ps[i] == b[i - |a|] && ps[m] == b[m - |a|] && ps[j] == b[j - |a|];
      }
    }
  }

  /** Every path beneath the entry `n` of `dir` lies beneath `dir` and starts, after `dir`, with `n`. */
  lemma HeadsOfSubtree(dir: FsPath, n: string, below: seq<FsPath>)
    requires forall p | p in below :: StrictlyBelow(Join(dir, n), p)
    ensures forall p | p in [Join(dir, n)] + below :: StrictlyBelow(dir, p) && p.names[|dir.names|] == n
  {
    forall p | p in below
      ensures StrictlyBelow(dir, p) && p.names[|dir.names|] == n
    {
      assert p.names[..|dir.names| + 1][..|dir.names|] == p.names[..|dir.names|];
      assert p.names[..|dir.names| + 1][|dir.names|] == p.names[|dir.names|];
    }
  }

  /** Paths beneath `dir` that start with different names after `dir` are never beneath one another. */
  lemma DifferentHeadsNotBelow(dir: FsPath, n: string, a: seq<FsPath>, names: set<string>, b: seq<FsPath>)
    requires n !in names
    requires forall p | p in a :: StrictlyBelow(dir, p) && p.names[|dir.names|] == n
    requires forall q | q in b :: StrictlyBelow(dir, q) && q.names[|dir.names|] in names
    ensures forall p, q | p in a && q in b :: !StrictlyBelow(p, q)
  {
  }

  /** A subdirectory's path followed by a depth-first walk beneath it keeps every subtree contiguous. */
  lemma SubtreesContiguousBelowChild(child: FsPath, below: seq<FsPath>)
    requires SubtreesContiguous(below)
    requires forall p | p in below :: StrictlyBelow(child, p)
    ensures SubtreesContiguous([child] + below)
  {
    var ps := [child] + below;
    forall i, m, j | 0 <= i < m < j < |ps| && StrictlyBelow(ps[i], ps[j])
      ensures StrictlyBelow(ps[i], ps[m])
    {
      if i == 0 {
        assert ps[m] == below[m - 1] && below[m - 1] in below;
      } else {
        assert ps[i] == below[i - 1] && ps[m] == below[m - 1] && ps[j] == below[j - 1];
      }
    }
  }

  /**
    Depth-first: in a tree whose directories hold no two entries of the
    same name, a successful walk lists each subdirectory's whole subtree
    right after the subdirectory, before any other entry.
   */
  lemma {:induction false} WalkListsSubtreesContiguously(dir: FsPath, l: Listing)
    requires WellNamed(l)
    requires Walk(dir, l).Ok?
    ensures SubtreesContiguous(Walk(dir, l).value)
    decreases l
  {
    match l
    case Listed(es) => EntriesListSubtreesContiguously(dir, es);
  }

  lemma {:induction false} EntriesListSubtreesContiguously(dir: FsPath, es: seq<Node>)
    requires EntriesWellNamed(es)
    requires WalkEntries(dir, es).Ok?
    ensures SubtreesContiguous(WalkEntries(dir, es).value)
    decreases es
  {
    if es != [] {
      var rest := WalkEntries(dir, es[1..]).value;
      EntriesListSubtreesContiguously(dir, es[1..]);
      EntriesStayBelow(dir, es[1..]);
      match es[0]
      case File(n) =>
        SubtreesContiguousBelowChild(Join(dir, n), []);
        HeadsOfSubtree(dir, n, []);
        DifferentHeadsNotBelow(dir, n, [Join(dir, n)], Names(es[1..]), rest);
        SubtreesContiguousAppend([Join(dir, n)], rest);
      case Dir(n, sub) =>
        var child := Join(dir, n);
        var below := Walk(child, sub).value;
        WalkListsSubtreesContiguously(child, sub);
        WalkStaysBelow(child, sub);
        SubtreesContiguousBelowChild(child, below);
        HeadsOfSubtree(dir, n, below);
        DifferentHeadsNotBelow(dir, n, [child] + below, Names(es[1..]), rest);
        SubtreesContiguousAppend([child] + below, rest);
        assert WalkEntries(dir, es).value == [child] + below + rest;
    }
  }
}
