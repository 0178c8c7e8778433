/**
Opening a directory tree as a corpus of mapped files: a recursive walk that collects paths, a
sort, and a loop that maps file after file under a size limit for each and for all together.
*/
module Corpus {
  import opened Wrappers
  import opened Arithmetic
  import opened Ordering
  import opened FileIdentities
  import opened MappedOpen

  // ----- paths -------------------------------------------------------------------

  type Name = string

  /** Components below the corpus directory. */
  type Path = seq<Name>

  predicate CharLess(a: char, b: char) { a < b }

  predicate NameLess(a: Name, b: Name) { LexLess(CharLess, a, b) }

  predicate PathLess(a: Path, b: Path) { LexLess(NameLess, a, b) }

  lemma NameOrder()
    ensures StrictTotal(NameLess)
  {
    assert StrictTotal(CharLess);
    forall a ensures !NameLess(a, a) { LexIrreflexive(CharLess, a); }
    forall a, b | a != b ensures NameLess(a, b) || NameLess(b, a) { LexTotal(CharLess, a, b); }
    forall a, b, c | NameLess(a, b) && NameLess(b, c) ensures NameLess(a, c) { LexTransitive(CharLess, a, b, c); }
  }

  lemma PathOrder()
    ensures StrictTotal(PathLess)
  {
    NameOrder();
    forall a ensures !PathLess(a, a) { LexIrreflexive(NameLess, a); }
    forall a, b | a != b ensures PathLess(a, b) || PathLess(b, a) { LexTotal(NameLess, a, b); }
    forall a, b, c | PathLess(a, b) && PathLess(b, c) ensures PathLess(a, c) { LexTransitive(NameLess, a, b, c); }
  }

  /** Paths are ordered by the first component in which they differ, components by the first character,
      characters by their codes; a directory comes before what is in it. */
  lemma PathOrderIs(p: Path, a: Name, b: Name, x: Path, y: Path, n: Name, c: char, d: char, v: Name, w: Name)
    ensures a != b ==> (PathLess(p + [a] + x, p + [b] + y) <==> NameLess(a, b))
    ensures PathLess(p, p + [a] + x)
    ensures c != d ==> (NameLess(n + [c] + v, n + [d] + w) <==> c < d)
    ensures NameLess(n, n + [c] + v)
  {
    NameOrder();
    LexDecides(NameLess, p, a, b, x, y);
    LexDecides(CharLess, n, c, d, v, w);
  }

  // ----- trees --------------------------------------------------------------------

  datatype Node =
    | File(len: nat)
    | Dir(entries: seq<Entry>)
    | Symlink
    | Special
    | Unreadable   // a directory that cannot be read
    | BrokenEntry  // reading the entry itself fails
    | UnknownType  // its type cannot be determined

  datatype Entry = Entry(name: Name, node: Node)

  datatype WalkError = ReadDirFailed | FileTypeFailed | SymlinkFound | Unsupported(path: Path)

  datatype Found = Found(path: Path, len: nat)

  /** The regular files of a directory, in the order of the walk. */
  function Files(prefix: Path, entries: seq<Entry>): seq<Found>
    decreases entries
  {
    if entries == [] then [] else FilesAt(prefix, entries[0]) + Files(prefix, entries[1..])
  }

  function FilesAt(prefix: Path, entry: Entry): seq<Found>
    decreases entry
  {
    match entry.node
    case File(len) => [Found(prefix + [entry.name], len)]
    case Dir(below) => Files(prefix + [entry.name], below)
    case _ => []
  }

  function Paths(files: seq<Found>): (paths: seq<Path>)
    ensures |paths| == |files| && forall i | 0 <= i < |files| :: paths[i] == files[i].path
  {
    if files == [] then [] else [files[0].path] + Paths(files[1..])
  }

  /** The first thing on the walk that a corpus may not contain. */
  function FirstFault(prefix: Path, entries: seq<Entry>): Option<WalkError>
    decreases entries
  {
    if entries == [] then None
    else
      var fault := FaultAt(prefix, entries[0]);
      if fault.Some? then fault else FirstFault(prefix, entries[1..])
  }

  function FaultAt(prefix: Path, entry: Entry): Option<WalkError>
    decreases entry
  {
    match entry.node
    case File(_) => None
    case Dir(below) => FirstFault(prefix + [entry.name], below)
    case Symlink => Some(SymlinkFound)
    case Special => Some(Unsupported(prefix + [entry.name]))
    case Unreadable => Some(ReadDirFailed)
    case BrokenEntry => Some(ReadDirFailed)
    case UnknownType => Some(FileTypeFailed)
  }

  /** Nothing but regular files and readable directories, at any depth. */
  predicate Clean(entries: seq<Entry>)
    decreases entries
  {
    forall e | e in entries :: CleanEntry(e)
  }

  predicate CleanEntry(e: Entry)
    decreases e
  {
    e.node.File? || (e.node.Dir? && Clean(e.node.entries))
  }

  /** The names in a directory differ, at any depth. */
  predicate WellNamed(entries: seq<Entry>) {
    && (forall i, j | 0 <= i < j < |entries| :: entries[i].name != entries[j].name)
    && (forall e | e in entries :: e.node.Dir? ==> WellNamed(e.node.entries))
  }

  class PathList {
    var items: seq<Path>

    constructor ()
      ensures items == []
    {
      items := [];
    }
  }

  lemma PathsAppend(a: seq<Found>, b: seq<Found>)
    ensures Paths(a + b) == Paths(a) + Paths(b)
  {
  }

  lemma WalkStep(prefix: Path, entries: seq<Entry>, i: nat)
    requires i < |entries|
    ensures Paths(Files(prefix, entries[i..])) ==
            Paths(FilesAt(prefix, entries[i])) + Paths(Files(prefix, entries[i + 1..]))
    ensures FirstFault(prefix, entries[i..]) ==
            var fault := FaultAt(prefix, entries[i]);
            if fault.Some? then fault else FirstFault(prefix, entries[i + 1..])
  {
    assert entries[i..][0] == entries[i] && entries[i..][1..] == entries[i + 1..];
    PathsAppend(FilesAt(prefix, entries[i]), Files(prefix, entries[i + 1..]));
  }

  lemma WalkEnds(prefix: Path, entries: seq<Entry>)
    ensures Paths(Files(prefix, entries[|entries|..])) == [] && FirstFault(prefix, entries[|entries|..]) == None
    ensures entries[0..] == entries
  {
  }

  /** The walk pushes the files of the tree in order, and stops at the first fault. */
  method CollectFiles(prefix: Path, entries: seq<Entry>, out: PathList) returns (fault: Option<WalkError>)
    modifies out
    ensures fault == FirstFault(prefix, entries)
    ensures fault.None? ==> out.items == old(out.items) + Paths(Files(prefix, entries))
    decreases entries
  {
    hide Files, FilesAt, FirstFault, FaultAt, Paths;
    WalkEnds(prefix, entries);
    for i := 0 to |entries|
      invariant FirstFault(prefix, entries[i..]) == FirstFault(prefix, entries)
      invariant out.items + Paths(Files(prefix, entries[i..])) == old(out.items) + Paths(Files(prefix, entries))
    {
      WalkStep(prefix, entries, i);
      fault := CollectEntry(prefix, entries[i], out);
      if fault.Some? {
        return;
      }
    }
    fault := None;
  }

  method CollectEntry(prefix: Path, entry: Entry, out: PathList) returns (fault: Option<WalkError>)
    modifies out
    ensures fault == FaultAt(prefix, entry)
    ensures fault.None? ==> out.items == old(out.items) + Paths(FilesAt(prefix, entry))
    decreases entry
  {
    var path := prefix + [entry.name];
    match entry.node
    case BrokenEntry => return Some(ReadDirFailed);
    case UnknownType => return Some(FileTypeFailed);
    case Symlink => return Some(SymlinkFound);
    case Unreadable => return Some(ReadDirFailed);
    case Dir(below) => fault := CollectFiles(path, below, out);
    case File(len) =>
      assert Paths([Found(path, len)]) == [path];
      out.items := out.items + [path];
      return None;
    case Special => return Some(Unsupported(path));
  }

  // ----- the walk finds exactly the tree's files -----------------------------------

  lemma {:induction false} CleanIffNoFault(prefix: Path, entries: seq<Entry>)
    ensures Clean(entries) <==> FirstFault(prefix, entries).None?
    decreases entries
  {
    if entries == [] {
    } else {
      var e := entries[0];
      assert entries == [e] + entries[1..];
      CleanIffNoFault(prefix, entries[1..]);
      assert Clean(entries) <==> CleanEntry(e) && Clean(entries[1..]);
      if e.node.Dir? {
        CleanIffNoFault(prefix + [e.name], e.node.entries);
      }
    }
  }

  /** A file is found under the entry whose name its path continues with. */
  lemma {:induction false} FoundUnder(prefix: Path, entries: seq<Entry>, f: Found)
    requires f in Files(prefix, entries)
    ensures |f.path| > |prefix| && f.path[..|prefix|] == prefix
    ensures exists e :: e in entries && e.name == f.path[|prefix|] && f in FilesAt(prefix, e)
    decreases entries
  {
    if f in FilesAt(prefix, entries[0]) {
      assert entries[0] in entries;
      FoundAt(prefix, entries[0], f);
    } else {
      FoundUnder(prefix, entries[1..], f);
      var e :| e in entries[1..] && e.name == f.path[|prefix|] && f in FilesAt(prefix, e);
      assert e in entries;
    }
  }

  lemma {:induction false} FoundAt(prefix: Path, entry: Entry, f: Found)
    requires f in FilesAt(prefix, entry)
    ensures |f.path| > |prefix| && f.path[..|prefix|] == prefix && f.path[|prefix|] == entry.name
    decreases entry
  {
    if entry.node.Dir? {
      var below := prefix + [entry.name];
      FoundUnder(below, entry.node.entries, f);
      assert f.path[..|below|][..|prefix|] == below[..|prefix|] == prefix;
      assert f.path[|prefix|] == f.path[..|below|][|prefix|];
    }
  }

  lemma {:induction false} FoundFrom(prefix: Path, entries: seq<Entry>, e: Entry, f: Found)
    requires e in entries && f in FilesAt(prefix, e)
    ensures f in Files(prefix, entries)
  {
    if e == entries[0] {
    } else {
      FoundFrom(prefix, entries[1..], e, f);
    }
  }

  /** Following the path from directory to directory leads to a regular file of that length. */
  ghost predicate LeadsTo(entries: seq<Entry>, path: Path, len: nat)
    decreases entries
  {
    path != [] && exists e :: e in entries && e.name == path[0] && LeadsOn(e, path[1..], len)
  }

  ghost predicate LeadsOn(e: Entry, path: Path, len: nat)
    decreases e
  {
    match e.node
    case File(n) => path == [] && n == len
    case Dir(below) => LeadsTo(below, path, len)
    case _ => false
  }

  /** The walk finds exactly the files that can be reached by their paths. */
  lemma {:induction false} FoundIff(prefix: Path, entries: seq<Entry>, path: Path, len: nat)
    ensures Found(prefix + path, len) in Files(prefix, entries) <==> LeadsTo(entries, path, len)
    decreases entries
  {
    var f := Found(prefix + path, len);
    hide Files, FilesAt, LeadsOn;
    if f in Files(prefix, entries) {
      FoundUnder(prefix, entries, f);
      var e :| e in entries && e.name == f.path[|prefix|] && f in FilesAt(prefix, e);
      assert path != [] && f.path[|prefix|] == path[0];
      FoundAtIff(prefix, e, path, len);
    }
    if LeadsTo(entries, path, len) {
      var e :| e in entries && e.name == path[0] && LeadsOn(e, path[1..], len);
      FoundAtIff(prefix, e, path, len);
      FoundFrom(prefix, entries, e, f);
    }
  }

  lemma {:induction false} FoundAtIff(prefix: Path, e: Entry, path: Path, len: nat)
    requires path != [] && e.name == path[0]
    ensures Found(prefix + path, len) in FilesAt(prefix, e) <==> LeadsOn(e, path[1..], len)
    decreases e
  {
    var below := prefix + [e.name];
    assert prefix + path == below + path[1..];
    match e.node
    case File(n) => assert path[1..] == [] <==> prefix + path == below;
    case Dir(entries) => FoundIff(below, entries, path[1..], len);
    case _ =>
  }

  /** Distinct names make distinct paths. */
  lemma {:induction false} PathsDistinct(prefix: Path, entries: seq<Entry>)
    requires WellNamed(entries)
    ensures Distinct(Paths(Files(prefix, entries)))
    decreases entries
  {
    if entries == [] {
    } else {
      var e := entries[0];
      var here, rest := FilesAt(prefix, e), Files(prefix, entries[1..]);
      PathsDistinct(prefix, entries[1..]);
      if e.node.Dir? {
        PathsDistinct(prefix + [e.name], e.node.entries);
      }
      assert Distinct(Paths(here));
      forall i, j | 0 <= i < |here| && 0 <= j < |rest| ensures here[i].path != rest[j].path {
        FoundAt(prefix, e, here[i]);
        FoundUnder(prefix, entries[1..], rest[j]);
        var e' :| e' in entries[1..] && e'.name == rest[j].path[|prefix|];
        assert e'.name != e.name;
      }
      PathsAppend(here, rest);
    }
  }

  // ----- mapping under limits --------------------------------------------------------

  /** What the system calls on one file report: at the stat, the mapping and the second stat. */
  datatype View = View(atStat: FileIdentity, atMap: FileIdentity, atRestat: FileIdentity, faults: Faults)

  /** The file does not change and no call on it fails. */
  predicate Steady(v: View, len: nat) {
    v.atStat == v.atMap == v.atRestat && v.atStat.len == len && v.faults == Faults(false, false, false, false, false)
  }

  datatype Region = Region(path: Path, mapLen: nat, size: nat)

  datatype CorpusError =
    | WalkFailed(walk: WalkError)
    | FileFailed(cause: OpenError)
    | FileTooLarge(size: nat)
    | TotalTooLarge

  function SaturatingAdd(a: nat, b: nat): nat {
    if a + b > U64_MAX then U64_MAX else a + b
  }

  /** The files under one set of limits, seen through the views. */
  datatype Job = Job(views: map<Path, View>, maxFileBytes: nat, maxTotalBytes: nat)
  {
    /** One file: the size limit, the running total, the mapping, the second look, in this order. */
    function MapOne(path: Path, total: nat): Result<Region, CorpusError> {
      if path !in views || views[path].faults.open then Err(FileFailed(OpenRefused))
      else
        var v := views[path];
        var size := v.atStat.len;
        if v.faults.stat then Err(FileFailed(StatRefused))
        else if size > maxFileBytes then Err(FileTooLarge(size))
        else if SaturatingAdd(total, size) > maxTotalBytes then Err(TotalTooLarge)
        else if v.faults.map_ then Err(FileFailed(OpenError.MapRefused))
        else
          var changed := ValidateFileIdentity(if v.faults.restat then None else Some(v.atRestat),
                                              v.atStat, size);
          if changed.Some? then Err(FileFailed(changed.value))
          else if v.atMap.len != 0 && v.faults.advise then Err(FileFailed(AdviseRefused))
          else Ok(Region(path, v.atMap.len, size))
    }

    function MapAll(paths: seq<Path>): Result<seq<Region>, CorpusError> {
      if paths == [] then Ok([])
      else
        var n := |paths| - 1;
        var before := MapAll(paths[..n]);
        if before.Err? then before
        else
          var one := MapOne(paths[n], Total(before.value));
          if one.Err? then Err(one.error) else Ok(before.value + [one.value])
    }
  }

  function Total(regions: seq<Region>): nat {
    if regions == [] then 0 else SaturatingAdd(Total(regions[..|regions| - 1]), regions[|regions| - 1].size)
  }

  /** What opening a corpus comes to; `root` is what the base path leads to. */
  function Opened(root: Node, job: Job): Result<seq<Region>, CorpusError> {
    if !root.Dir? then Err(WalkFailed(ReadDirFailed))
    else
      var fault := FirstFault([], root.entries);
      if fault.Some? then Err(WalkFailed(fault.value))
      else job.MapAll(Sort(PathLess, Paths(Files([], root.entries))))
  }

  method OpenWithLimits(root: Node, job: Job) returns (r: Result<seq<Region>, CorpusError>)
    ensures r == Opened(root, job)
  {
    if !root.Dir? {
      return Err(WalkFailed(ReadDirFailed));
    }
    var filePaths := new PathList();
    var fault := CollectFiles([], root.entries, filePaths);
    if fault.Some? {
      return Err(WalkFailed(fault.value));
    }
    assert filePaths.items == Paths(Files([], root.entries));
    filePaths.items := Sort(PathLess, filePaths.items);
    var paths := filePaths.items;
    var mappings: seq<Region> := [];
    var totalBytes := 0;
    for i := 0 to |paths|
      invariant job.MapAll(paths[..i]) == Ok(mappings) && totalBytes == Total(mappings)
      invariant filePaths.items == paths
    {
      AfterFirstError(job, paths, i);
      var path := paths[i];
      if path !in job.views || job.views[path].faults.open {
        return Err(FileFailed(OpenRefused));
      }
      var v := job.views[path];
      if v.faults.stat {
        return Err(FileFailed(StatRefused));
      }
      var expected, size := v.atStat, v.atStat.len;
      if size > job.maxFileBytes {
        return Err(FileTooLarge(size));
      }
      totalBytes := SaturatingAdd(totalBytes, size);
      if totalBytes > job.maxTotalBytes {
        return Err(TotalTooLarge);
      }
      if v.faults.map_ {
        return Err(FileFailed(OpenError.MapRefused));
      }
      var changed := ValidateFileIdentity(if v.faults.restat then None else Some(v.atRestat), expected, size);
      if changed.Some? {
        return Err(FileFailed(changed.value));
      }
      if v.atMap.len != 0 && v.faults.advise {
        return Err(FileFailed(AdviseRefused));
      }
      mappings := mappings + [Region(path, v.atMap.len, size)];
      assert mappings[..|mappings| - 1] + [mappings[|mappings| - 1]] == mappings;
    }
    assert paths[..|paths|] == paths;
    return Ok(mappings);
  }

  /** The loop never gets past the first file that fails. */
  lemma AfterFirstError(job: Job, paths: seq<Path>, i: nat)
    requires i < |paths| && job.MapAll(paths[..i]).Ok?
    ensures var before := job.MapAll(paths[..i]).value;
            var one := job.MapOne(paths[i], Total(before));
            if one.Err? then job.MapAll(paths) == Err(one.error)
            else job.MapAll(paths[..i + 1]) == Ok(before + [one.value])
  {
    assert paths[..i + 1][..i] == paths[..i];
    if job.MapAll(paths[..i + 1]).Err? {
      ErrorStays(job, paths, i + 1);
    }
  }

  lemma {:induction false} ErrorStays(job: Job, paths: seq<Path>, i: nat)
    requires i <= |paths| && job.MapAll(paths[..i]).Err?
    ensures job.MapAll(paths) == job.MapAll(paths[..i])
    decreases |paths| - i
  {
    if i == |paths| {
      assert paths[..i] == paths;
    } else {
      assert paths[..i + 1][..i] == paths[..i];
      ErrorStays(job, paths, i + 1);
    }
  }

  // ----- a quiet file system: exactly when a corpus opens -----------------------------

  function SumOf(views: map<Path, View>, paths: seq<Path>): nat
    requires forall p | p in paths :: p in views
  {
    if paths == [] then 0 else views[paths[0]].atStat.len + SumOf(views, paths[1..])
  }

  lemma {:induction false} SumAppend(views: map<Path, View>, a: seq<Path>, b: seq<Path>)
    requires forall p | p in a + b :: p in views
    ensures (forall p | p in a :: p in views) && forall p | p in b :: p in views
    ensures SumOf(views, a + b) == SumOf(views, a) + SumOf(views, b)
  {
    assert forall p | p in a :: p in a + b;
    assert forall p | p in b :: p in a + b;
    if a == [] {
      assert a + b == b;
    } else {
      assert (a + b)[1..] == a[1..] + b;
      SumAppend(views, a[1..], b);
    }
  }

  lemma SumWithout(views: map<Path, View>, b: seq<Path>, k: nat)
    requires k < |b| && forall p | p in b :: p in views
    ensures forall p | p in b[..k] + b[k + 1..] :: p in views
    ensures SumOf(views, b) == views[b[k]].atStat.len + SumOf(views, b[..k] + b[k + 1..])
  {
    assert b == b[..k] + ([b[k]] + b[k + 1..]);
    SumAppend(views, b[..k], [b[k]] + b[k + 1..]);
    SumAppend(views, [b[k]], b[k + 1..]);
    SumAppend(views, b[..k], b[k + 1..]);
  }

  lemma MultisetWithout(a: seq<Path>, b: seq<Path>, k: nat)
    requires multiset(a) == multiset(b) && k < |b| && a != [] && b[k] == a[0]
    ensures multiset(a[1..]) == multiset(b[..k] + b[k + 1..])
  {
    assert b == b[..k] + [b[k]] + b[k + 1..];
    assert a == [a[0]] + a[1..];
    assert multiset(a[1..]) == multiset(a) - multiset{a[0]};
  }

  /** A sum does not depend on the order of its terms. */
  lemma {:induction false} SumOfPermutation(views: map<Path, View>, a: seq<Path>, b: seq<Path>)
    requires multiset(a) == multiset(b) && forall p | p in a :: p in views
    ensures (forall p | p in b :: p in views) && SumOf(views, a) == SumOf(views, b)
  {
    SameMembers(a, b);
    if a == [] {
    } else {
      assert a[0] in b;
      var k: nat :| k < |b| && b[k] == a[0];
      MultisetWithout(a, b, k);
      SumWithout(views, b, k);
      SumOfPermutation(views, a[1..], b[..k] + b[k + 1..]);
    }
  }

  predicate AllSteady(views: map<Path, View>, paths: seq<Path>) {
    forall p | p in paths :: p in views && Steady(views[p], views[p].atStat.len)
  }

  /** Each running total is at most the final one, so the limit is met throughout if it is met at
      the end; and a saturated sum is the smaller of the true sum and the maximum. */
  lemma {:induction false} MapAllOfSteady(job: Job, paths: seq<Path>)
    requires AllSteady(job.views, paths)
    ensures job.MapAll(paths).Ok? <==>
              && (forall p | p in paths :: job.views[p].atStat.len <= job.maxFileBytes)
              && Min(SumOf(job.views, paths), U64_MAX) <= job.maxTotalBytes
    ensures job.MapAll(paths).Ok? ==>
              var regions := job.MapAll(paths).value;
              && |regions| == |paths| && Total(regions) == Min(SumOf(job.views, paths), U64_MAX)
              && forall i | 0 <= i < |paths| ::
                   var len := job.views[paths[i]].atStat.len; regions[i] == Region(paths[i], len, len)
  {
    hide Job.MapOne;
    if paths == [] {
    } else {
      var n := |paths| - 1;
      var front, last := paths[..n], paths[n];
      assert paths == front + [last];
      assert paths[..n] == front;
      MapAllOfSteady(job, front);
      SumAppend(job.views, front, [last]);
      assert forall p :: p in paths <==> p in front || p == last;
      if job.MapAll(front).Ok? {
        var before := job.MapAll(front).value;
        MapOneOfSteady(job, last, Total(before));
        var len := job.views[last].atStat.len;
        assert (before + [Region(last, len, len)])[..n] == before;
      }
    }
  }

  lemma MapOneOfSteady(job: Job, path: Path, total: nat)
    requires path in job.views && Steady(job.views[path], job.views[path].atStat.len)
    ensures var r, len := job.MapOne(path, total), job.views[path].atStat.len;
            && (r.Ok? <==> len <= job.maxFileBytes && SaturatingAdd(total, len) <= job.maxTotalBytes)
            && (r.Ok? ==> r.value == Region(path, len, len))
  {
  }

  function TreeSize(entries: seq<Entry>): nat
    decreases entries
  {
    if entries == [] then 0
    else
      (match entries[0].node
       case File(len) => len
       case Dir(below) => TreeSize(below)
       case _ => 0) + TreeSize(entries[1..])
  }

  /** Every file of the tree is seen steadily, with its length. */
  predicate Quiet(views: map<Path, View>, files: seq<Found>) {
    forall f | f in files :: f.path in views && Steady(views[f.path], f.len)
  }

  lemma {:induction false} SumOfTree(views: map<Path, View>, prefix: Path, entries: seq<Entry>)
    requires Quiet(views, Files(prefix, entries))
    ensures forall p | p in Paths(Files(prefix, entries)) :: p in views
    ensures SumOf(views, Paths(Files(prefix, entries))) == TreeSize(entries)
    decreases entries
  {
    if entries == [] {
    } else {
      var e := entries[0];
      var here, rest := FilesAt(prefix, e), Files(prefix, entries[1..]);
      assert Files(prefix, entries) == here + rest;
      PathsAppend(here, rest);
      SumOfTree(views, prefix, entries[1..]);
      match e.node {
        case Dir(below) => SumOfTree(views, prefix + [e.name], below);
        case File(len) => assert here[0] in here + rest;
        case _ =>
      }
      SumAppend(views, Paths(here), Paths(rest));
    }
  }

  /** On a quiet, well-named tree the corpus opens exactly when its root is a readable directory, the
      tree holds nothing but regular files and directories, no file is above its limit, and neither is
      the saturated total; the mappings are then the tree's files, each at its length, in strictly
      increasing order. */
  lemma OpensExactly(root: Node, job: Job)
    requires root.Dir? ==> WellNamed(root.entries) && Quiet(job.views, Files([], root.entries))
    ensures Opened(root, job).Ok? <==>
              && root.Dir? && Clean(root.entries)
              && (forall f | f in Files([], root.entries) :: f.len <= job.maxFileBytes)
              && Min(TreeSize(root.entries), U64_MAX) <= job.maxTotalBytes
    ensures Opened(root, job).Ok? ==>
              && IsListingOf(Opened(root, job).value, Files([], root.entries))
              && (job.maxTotalBytes < U64_MAX ==> TreeSize(root.entries) <= job.maxTotalBytes)
  {
    if root.Dir? {
      DirectoryOpensExactly(root.entries, job);
    }
  }

  lemma DirectoryOpensExactly(entries: seq<Entry>, job: Job)
    requires WellNamed(entries) && Quiet(job.views, Files([], entries))
    ensures var files, r := Files([], entries), Opened(Dir(entries), job);
            && (r.Ok? <==>
                  && Clean(entries)
                  && (forall f | f in files :: f.len <= job.maxFileBytes)
                  && Min(TreeSize(entries), U64_MAX) <= job.maxTotalBytes)
            && (r.Ok? ==>
                  && IsListingOf(r.value, files)
                  && (job.maxTotalBytes < U64_MAX ==> TreeSize(entries) <= job.maxTotalBytes))
  {
    var files := Files([], entries);
    var paths := Paths(files);
    var sorted := Sort(PathLess, paths);
    CleanIffNoFault([], entries);
    SortedPaths(entries);
    SumOfTree(job.views, [], entries);
    SumOfPermutation(job.views, paths, sorted);
    SteadyPaths(job.views, files, sorted);
    MapAllOfSteady(job, sorted);
    if job.MapAll(sorted).Ok? {
      ListingOfSteady(job.views, files, sorted, job.MapAll(sorted).value);
    }
    hide *;
    assert (forall p | p in sorted :: job.views[p].atStat.len <= job.maxFileBytes) <==>
           forall f | f in files :: f.len <= job.maxFileBytes;
  }

  /** Whatever happens to the files, a root that is not a readable directory is a failed `read_dir`, and
      a fault anywhere in the tree, the first one of the walk, is the error; nothing else is a failed walk. */
  lemma WalkFailsIff(root: Node, job: Job, w: WalkError)
    ensures Opened(root, job) == Err(WalkFailed(w)) <==>
              if root.Dir? then FirstFault([], root.entries) == Some(w) else w == ReadDirFailed
    ensures Opened(root, job).Ok? ==> root.Dir? && Clean(root.entries)
  {
    if root.Dir? {
      CleanIffNoFault([], root.entries);
      MapAllIsNoWalk(job, Sort(PathLess, Paths(Files([], root.entries))));
    }
  }

  lemma {:induction false} MapAllIsNoWalk(job: Job, paths: seq<Path>)
    ensures job.MapAll(paths).Err? ==> !job.MapAll(paths).error.WalkFailed?
  {
    if paths == [] {
    } else {
      MapAllIsNoWalk(job, paths[..|paths| - 1]);
    }
  }

  /** What each kind of entry that is neither a file nor a directory is reported as. */
  lemma FaultsAre(name: Name, node: Node, job: Job)
    requires !node.File? && !node.Dir?
    ensures Opened(Dir([Entry(name, node)]), job) ==
            Err(WalkFailed(if node.Symlink? then SymlinkFound
                           else if node.Special? then Unsupported([name])
                           else if node.UnknownType? then FileTypeFailed
                           else ReadDirFailed))
  {
    assert [] + [name] == [name];
    assert FirstFault([], [Entry(name, node)]) == FaultAt([], Entry(name, node));
  }

  /** The limits admit all these files. */
  predicate Admits(job: Job, paths: seq<Path>)
    requires AllSteady(job.views, paths)
  {
    && (forall p | p in paths :: job.views[p].atStat.len <= job.maxFileBytes)
    && Min(SumOf(job.views, paths), U64_MAX) <= job.maxTotalBytes
  }

  lemma SteadyFront(views: map<Path, View>, paths: seq<Path>, k: nat)
    requires AllSteady(views, paths) && k <= |paths|
    ensures AllSteady(views, paths[..k])
  {
    assert forall p | p in paths[..k] :: p in paths;
  }

  /** On steady files the error is that of the first file, in order, at which a limit is passed: its own,
      else the total. */
  lemma {:induction false} LimitErrorIs(job: Job, paths: seq<Path>) returns (k: nat)
    requires AllSteady(job.views, paths) && job.MapAll(paths).Err?
    ensures k < |paths| && AllSteady(job.views, paths[..k]) && AllSteady(job.views, paths[..k + 1])
    ensures Admits(job, paths[..k]) && !Admits(job, paths[..k + 1])
    ensures var len := job.views[paths[k]].atStat.len;
            job.MapAll(paths).error == if len > job.maxFileBytes then FileTooLarge(len) else TotalTooLarge
  {
    var n := |paths| - 1;
    var front := paths[..n];
    SteadyFront(job.views, paths, n);
    assert paths[..n + 1] == paths;
    hide Job.MapOne, AllSteady, Admits;
    if job.MapAll(front).Err? {
      k := LimitErrorIs(job, front);
      assert front[..k] == paths[..k] && front[..k + 1] == paths[..k + 1];
    } else {
      k := n;
      AdmitsIff(job, front);
      AdmitsIff(job, paths);
      SteadyAt(job.views, paths, n);
      SteadyMapOne(job, paths[n], Total(job.MapAll(front).value));
    }
  }

  lemma AdmitsIff(job: Job, paths: seq<Path>)
    requires AllSteady(job.views, paths)
    ensures job.MapAll(paths).Ok? <==> Admits(job, paths)
  {
    MapAllOfSteady(job, paths);
  }

  lemma SteadyAt(views: map<Path, View>, paths: seq<Path>, k: nat)
    requires AllSteady(views, paths) && k < |paths|
    ensures paths[k] in views && Steady(views[paths[k]], views[paths[k]].atStat.len)
  {
  }

  lemma SteadyMapOne(job: Job, path: Path, total: nat)
    requires path in job.views && Steady(job.views[path], job.views[path].atStat.len)
    ensures var r, len := job.MapOne(path, total), job.views[path].atStat.len;
            && (r == Err(FileTooLarge(len)) <==> len > job.maxFileBytes)
            && (r == Err(TotalTooLarge) <==> len <= job.maxFileBytes && SaturatingAdd(total, len) > job.maxTotalBytes)
            && (r.Err? ==> r == Err(FileTooLarge(len)) || r == Err(TotalTooLarge))
  {
  }

  /** The paths the loop goes through: the tree's files, strictly increasing. */
  lemma SortedPaths(entries: seq<Entry>)
    requires WellNamed(entries)
    ensures var paths := Paths(Files([], entries));
            var sorted := Sort(PathLess, paths);
            Increasing(PathLess, sorted) && multiset(paths) == multiset(sorted) && forall p :: p in paths <==> p in sorted
  {
    var paths := Paths(Files([], entries));
    PathOrder();
    SortSorts(PathLess, paths);
    PathsDistinct([], entries);
    SortedIsIncreasing(PathLess, paths, Sort(PathLess, paths));
    SameMembers(paths, Sort(PathLess, paths));
  }

  lemma SteadyPaths(views: map<Path, View>, files: seq<Found>, sorted: seq<Path>)
    requires Quiet(views, files) && forall p :: p in Paths(files) <==> p in sorted
    ensures AllSteady(views, sorted)
    ensures forall f | f in files :: f.path in sorted && views[f.path].atStat.len == f.len
    ensures forall p | p in sorted :: Found(p, views[p].atStat.len) in files
  {
    forall f | f in files ensures f.path in sorted && views[f.path].atStat.len == f.len {
      var i :| 0 <= i < |files| && files[i] == f;
      assert Paths(files)[i] in Paths(files);
    }
    forall p | p in sorted ensures Found(p, views[p].atStat.len) in files && Steady(views[p], views[p].atStat.len) {
      var i :| 0 <= i < |files| && Paths(files)[i] == p;
      assert files[i] in files;
    }
  }

  lemma ListingOfSteady(views: map<Path, View>, files: seq<Found>, sorted: seq<Path>, regions: seq<Region>)
    requires Increasing(PathLess, sorted) && |regions| == |sorted|
    requires forall p | p in sorted :: p in views && Found(p, views[p].atStat.len) in files
    requires forall f | f in files :: f.path in sorted && views[f.path].atStat.len == f.len
    requires forall i | 0 <= i < |sorted| ::
               var len := views[sorted[i]].atStat.len; regions[i] == Region(sorted[i], len, len)
    ensures IsListingOf(regions, files)
  {
    forall f | f in files ensures Region(f.path, f.len, f.len) in regions {
      var i :| 0 <= i < |sorted| && sorted[i] == f.path;
      assert regions[i] == Region(f.path, f.len, f.len);
    }
    forall r | r in regions ensures r.mapLen == r.size && Found(r.path, r.size) in files {
      var i :| 0 <= i < |regions| && regions[i] == r;
      assert sorted[i] in sorted;
    }
  }

  lemma SameMembers(a: seq<Path>, b: seq<Path>)
    requires multiset(a) == multiset(b)
    ensures forall p :: p in a <==> p in b
    ensures |a| == |b|
  {
    assert forall p :: p in a <==> p in multiset(a);
    assert forall p :: p in b <==> p in multiset(b);
    assert |a| == |multiset(a)| == |multiset(b)| == |b|;
  }

  /** The regions are the files: no path twice, in strictly increasing order, mapped in full. */
  ghost predicate IsListingOf(regions: seq<Region>, files: seq<Found>) {
    && (forall i, j | 0 <= i < j < |regions| :: PathLess(regions[i].path, regions[j].path))
    && (forall r | r in regions :: r.mapLen == r.size && Found(r.path, r.size) in files)
    && (forall f | f in files :: Region(f.path, f.len, f.len) in regions)
  }

  // ----- the order of directory entries does not matter ---------------------------------

  /** The same tree, with the entries of any of its directories in another order. */
  ghost predicate SameTree(a: Node, b: Node)
    decreases a
  {
    if a.Dir? && b.Dir? then SameEntries(a.entries, b.entries) else a == b
  }

  ghost predicate SameEntry(a: Entry, b: Entry)
    decreases a, 0
  {
    a.name == b.name && SameTree(a.node, b.node)
  }

  ghost predicate SameEntries(a: seq<Entry>, b: seq<Entry>)
    decreases a, 1
  {
    && |a| == |b|
    && (forall e {:trigger HasPartner(e, b)} | e in a :: HasPartner(e, b))
    && (forall e' {:trigger PartnerOf(a, e')} | e' in b :: PartnerOf(a, e'))
  }

  ghost predicate HasPartner(e: Entry, b: seq<Entry>)
    decreases e, 1
  {
    exists e' :: e' in b && SameEntry(e, e')
  }

  ghost predicate PartnerOf(a: seq<Entry>, e': Entry)
    decreases a, 0
  {
    exists e :: e in a && SameEntry(e, e')
  }

  lemma Partner(a: seq<Entry>, b: seq<Entry>, e: Entry) returns (e': Entry)
    requires SameEntries(a, b) && e in a
    ensures e' in b && SameEntry(e, e')
  {
    assert HasPartner(e, b);
    e' :| e' in b && SameEntry(e, e');
  }

  lemma PartnerBack(a: seq<Entry>, b: seq<Entry>, e': Entry) returns (e: Entry)
    requires SameEntries(a, b) && e' in b
    ensures e in a && SameEntry(e, e')
  {
    assert PartnerOf(a, e');
    e :| e in a && SameEntry(e, e');
  }

  lemma {:induction false} SameClean(a: seq<Entry>, b: seq<Entry>)
    requires SameEntries(a, b)
    ensures Clean(a) <==> Clean(b)
    decreases a
  {
    hide SameEntries, SameEntry;
    forall e' | e' in b && Clean(a) ensures CleanEntry(e') {
      var e := PartnerBack(a, b, e');
      SameCleanEntry(e, e');
    }
    forall e | e in a && Clean(b) ensures CleanEntry(e) {
      var e' := Partner(a, b, e);
      SameCleanEntry(e, e');
    }
  }

  lemma {:induction false} SameCleanEntry(e: Entry, e': Entry)
    requires SameEntry(e, e')
    ensures CleanEntry(e) <==> CleanEntry(e')
    decreases e
  {
    if e.node.Dir? && e'.node.Dir? {
      SameClean(e.node.entries, e'.node.entries);
    }
  }

  ghost predicate SameFound(a: seq<Found>, b: seq<Found>) {
    forall f :: f in a <==> f in b
  }

  lemma {:induction false} SameFiles(prefix: Path, a: seq<Entry>, b: seq<Entry>)
    requires SameEntries(a, b)
    ensures SameFound(Files(prefix, a), Files(prefix, b))
    decreases a
  {
    hide SameEntries, SameEntry, Files, FilesAt;
    forall f | f in Files(prefix, a) ensures f in Files(prefix, b) {
      FoundUnder(prefix, a, f);
      var e :| e in a && f in FilesAt(prefix, e);
      var e' := Partner(a, b, e);
      SameFilesAt(prefix, e, e');
      FoundFrom(prefix, b, e', f);
    }
    forall f | f in Files(prefix, b) ensures f in Files(prefix, a) {
      FoundUnder(prefix, b, f);
      var e' :| e' in b && f in FilesAt(prefix, e');
      var e := PartnerBack(a, b, e');
      SameFilesAt(prefix, e, e');
      FoundFrom(prefix, a, e, f);
    }
  }

  lemma {:induction false} SameFilesAt(prefix: Path, e: Entry, e': Entry)
    requires SameEntry(e, e')
    ensures SameFound(FilesAt(prefix, e), FilesAt(prefix, e'))
    decreases e
  {
    if e.node.Dir? && e'.node.Dir? {
      SameFiles(prefix + [e.name], e.node.entries, e'.node.entries);
    }
  }

  lemma PathsOfSameFiles(a: seq<Found>, b: seq<Found>, p: Path)
    requires SameFound(a, b) && p in Paths(a)
    ensures p in Paths(b)
  {
    var i :| 0 <= i < |a| && Paths(a)[i] == p;
    assert a[i] in b;
    var j :| 0 <= j < |b| && b[j] == a[i];
    assert Paths(b)[j] == p;
  }

  /** Permuting entries at any depth changes neither whether the corpus opens nor, once the walk
      itself succeeds, anything about the outcome: mappings, their order, or the error.  This holds
      for whatever the system calls on the files report. */
  lemma OrderIndependent(a: seq<Entry>, b: seq<Entry>, job: Job)
    requires WellNamed(a) && WellNamed(b) && SameEntries(a, b)
    ensures Opened(Dir(a), job).Ok? <==> Opened(Dir(b), job).Ok?
    ensures Clean(a) ==> Opened(Dir(a), job) == Opened(Dir(b), job)
    ensures !Clean(a) ==> Opened(Dir(a), job).Err? && Opened(Dir(b), job).Err?
  {
    hide SameEntries, WellNamed, Files, Sort, Clean;
    CleanIffNoFault([], a);
    CleanIffNoFault([], b);
    SameClean(a, b);
    SamePaths(a, b);
  }

  lemma SamePaths(a: seq<Entry>, b: seq<Entry>)
    requires WellNamed(a) && WellNamed(b) && SameEntries(a, b)
    ensures Sort(PathLess, Paths(Files([], a))) == Sort(PathLess, Paths(Files([], b)))
  {
    SameFiles([], a, b);
    SortedPaths(a);
    SortedPaths(b);
    hide WellNamed, SameEntries, Files, Sort;
    var fa, fb := Files([], a), Files([], b);
    forall p ensures p in Paths(fa) <==> p in Paths(fb) {
      if p in Paths(fa) { PathsOfSameFiles(fa, fb, p); }
      if p in Paths(fb) { PathsOfSameFiles(fb, fa, p); }
    }
    PathOrder();
    IncreasingIsUnique(PathLess, Sort(PathLess, Paths(fa)), Sort(PathLess, Paths(fb)));
  }

  // ----- which fault the walk reports ----------------------------------------------------

  /** Some entry, at any depth, is a fault the walk would report as `w`. */
  ghost predicate Raises(prefix: Path, entries: seq<Entry>, w: WalkError)
    decreases entries
  {
    exists e :: e in entries && RaisesAt(prefix, e, w)
  }

  ghost predicate RaisesAt(prefix: Path, e: Entry, w: WalkError)
    decreases e
  {
    if e.node.Dir? then Raises(prefix + [e.name], e.node.entries, w) else FaultAt(prefix, e) == Some(w)
  }

  lemma {:induction false} FirstFaultIsRaised(prefix: Path, entries: seq<Entry>)
    requires FirstFault(prefix, entries).Some?
    ensures Raises(prefix, entries, FirstFault(prefix, entries).value)
    decreases entries
  {
    var e, w := entries[0], FirstFault(prefix, entries).value;
    if FaultAt(prefix, e).Some? {
      if e.node.Dir? {
        FirstFaultIsRaised(prefix + [e.name], e.node.entries);
      }
      assert e in entries && RaisesAt(prefix, e, w);
    } else {
      FirstFaultIsRaised(prefix, entries[1..]);
      var e' :| e' in entries[1..] && RaisesAt(prefix, e', w);
      assert e' in entries;
    }
  }

  lemma {:induction false} SameRaises(prefix: Path, a: seq<Entry>, b: seq<Entry>, w: WalkError)
    requires SameEntries(a, b)
    ensures Raises(prefix, a, w) <==> Raises(prefix, b, w)
    decreases a
  {
    hide SameEntries, SameEntry, RaisesAt;
    if Raises(prefix, a, w) {
      var e :| e in a && RaisesAt(prefix, e, w);
      var e' := Partner(a, b, e);
      SameRaisesAt(prefix, e, e', w);
    }
    if Raises(prefix, b, w) {
      var e' :| e' in b && RaisesAt(prefix, e', w);
      var e := PartnerBack(a, b, e');
      SameRaisesAt(prefix, e, e', w);
    }
  }

  lemma {:induction false} SameRaisesAt(prefix: Path, e: Entry, e': Entry, w: WalkError)
    requires SameEntry(e, e')
    ensures RaisesAt(prefix, e, w) <==> RaisesAt(prefix, e', w)
    decreases e
  {
    if e.node.Dir? && e'.node.Dir? {
      SameRaises(prefix + [e.name], e.node.entries, e'.node.entries, w);
    }
  }

  lemma {:induction false} EntryIsItself(e: Entry)
    ensures SameEntry(e, e)
    decreases e
  {
    if e.node.Dir? {
      var below := e.node.entries;
      forall x | x in below ensures HasPartner(x, below) && PartnerOf(below, x) {
        EntryIsItself(x);
      }
    }
  }

  /** The entries with entry `k` at the front, and `e'` in its place. */
  function ToFront(a: seq<Entry>, k: nat, e': Entry): seq<Entry>
    requires k < |a|
  {
    [e'] + a[..k] + a[k + 1..]
  }

  /** Where the entry at position `j` of the new order was before. */
  function Before(k: nat, j: nat): nat {
    if j == 0 then k else if j <= k then j - 1 else j
  }

  lemma ToFrontAt(a: seq<Entry>, k: nat, e': Entry, j: nat)
    requires k < |a| && j < |a|
    ensures |ToFront(a, k, e')| == |a| && Before(k, j) < |a|
    ensures ToFront(a, k, e')[j] == if j == 0 then e' else a[Before(k, j)]
  {
  }

  lemma ToFrontIsSame(a: seq<Entry>, k: nat, e': Entry)
    requires k < |a| && SameEntry(a[k], e')
    ensures SameEntries(a, ToFront(a, k, e'))
  {
    var b := ToFront(a, k, e');
    hide SameEntry, ToFront;
    ToFrontAt(a, k, e', 0);
    forall x | x in a ensures HasPartner(x, b) {
      var i: nat :| i < |a| && a[i] == x;
      EntryIsItself(x);
      var j := if i == k then 0 else if i < k then i + 1 else i;
      ToFrontAt(a, k, e', j);
      assert b[j] in b;
    }
    forall x' | x' in b ensures PartnerOf(a, x') {
      var j: nat :| j < |b| && b[j] == x';
      EntryIsItself(x');
      ToFrontAt(a, k, e', j);
      assert a[Before(k, j)] in a;
    }
  }

  lemma ToFrontIsWellNamed(a: seq<Entry>, k: nat, e': Entry)
    requires k < |a| && WellNamed(a) && e'.name == a[k].name && (e'.node.Dir? ==> WellNamed(e'.node.entries))
    ensures WellNamed(ToFront(a, k, e'))
  {
    var b := ToFront(a, k, e');
    hide ToFront;
    ToFrontAt(a, k, e', 0);
    forall j: nat | j < |b| ensures b[j].name == a[Before(k, j)].name && (b[j] == e' || b[j] in a) {
      ToFrontAt(a, k, e', j);
    }
    forall i: nat, j: nat | i < j < |b| ensures b[i].name != b[j].name {
      assert Before(k, i) != Before(k, j);
    }
    forall e | e in b && e.node.Dir? ensures WellNamed(e.node.entries) {
      assert e == e' || e in a;
    }
  }

  /** Any fault of the tree is the one reported, for some order of the entries. */
  lemma {:induction false} AnyFaultMayComeFirst(prefix: Path, a: seq<Entry>, w: WalkError) returns (b: seq<Entry>)
    requires WellNamed(a) && Raises(prefix, a, w)
    ensures WellNamed(b) && SameEntries(a, b) && FirstFault(prefix, b) == Some(w)
    decreases a
  {
    var e :| e in a && RaisesAt(prefix, e, w);
    var k: nat :| k < |a| && a[k] == e;
    var e' := e;
    if e.node.Dir? {
      var below := AnyFaultMayComeFirst(prefix + [e.name], e.node.entries, w);
      e' := Entry(e.name, Dir(below));
    } else {
      EntryIsItself(e);
    }
    b := ToFront(a, k, e');
    ToFrontIsSame(a, k, e');
    ToFrontIsWellNamed(a, k, e');
    assert FaultAt(prefix, b[0]) == Some(w);
  }

  /** However the directories list their entries, the outcome is the same, the error included. */
  ghost predicate OrderFree(a: seq<Entry>, job: Job) {
    forall b | WellNamed(b) && SameEntries(a, b) :: Opened(Dir(b), job) == Opened(Dir(a), job)
  }

  ghost predicate OneFaultAtMost(a: seq<Entry>) {
    forall v, w | Raises([], a, v) && Raises([], a, w) :: v == w
  }

  /** That is so exactly when the faults of the tree, if it has any, are all the same. */
  lemma FaultIsOrderFreeIff(a: seq<Entry>, job: Job)
    requires WellNamed(a)
    ensures OrderFree(a, job) <==> OneFaultAtMost(a)
  {
    if OrderFree(a, job) {
      forall v, w | Raises([], a, v) && Raises([], a, w) ensures v == w {
        var bv := AnyFaultMayComeFirst([], a, v);
        var bw := AnyFaultMayComeFirst([], a, w);
        assert Opened(Dir(bv), job) == Opened(Dir(bw), job);
      }
    }
    if OneFaultAtMost(a) {
      forall b | WellNamed(b) && SameEntries(a, b) ensures Opened(Dir(b), job) == Opened(Dir(a), job) {
        SameOutcome(a, b, job);
      }
    }
  }

  lemma SameOutcome(a: seq<Entry>, b: seq<Entry>, job: Job)
    requires WellNamed(a) && WellNamed(b) && SameEntries(a, b)
    requires OneFaultAtMost(a)
    ensures Opened(Dir(b), job) == Opened(Dir(a), job)
  {
    hide WellNamed, SameEntries, Raises;
    OrderIndependent(a, b, job);
    CleanIffNoFault([], a);
    CleanIffNoFault([], b);
    SameClean(a, b);
    if !Clean(a) {
      FirstFaultIsRaised([], a);
      FirstFaultIsRaised([], b);
      SameRaises([], a, b, FirstFault([], b).value);
    }
  }

  /** A tree with two faults: which one is reported depends on the order. */
  lemma WalkErrorDependsOnOrder(job: Job)
    ensures var link, pipe := Entry("a", Symlink), Entry("b", Special);
            && Opened(Dir([link, pipe]), job) == Err(WalkFailed(SymlinkFound))
            && Opened(Dir([pipe, link]), job) == Err(WalkFailed(Unsupported(["b"])))
  {
    var link, pipe := Entry("a", Symlink), Entry("b", Special);
    assert FirstFault([], [link, pipe]) == Some(SymlinkFound);
    assert FirstFault([], [pipe, link]) == Some(Unsupported([] + ["b"]));
    assert [] + ["b"] == ["b"];
  }

  // ----- a changing file system: what every success still promises -----------------------

  /** The sized opening of the file at `path` succeeded with what became `region`. */
  predicate Checked(job: Job, path: Path, region: Region) {
    path in job.views &&
    var v := job.views[path];
    && region == Region(path, v.atMap.len, v.atStat.len)
    && region.size <= job.maxFileBytes
    && SizedSucceeds(v.atStat, Schedule([], [v.atMap], [v.atRestat]), v.faults, region.size)
  }

  /** One file is mapped exactly when the sized opening at its own length succeeds within the limits. */
  lemma CheckedOne(job: Job, path: Path, total: nat, region: Region)
    ensures job.MapOne(path, total) == Ok(region) <==>
            Checked(job, path, region) && SaturatingAdd(total, region.size) <= job.maxTotalBytes
  {
    if path in job.views {
      var v := job.views[path];
      var s := Schedule([], [v.atMap], [v.atRestat]);
      assert s.AtStat(v.atStat) == v.atStat && s.AtMap(v.atStat) == v.atMap && s.AtRestat(v.atStat) == v.atRestat;
    }
  }

  /** Otherwise the error is that of the first thing to go wrong: opening, stat, the file's limit, the
      total, mapping, re-stat, a change seen by it, advice. */
  lemma FirstThingWrong(job: Job, path: Path, total: nat, e: CorpusError)
    requires path in job.views
    ensures var v := job.views[path];
            var f, size := v.faults, v.atStat.len;
            var admitted := !f.open && !f.stat && size <= job.maxFileBytes && SaturatingAdd(total, size) <= job.maxTotalBytes;
            job.MapOne(path, total) == Err(e) <==>
            match e
            case FileFailed(OpenRefused) => f.open
            case FileFailed(StatRefused) => !f.open && f.stat
            case FileTooLarge(n) => !f.open && !f.stat && n == size > job.maxFileBytes
            case TotalTooLarge =>
              !f.open && !f.stat && size <= job.maxFileBytes && SaturatingAdd(total, size) > job.maxTotalBytes
            case FileFailed(MapRefused) => admitted && f.map_
            case FileFailed(RestatRefused) => admitted && !f.map_ && f.restat
            case FileFailed(Changed) =>
              admitted && !f.map_ && !f.restat && !(v.atRestat.len == size && SameInode(v.atStat, v.atRestat))
            case FileFailed(AdviseRefused) =>
              && admitted && !f.map_ && !f.restat && v.atRestat.len == size && SameInode(v.atStat, v.atRestat)
              && v.atMap.len != 0 && f.advise
            case _ => false
  {
  }

  /** Whatever happens to the files meanwhile, a corpus that opens lists the walk's paths in order,
      each file was seen at one size, within its limit, at both stats, and the total is within its
      limit; the length of a mapping itself is not among what was checked. */
  lemma {:induction false} EveryRegionWasChecked(job: Job, paths: seq<Path>)
    requires job.MapAll(paths).Ok?
    ensures var regions := job.MapAll(paths).value;
            && |regions| == |paths| && Total(regions) <= job.maxTotalBytes
            && forall i | 0 <= i < |paths| :: Checked(job, paths[i], regions[i])
  {
    if paths == [] {
    } else {
      var n := |paths| - 1;
      EveryRegionWasChecked(job, paths[..n]);
      var before := job.MapAll(paths[..n]).value;
      var one := job.MapOne(paths[n], Total(before)).value;
      CheckedOne(job, paths[n], Total(before), one);
      assert (before + [one])[..n] == before;
      forall i | 0 <= i < |paths| ensures Checked(job, paths[i], (before + [one])[i]) {
        assert i < n ==> paths[i] == paths[..n][i];
      }
    }
  }

  // ----- when the mappings are the files in full ------------------------------------------

  predicate FullyMapped(regions: seq<Region>) {
    forall r | r in regions :: r.mapLen == r.size
  }

  function MappedBytes(regions: seq<Region>): nat {
    if regions == [] then 0 else MappedBytes(regions[..|regions| - 1]) + regions[|regions| - 1].mapLen
  }

  /** What others do to each file meanwhile keeps to the rule. */
  ghost predicate JobObeys(rule: Rule, job: Job) {
    forall p | p in job.views ::
      Reaches(rule, job.views[p].atStat, job.views[p].atMap) && Reaches(rule, job.views[p].atMap, job.views[p].atRestat)
  }

  /** Under `rule`, every corpus that opens has mapped its files at the sizes it reports. */
  ghost predicate CorpusAlwaysExact(rule: Rule) {
    forall root, job | JobObeys(rule, job) && Opened(root, job).Ok? :: FullyMapped(Opened(root, job).value)
  }

  lemma CheckedIsExact(rule: Rule, job: Job, paths: seq<Path>)
    requires NoExcursion(rule) && JobObeys(rule, job) && job.MapAll(paths).Ok?
    ensures FullyMapped(job.MapAll(paths).value)
  {
    EveryRegionWasChecked(job, paths);
    var regions := job.MapAll(paths).value;
    hide Reaches, Job.MapAll;
    forall r | r in regions ensures r.mapLen == r.size {
      var i :| 0 <= i < |regions| && regions[i] == r;
      assert Checked(job, paths[i], regions[i]);
      var v := job.views[paths[i]];
      var s := Schedule([], [v.atMap], [v.atRestat]);
      assert s.AtStat(v.atStat) == v.atStat && s.AtRestat(v.atStat) == v.atRestat;
    }
  }

  /** A corpus of a single file opens as that file maps. */
  lemma OneFile(name: Name, len: nat, job: Job)
    ensures Opened(Dir([Entry(name, File(len))]), job) ==
            var one := job.MapOne([name], 0);
            if one.Err? then Err(one.error) else Ok([one.value])
  {
    var entries := [Entry(name, File(len))];
    assert Files([], entries) == [Found([] + [name], len)];
    assert [] + [name] == [name];
    assert Paths(Files([], entries)) == [[name]];
    assert Sort(PathLess, [[name]]) == [[name]];
    assert FirstFault([], entries) == None;
    assert [[name]][..0] == [];
    assert job.MapAll([]) == Ok([]);
    var one := job.MapOne([name], 0);
    assert one.Ok? ==> [] + [one.value] == [one.value];
  }

  /** Like the sized opening, the corpus is exact in exactly the environments without excursions. */
  lemma CorpusExactIffNoExcursion(rule: Rule)
    ensures CorpusAlwaysExact(rule) <==> NoExcursion(rule)
  {
    if NoExcursion(rule) {
      forall root, job | JobObeys(rule, job) && Opened(root, job).Ok? ensures FullyMapped(Opened(root, job).value) {
        CheckedIsExact(rule, job, Sort(PathLess, Paths(Files([], root.entries))));
      }
    }
    if CorpusAlwaysExact(rule) {
      forall a, b, c | Reaches(rule, a, b) && Reaches(rule, b, c) && a.len == c.len && SameInode(a, c)
        ensures b.len == a.len
      {
        var job := OneFileJob(a, b, c);
        assert JobObeys(rule, job);
        OneFileOpens(a, b, c);
        assert Region(["a"], b.len, a.len) in Opened(Dir([Entry("a", File(a.len))]), job).value;
      }
    }
  }

  /** A file seen in three states, under limits that just admit it. */
  function OneFileJob(a: FileIdentity, b: FileIdentity, c: FileIdentity): Job {
    Job(map[["a"] := View(a, b, c, Faults(false, false, false, false, false))], a.len, a.len)
  }

  lemma OneFileOpens(a: FileIdentity, b: FileIdentity, c: FileIdentity)
    requires a.len == c.len && SameInode(a, c)
    ensures Opened(Dir([Entry("a", File(a.len))]), OneFileJob(a, b, c)) == Ok([Region(["a"], b.len, a.len)])
  {
    OneFile("a", a.len, OneFileJob(a, b, c));
  }

  lemma {:induction false} TotalIsSaturated(regions: seq<Region>)
    requires FullyMapped(regions)
    ensures Total(regions) == Min(MappedBytes(regions), U64_MAX)
  {
    if regions == [] {
    } else {
      TotalIsSaturated(regions[..|regions| - 1]);
      assert regions[|regions| - 1] in regions;
    }
  }

  /** In such an environment the bytes really mapped obey the limit, when it is below the 64-bit
      maximum; files that only grow, or only shrink, are one. */
  lemma MappedBytesObeyLimit(rule: Rule, root: Node, job: Job)
    requires NoExcursion(rule) || Grows(rule) || Shrinks(rule)
    requires JobObeys(rule, job) && Opened(root, job).Ok?
    ensures FullyMapped(Opened(root, job).value)
    ensures job.maxTotalBytes < U64_MAX ==> MappedBytes(Opened(root, job).value) <= job.maxTotalBytes
  {
    if Grows(rule) || Shrinks(rule) {
      MonotoneIsExact(rule);
      ExactIffNoExcursion(rule);
    }
    CorpusExactIffNoExcursion(rule);
    EveryRegionWasChecked(job, Sort(PathLess, Paths(Files([], root.entries))));
    TotalIsSaturated(Opened(root, job).value);
  }

  /** Elsewhere they need not: a file that is long only while it is mapped. */
  lemma CorpusMayMapTooMuch(small: nat, large: nat)
    requires small < large
    ensures var a, b := FileIdentity(small, 0, 0), FileIdentity(large, 0, 0);
            var job, r := OneFileJob(a, b, a), Opened(Dir([Entry("a", File(small))]), OneFileJob(a, b, a));
            r.Ok? && MappedBytes(r.value) == large > job.maxTotalBytes
  {
    var a, b := FileIdentity(small, 0, 0), FileIdentity(large, 0, 0);
    OneFileOpens(a, b, a);
    assert [Region(["a"], large, small)][..0] == [];
    assert MappedBytes([]) == 0;
  }
}
