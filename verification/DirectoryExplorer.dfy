/** The explorer that hands out the files below a path one at a time, always one search ahead. The file
    system is a finite tree that does not change while it is explored. */
module DirectoryExplorers {
  import opened Wrappers

  type Path = string

  /** What a directory lists. A name that cannot be examined, such as a link to nothing, is `Broken`. */
  datatype Entry =
    | File(name: string)
    | Broken(name: string)
    | Folder(name: string, openable: bool, entries: seq<Entry>)

  /** A directory still to be read. */
  datatype Directory = Directory(path: Path, openable: bool, entries: seq<Entry>)

  /** What a search comes upon: a file, or a name whose examination fails. */
  datatype Outcome = Found(path: Path) | Failed(path: Path)

  datatype Error = NoSuchPath | CannotOpen | CannotExamine(path: Path)

  function Join(directory: Path, name: string): Path {
    directory + "/" + name
  }

  predicate IsSelfOrParent(name: string) {
    name == "." || name == ".."
  }

  // ----- The order of a breadth-first search -----

  /** What the entries of one directory give, in the order listed. */
  function Outcomes(path: Path, entries: seq<Entry>): seq<Outcome> {
    if entries == [] then []
    else OutcomeOf(path, entries[0]) + Outcomes(path, entries[1..])
  }

  function OutcomeOf(path: Path, entry: Entry): seq<Outcome> {
    match entry
    case File(name) => [Found(Join(path, name))]
    case Broken(name) => [Failed(Join(path, name))]
    case Folder(_, _, _) => []
  }

  /** The directories among the entries. */
  function Subdirectories(path: Path, entries: seq<Entry>): seq<Directory> {
    if entries == [] then []
    else SubdirectoryOf(path, entries[0]) + Subdirectories(path, entries[1..])
  }

  function SubdirectoryOf(path: Path, entry: Entry): seq<Directory> {
    match entry
    case Folder(name, openable, entries) =>
      if IsSelfOrParent(name) then [] else [Directory(Join(path, name), openable, entries)]
    case _ => []
  }

  function Size(entry: Entry): nat {
    match entry
    case Folder(_, _, entries) => 2 + Sizes(entries)
    case _ => 1
  }

  function Sizes(entries: seq<Entry>): nat {
    if entries == [] then 0 else Size(entries[0]) + Sizes(entries[1..])
  }

  /** Entries left below the directories of a queue. */
  function Unexplored(queue: seq<Directory>): nat {
    if queue == [] then 0 else 1 + Sizes(queue[0].entries) + Unexplored(queue[1..])
  }

  lemma {:induction false} UnexploredConcat(queue: seq<Directory>, more: seq<Directory>)
    ensures Unexplored(queue + more) == Unexplored(queue) + Unexplored(more)
  {
    hide Sizes;
    if queue == [] {
      assert queue + more == more;
    } else {
      assert (queue + more)[1..] == queue[1..] + more;
      UnexploredConcat(queue[1..], more);
    }
  }

  lemma {:induction false} SubdirectoriesAreSmaller(path: Path, entries: seq<Entry>)
    ensures Unexplored(Subdirectories(path, entries)) <= Sizes(entries)
  {
    if entries != [] {
      SubdirectoriesAreSmaller(path, entries[1..]);
      UnexploredConcat(SubdirectoryOf(path, entries[0]), Subdirectories(path, entries[1..]));
      assert SubdirectoryOf(path, entries[0]) == [] || SubdirectoryOf(path, entries[0])[1..] == [];
    }
  }

  /** What a directory gives when its turn comes: nothing if it cannot be opened. */
  function Here(d: Directory): seq<Outcome> {
    if d.openable then Outcomes(d.path, d.entries) else []
  }

  function Below(d: Directory): seq<Directory> {
    if d.openable then Subdirectories(d.path, d.entries) else []
  }

  lemma BelowIsSmaller(d: Directory)
    ensures Unexplored(Below(d)) <= Sizes(d.entries)
  {
    SubdirectoriesAreSmaller(d.path, d.entries);
  }

  lemma Smaller(queue: seq<Directory>)
    requires queue != []
    ensures Unexplored(queue[1..] + Below(queue[0])) < Unexplored(queue)
  {
    UnexploredConcat(queue[1..], Below(queue[0]));
    BelowIsSmaller(queue[0]);
  }

  /** The outcomes below the directories of a queue, whose subdirectories are queued behind them. */
  function BreadthFirst(queue: seq<Directory>): seq<Outcome>
    decreases Unexplored(queue)
  {
    if queue == [] then []
    else
      Smaller(queue);
      Here(queue[0]) + BreadthFirst(queue[1..] + Below(queue[0]))
  }

  /** The outcomes to come when `entries` of the directory at `path` are unread. */
  function Ahead(path: Path, entries: seq<Entry>, queue: seq<Directory>): seq<Outcome> {
    Outcomes(path, entries) + BreadthFirst(queue + Subdirectories(path, entries))
  }

  function WorkAhead(entries: seq<Entry>, queue: seq<Directory>): nat {
    Sizes(entries) + Unexplored(queue)
  }

  /** Reading one entry: its outcome comes first, or its directory goes to the end of the queue. */
  lemma ReadEntry(path: Path, entries: seq<Entry>, queue: seq<Directory>)
    requires entries != []
    ensures Ahead(path, entries, queue)
            == OutcomeOf(path, entries[0]) + Ahead(path, entries[1..], queue + SubdirectoryOf(path, entries[0]))
    ensures WorkAhead(entries[1..], queue + SubdirectoryOf(path, entries[0])) < WorkAhead(entries, queue)
  {
    EntryWork(path, entries, queue);
    hide BreadthFirst, OutcomeOf, SubdirectoryOf, WorkAhead;
    var here, rest := SubdirectoryOf(path, entries[0]), Subdirectories(path, entries[1..]);
    assert queue + (here + rest) == (queue + here) + rest;
  }

  lemma EntryWork(path: Path, entries: seq<Entry>, queue: seq<Directory>)
    requires entries != []
    ensures WorkAhead(entries[1..], queue + SubdirectoryOf(path, entries[0])) < WorkAhead(entries, queue)
  {
    var here := SubdirectoryOf(path, entries[0]);
    UnexploredConcat(queue, here);
    assert Sizes(entries) == Size(entries[0]) + Sizes(entries[1..]);
    if here != [] {
      assert Unexplored(here) == 1 + Sizes(here[0].entries) + Unexplored(here[1..]);
      assert Size(entries[0]) == 2 + Sizes(here[0].entries);
    }
  }

  /** With the current directory read to its end, what comes is what the queue gives. */
  lemma NothingUnread(path: Path, queue: seq<Directory>)
    ensures Ahead(path, [], queue) == BreadthFirst(queue) && WorkAhead([], queue) == Unexplored(queue)
  {
    assert queue + [] == queue;
    hide BreadthFirst;
  }

  /** Going on to the next directory of the queue. */
  lemma OpenDirectory(queue: seq<Directory>)
    requires queue != []
    ensures BreadthFirst(queue)
            == if queue[0].openable then Ahead(queue[0].path, queue[0].entries, queue[1..]) else BreadthFirst(queue[1..])
    ensures WorkAhead(queue[0].entries, queue[1..]) < Unexplored(queue)
    ensures Unexplored(queue[1..]) < Unexplored(queue)
  {
    hide Subdirectories, Sizes, Outcomes;
    assert queue[1..] + [] == queue[1..];
  }

  // ----- What a search hands out -----

  function Files(outcomes: seq<Outcome>): seq<Path> {
    if outcomes == [] then []
    else (if outcomes[0].Found? then [outcomes[0].path] else []) + Files(outcomes[1..])
  }

  function Failures(outcomes: seq<Outcome>): seq<Path> {
    if outcomes == [] then []
    else (if outcomes[0].Failed? then [outcomes[0].path] else []) + Failures(outcomes[1..])
  }

  lemma FirstOutcome(outcomes: seq<Outcome>)
    ensures outcomes == [] ==> Files(outcomes) == [] && Failures(outcomes) == []
    ensures outcomes != [] && outcomes[0].Found? ==>
              Files(outcomes) == [outcomes[0].path] + Files(outcomes[1..]) && Failures(outcomes) == Failures(outcomes[1..])
    ensures outcomes != [] && outcomes[0].Failed? ==>
              Files(outcomes) == Files(outcomes[1..]) && Failures(outcomes) == [outcomes[0].path] + Failures(outcomes[1..])
  {
  }

  /** The outcomes of exploring a path. */
  function Search(path: Path, root: Entry): seq<Outcome> {
    match root
    case Folder(_, openable, entries) => BreadthFirst([Directory(path, openable, entries)])
    case _ => [Found(path)]
  }

  /** A path can be explored when it is there and, for a directory, can be found and gives no failure
      before its first file. */
  predicate Opens(path: Path, found: Option<Entry>) {
    match found
    case None => false
    case Some(root) => root.Folder? ==> root.openable && (Search(path, root) != [] ==> Search(path, root)[0].Found?)
  }

  // ----- What a search reaches -----

  /** The outcomes of a plain recursive walk: those of a directory, then those below each of its
      subdirectories in turn. */
  function Walk(queue: seq<Directory>): seq<Outcome>
    decreases Unexplored(queue)
  {
    if queue == [] then []
    else
      BelowIsSmaller(queue[0]);
      Here(queue[0]) + Walk(Below(queue[0])) + Walk(queue[1..])
  }

  lemma {:induction false} WalkConcat(queue: seq<Directory>, more: seq<Directory>)
    ensures Walk(queue + more) == Walk(queue) + Walk(more)
  {
    hide Here, Below;
    if queue == [] {
      assert queue + more == more;
    } else {
      assert (queue + more)[1..] == queue[1..] + more;
      WalkConcat(queue[1..], more);
    }
  }

  /** The search meets everything that the walk meets, each as often. */
  lemma {:induction false} SearchIsComplete(queue: seq<Directory>)
    ensures multiset(BreadthFirst(queue)) == multiset(Walk(queue))
    decreases Unexplored(queue)
  {
    hide Here, Below;
    if queue != [] {
      Smaller(queue);
      SearchIsComplete(queue[1..] + Below(queue[0]));
      WalkConcat(queue[1..], Below(queue[0]));
    }
  }

  /** Folders from `root` down, each listed in the one before it, all openable, none of them a name for
      a folder itself or its parent. */
  predicate IsChain(root: Entry, folders: seq<Entry>) {
    && folders != [] && folders[0] == root
    && (forall k | 0 <= k < |folders| :: folders[k].Folder? && folders[k].openable)
    && (forall k | 0 < k < |folders| :: folders[k] in folders[k - 1].entries && folders[k].name != "." && folders[k].name != "..")
  }

  /** The path of the last folder, `path` being that of the first. */
  function PathTo(path: Path, folders: seq<Entry>): Path
    decreases |folders|
  {
    if |folders| <= 1 then path else PathTo(path + "/" + folders[1].name, folders[1..])
  }

  /** The entry is listed in the last folder of a chain, and `x` is its path. */
  predicate Reaches(path: Path, root: Entry, folders: seq<Entry>, entry: Entry, x: Path) {
    IsChain(root, folders) && entry in folders[|folders| - 1].entries && x == PathTo(path, folders) + "/" + entry.name
  }

  /** `x` is the path of a file, or else of a name that cannot be examined, below a folder. */
  ghost predicate IsBelow(path: Path, root: Entry, isFile: bool, x: Path) {
    exists folders: seq<Entry>, entry: Entry | Reaches(path, root, folders, entry, x) :: if isFile then entry.File? else entry.Broken?
  }

  function OutcomeAt(isFile: bool, x: Path): Outcome {
    if isFile then Found(x) else Failed(x)
  }

  lemma {:induction false} EntryMet(path: Path, entries: seq<Entry>, entry: Entry)
    requires entry in entries
    ensures entry.File? ==> Found(path + "/" + entry.name) in Outcomes(path, entries)
    ensures entry.Broken? ==> Failed(path + "/" + entry.name) in Outcomes(path, entries)
    ensures entry.Folder? && entry.name != "." && entry.name != ".." ==>
              Directory(path + "/" + entry.name, entry.openable, entry.entries) in Subdirectories(path, entries)
  {
    if entry != entries[0] {
      EntryMet(path, entries[1..], entry);
    }
  }

  lemma {:induction false} OutcomeComesFrom(path: Path, entries: seq<Entry>, o: Outcome) returns (entry: Entry)
    requires o in Outcomes(path, entries)
    ensures entry in entries && o.path == path + "/" + entry.name && (if o.Found? then entry.File? else entry.Broken?)
  {
    if o in OutcomeOf(path, entries[0]) {
      entry := entries[0];
    } else {
      entry := OutcomeComesFrom(path, entries[1..], o);
    }
  }

  lemma {:induction false} SubdirectoryComesFrom(path: Path, entries: seq<Entry>, d: Directory) returns (entry: Entry)
    requires d in Subdirectories(path, entries)
    ensures entry in entries && entry == Folder(entry.name, d.openable, d.entries)
    ensures d.path == path + "/" + entry.name && entry.name != "." && entry.name != ".."
  {
    if d in SubdirectoryOf(path, entries[0]) {
      entry := entries[0];
    } else {
      entry := SubdirectoryComesFrom(path, entries[1..], d);
    }
  }

  lemma {:induction false} WalkMeets(queue: seq<Directory>, d: Directory, o: Outcome)
    requires d in queue && (o in Here(d) || o in Walk(Below(d)))
    ensures o in Walk(queue)
  {
    hide Here, Below;
    if d != queue[0] {
      WalkMeets(queue[1..], d, o);
    }
  }

  /** What the walk meets is in one of its directories. */
  lemma {:induction false} WalkComesFrom(queue: seq<Directory>, o: Outcome) returns (d: Directory)
    requires o in Walk(queue)
    ensures d in queue && (o in Here(d) || o in Walk(Below(d)))
  {
    hide Here, Below;
    if o in Here(queue[0]) || o in Walk(Below(queue[0])) {
      d := queue[0];
    } else {
      d := WalkComesFrom(queue[1..], o);
    }
  }

  lemma ChainGoesOn(root: Entry, folders: seq<Entry>)
    requires IsChain(root, folders) && |folders| > 1
    ensures IsChain(folders[1], folders[1..]) && folders[1] in root.entries && folders[1].Folder? && folders[1].openable
    ensures folders[1].name != "." && folders[1].name != ".."
  {
  }

  lemma ChainFrom(root: Entry, next: Entry, folders: seq<Entry>)
    requires root.Folder? && root.openable && next in root.entries && next.name != "." && next.name != ".." && IsChain(next, folders)
    ensures IsChain(root, [root] + folders)
  {
  }

  /** The walk meets every entry at the end of a chain. */
  lemma {:induction false} ChainIsWalked(d: Directory, root: Entry, folders: seq<Entry>, entry: Entry, x: Path)
    requires Reaches(d.path, root, folders, entry, x) && root.entries == d.entries && d.openable && !entry.Folder?
    ensures OutcomeAt(entry.File?, x) in Here(d) || OutcomeAt(entry.File?, x) in Walk(Below(d))
    decreases |folders|
  {
    if |folders| == 1 {
      EntryMet(d.path, d.entries, entry);
    } else {
      ChainGoesOn(root, folders);
      hide IsChain, Walk;
      var next := folders[1];
      EntryMet(d.path, d.entries, next);
      var below := Directory(d.path + "/" + next.name, true, next.entries);
      ChainIsWalked(below, next, folders[1..], entry, x);
      WalkMeets(Below(d), below, OutcomeAt(entry.File?, x));
    }
  }

  /** And whatever it meets is at the end of a chain. */
  lemma {:induction false} WalkedIsChain(d: Directory, root: Entry, o: Outcome) returns (folders: seq<Entry>, entry: Entry)
    requires root == Folder(root.name, d.openable, d.entries) && (o in Here(d) || o in Walk(Below(d)))
    ensures Reaches(d.path, root, folders, entry, o.path) && (if o.Found? then entry.File? else entry.Broken?)
    decreases Sizes(d.entries)
  {
    if o in Here(d) {
      folders := [root];
      entry := OutcomeComesFrom(d.path, d.entries, o);
    } else {
      var below := WalkComesFrom(Below(d), o);
      var next := SubdirectoryComesFrom(d.path, d.entries, below);
      EntryIsSmaller(d.entries, next);
      hide Walk, Here, Below, IsChain, PathTo;
      var rest;
      rest, entry := WalkedIsChain(below, next, o);
      folders := [root] + rest;
      OneFolderMore(d.path, root, next, rest, entry, o.path);
    }
  }

  lemma OneFolderMore(path: Path, root: Entry, next: Entry, rest: seq<Entry>, entry: Entry, x: Path)
    requires root.Folder? && root.openable && next in root.entries && next.name != "." && next.name != ".."
    requires Reaches(path + "/" + next.name, next, rest, entry, x)
    ensures Reaches(path, root, [root] + rest, entry, x)
  {
    ChainFrom(root, next, rest);
    assert ([root] + rest)[1..] == rest;
    hide IsChain;
  }

  lemma {:induction false} EntryIsSmaller(entries: seq<Entry>, entry: Entry)
    requires entry in entries && entry.Folder?
    ensures Sizes(entry.entries) < Sizes(entries)
  {
    if entry != entries[0] {
      EntryIsSmaller(entries[1..], entry);
    }
  }

  lemma {:induction false} OutcomesOf(outcomes: seq<Outcome>, x: Path)
    ensures x in Files(outcomes) <==> Found(x) in outcomes
    ensures x in Failures(outcomes) <==> Failed(x) in outcomes
  {
    if outcomes != [] {
      OutcomesOf(outcomes[1..], x);
    }
  }

  lemma SearchIsWalk(path: Path, root: Entry, o: Outcome)
    requires root.Folder?
    ensures o in Search(path, root) <==> o in Walk([Directory(path, root.openable, root.entries)])
  {
    var queue := [Directory(path, root.openable, root.entries)];
    hide Walk, BreadthFirst;
    SearchIsComplete(queue);
    assert o in BreadthFirst(queue) <==> o in multiset(Walk(queue));
  }

  /** The search of a directory meets exactly what chains of openable folders lead to. */
  lemma SearchMeets(path: Path, root: Entry, isFile: bool, x: Path)
    requires root.Folder? && root.openable
    ensures OutcomeAt(isFile, x) in Search(path, root) <==> IsBelow(path, root, isFile, x)
  {
    var d := Directory(path, root.openable, root.entries);
    var o := OutcomeAt(isFile, x);
    SearchIsWalk(path, root, o);
    hide Search, Walk, Here, Below, Reaches;
    if o in Walk([d]) {
      var from := WalkComesFrom([d], o);
      var folders, entry := WalkedIsChain(from, root, o);
    }
    if IsBelow(path, root, isFile, x) {
      var folders: seq<Entry>, entry: Entry :| Reaches(path, root, folders, entry, x) && if isFile then entry.File? else entry.Broken?;
      ChainIsWalked(d, root, folders, entry, x);
      WalkMeets([d], d, o);
    }
  }

  /** The files handed out are those that chains of openable folders lead to, and no others; so are the
      names reported that cannot be examined. */
  lemma SearchReaches(path: Path, root: Entry, x: Path)
    requires root.Folder? && root.openable
    ensures x in Files(Search(path, root)) <==> IsBelow(path, root, true, x)
    ensures x in Failures(Search(path, root)) <==> IsBelow(path, root, false, x)
  {
    hide Search, IsBelow;
    SearchMeets(path, root, true, x);
    SearchMeets(path, root, false, x);
    OutcomesOf(Search(path, root), x);
  }

  // ----- The explorer -----

  class DirectoryExplorer {
    var nextFile: Path
    var currentDirectory: Path
    var directory: seq<Entry>  // the entries of the current directory not yet read
    var directoriesQueue: seq<Directory>
    var filesAvailable: bool
    var rootIsFile: bool

    function Unread(): seq<Outcome>
      reads this
    {
      Ahead(currentDirectory, directory, directoriesQueue)
    }

    function Left(): nat
      reads this
    {
      WorkAhead(directory, directoriesQueue)
    }

    /** The files still to be handed out. */
    function Remaining(): seq<Path>
      reads this
    {
      if filesAvailable then [nextFile] + Files(Unread()) else []
    }

    ghost predicate Valid()
      reads this
    {
      rootIsFile || !filesAvailable ==> Unread() == []
    }

    constructor ()
      ensures Valid() && !filesAvailable
    {
      nextFile, currentDirectory, directory, directoriesQueue, filesAvailable, rootIsFile := "", "", [], [], false, false;
    }

    /** Starts at a path, where `found` is what is there. */
    method Open(path: Path, found: Option<Entry>) returns (error: Option<Error>)
      requires found.Some? ==> !found.value.Broken?
      modifies this
      ensures error.None? <==> Opens(path, found)
      ensures error.None? ==> Valid() && Remaining() == Files(Search(path, found.value))
      ensures error.None? ==> Failures(Unread()) == Failures(Search(path, found.value))
    {
      if found.None? {
        return Some(NoSuchPath);
      }
      hide Ahead, BreadthFirst, WorkAhead;
      currentDirectory, directory, directoriesQueue, filesAvailable := path, [], [], true;
      rootIsFile := !found.value.Folder?;
      if rootIsFile {
        NothingUnread(path, []);
        FirstOutcome([Found(path)]);
        nextFile := path;
        return None;
      }
      if !found.value.openable {
        return Some(CannotOpen);
      }
      directory := found.value.entries;
      OpenDirectory([Directory(path, true, found.value.entries)]);
      assert Unread() == Search(path, found.value);
      hide Search, Files, Failures;
      FirstOutcome(Unread());
      error := FindNextFile();
    }

    method HasNextFile() returns (available: bool)
      requires Valid()
      ensures available <==> Remaining() != []
    {
      available := filesAvailable;
    }

    /** The file found last, once the one after it has been found. When that search fails, the file is
        kept for the next call. */
    method GetNextFileName() returns (file: Result<Path, Path>)
      requires Valid() && filesAvailable
      modifies this
      ensures Valid()
      ensures file.Success? ==> old(Remaining()) == [file.value] + Remaining() && Failures(old(Unread())) == Failures(Unread())
      ensures file.Failure? ==> old(Remaining()) == Remaining() && Failures(old(Unread())) == [file.error] + Failures(Unread())
      ensures !filesAvailable || Left() < old(Left())
    {
      hide Ahead, BreadthFirst, WorkAhead;
      if rootIsFile {
        filesAvailable := false;
        return Success(nextFile);
      }
      hide Files, Failures;
      FirstOutcome(Unread());
      var currentFile := nextFile;
      var error := FindNextFile();
      match error
      case None => file := Success(currentFile);
      case Some(CannotExamine(path)) => file := Failure(path);
    }

    /** One outcome further: a file becomes the next one, a failure is reported, and at the end no file
        is available any more. */
    method FindNextFile() returns (error: Option<Error>)
      requires !rootIsFile && filesAvailable
      modifies this
      ensures Valid() && rootIsFile == old(rootIsFile)
      ensures old(Unread()) == [] ==> error == None && !filesAvailable
      ensures old(Unread()) != [] ==> filesAvailable && Unread() == old(Unread())[1..] && Left() < old(Left())
      ensures old(Unread()) != [] ==> match old(Unread())[0]
              case Found(path) => error == None && nextFile == path
              case Failed(path) => error == Some(CannotExamine(path)) && nextFile == old(nextFile)
    {
      hide Ahead, BreadthFirst, WorkAhead;
      while true
        invariant Unread() == old(Unread()) && Left() <= old(Left())
        invariant filesAvailable && !rootIsFile && nextFile == old(nextFile)
        decreases Left()
      {
        if |directory| > 0 {
          ReadEntry(currentDirectory, directory, directoriesQueue);
          var entry := directory[0];
          var entryPath := Join(currentDirectory, entry.name);
          directory := directory[1..];
          assert directoriesQueue + [] == directoriesQueue;
          if entry.Broken? {
            return Some(CannotExamine(entryPath));
          }
          if entry.File? {
            nextFile := entryPath;
            return None;
          }
          if !IsSelfOrParent(entry.name) {
            directoriesQueue := directoriesQueue + [Directory(entryPath, entry.openable, entry.entries)];
          }
        } else {
          var found := OpenNextDirectory();
          if !found {
            nextFile := "";
            filesAvailable := false;
            return None;
          }
        }
      }
    }

    /** Passes over the directories that cannot be found; reports whether one could. */
    method OpenNextDirectory() returns (found: bool)
      requires directory == []
      modifies `currentDirectory, `directory, `directoriesQueue
      ensures Unread() == old(Unread())
      ensures if found then Left() < old(Left()) else Unread() == []
    {
      hide Ahead, BreadthFirst, WorkAhead;
      found := false;
      NothingUnread(currentDirectory, directoriesQueue);
      while !found
        invariant Unread() == old(Unread()) && Left() <= old(Left())
        invariant if found then Left() < old(Left()) else directory == []
        decreases !found, |directoriesQueue|
      {
        NothingUnread(currentDirectory, directoriesQueue);
        if |directoriesQueue| == 0 {
          EmptyQueue();
          return false;
        }
        OpenDirectory(directoriesQueue);
        var next := directoriesQueue[0];
        NothingUnread(next.path, directoriesQueue[1..]);
        currentDirectory := next.path;
        directoriesQueue := directoriesQueue[1..];
        found := next.openable;
        directory := if found then next.entries else [];
      }
    }
  }

  lemma EmptyQueue()
    ensures BreadthFirst([]) == []
  {
  }

  lemma SearchOfFile(path: Path, root: Entry)
    ensures root.File? ==> Files(Search(path, root)) == [path] && Failures(Search(path, root)) == []
  {
    assert [Found(path)][1..] == [];
  }

  /** Hands out everything, trying again after a failure as the server does. */
  method ListAll(explorer: DirectoryExplorer, ghost all: seq<Outcome>) returns (names: seq<Path>, failures: seq<Path>)
    requires explorer.Valid() && explorer.Remaining() == Files(all) && Failures(explorer.Unread()) == Failures(all)
    modifies explorer
    ensures names == Files(all) && failures == Failures(all)
  {
    hide BreadthFirst, Ahead, WorkAhead, Files, Failures;
    FirstOutcome([]);
    names, failures := [], [];
    while explorer.filesAvailable
      invariant explorer.Valid()
      invariant names + explorer.Remaining() == Files(all)
      invariant failures + Failures(explorer.Unread()) == Failures(all)
      decreases explorer.filesAvailable, explorer.Left()
    {
      var file := explorer.GetNextFileName();
      match file
      case Success(name) => names := names + [name];
      case Failure(at) => failures := failures + [at];
    }
  }

  /** All files below a path and all names that could not be examined, in the order of the search. */
  method Explore(path: Path, found: Option<Entry>) returns (error: Option<Error>, names: seq<Path>, failures: seq<Path>)
    requires found.Some? ==> !found.value.Broken?
    ensures error.None? <==> Opens(path, found)
    ensures error.None? ==> names == Files(Search(path, found.value)) && failures == Failures(Search(path, found.value))
    ensures error.None? && found.value.Folder? ==>
              forall x :: (x in names <==> IsBelow(path, found.value, true, x)) && (x in failures <==> IsBelow(path, found.value, false, x))
    ensures error.None? && found.value.File? ==> names == [path] && failures == []
  {
    hide Search, BreadthFirst, Ahead, WorkAhead, IsBelow;
    var explorer := new DirectoryExplorer();
    error := explorer.Open(path, found);
    names, failures := [], [];
    if error.None? {
      names, failures := ListAll(explorer, Search(path, found.value));
      SearchOfFile(path, found.value);
      if found.value.Folder? {
        forall x {
          SearchReaches(path, found.value, x);
        }
      }
    }
  }

  // ----- The order is by levels -----

  /** The outcomes of the directories of one level, in order. */
  function LevelOutcomes(level: seq<Directory>): seq<Outcome> {
    if level == [] then [] else Here(level[0]) + LevelOutcomes(level[1..])
  }

  /** The directories one level down. */
  function NextLevel(level: seq<Directory>): seq<Directory> {
    if level == [] then [] else Below(level[0]) + NextLevel(level[1..])
  }

  lemma {:induction false} NextLevelIsSmaller(level: seq<Directory>)
    ensures Unexplored(NextLevel(level)) <= Unexplored(level)
    ensures level != [] ==> Unexplored(NextLevel(level)) < Unexplored(level)
  {
    hide Below, Sizes;
    if level != [] {
      NextLevelIsSmaller(level[1..]);
      BelowIsSmaller(level[0]);
      UnexploredConcat(Below(level[0]), NextLevel(level[1..]));
    }
  }

  /** One level after the other. */
  function LevelOrder(level: seq<Directory>): seq<Outcome>
    decreases Unexplored(level)
  {
    if level == [] then []
    else
      NextLevelIsSmaller(level);
      LevelOutcomes(level) + LevelOrder(NextLevel(level))
  }

  /** In the middle of a level, with the subdirectories found so far already queued. */
  lemma {:induction false} WithinLevel(level: seq<Directory>, found: seq<Directory>)
    ensures BreadthFirst(level + found) == LevelOutcomes(level) + LevelOrder(found + NextLevel(level))
    decreases Unexplored(level + found), |found|
  {
    hide Here, Below, Unexplored;
    if level == [] {
      assert level + found == found && found + [] == found;
      if found != [] {
        WithinLevel(found, []);
        assert [] + NextLevel(found) == NextLevel(found);
      }
    } else {
      OneDirectory(level, found);
      WithinLevel(level[1..], found + Below(level[0]));
    }
  }

  lemma OneDirectory(level: seq<Directory>, found: seq<Directory>)
    requires level != []
    ensures BreadthFirst(level + found) == Here(level[0]) + BreadthFirst(level[1..] + (found + Below(level[0])))
    ensures found + NextLevel(level) == found + Below(level[0]) + NextLevel(level[1..])
    ensures Unexplored(level[1..] + (found + Below(level[0]))) < Unexplored(level + found)
  {
    hide Here, Below, Unexplored, LevelOutcomes, BreadthFirst;
    Unfold(level + found);
    assert (level + found)[1..] + Below(level[0]) == level[1..] + (found + Below(level[0]));
    assert found + (Below(level[0]) + NextLevel(level[1..])) == found + Below(level[0]) + NextLevel(level[1..]);
  }

  lemma Unfold(queue: seq<Directory>)
    requires queue != []
    ensures BreadthFirst(queue) == Here(queue[0]) + BreadthFirst(queue[1..] + Below(queue[0]))
    ensures Unexplored(queue[1..] + Below(queue[0])) < Unexplored(queue)
  {
    hide Here, Below;
    Smaller(queue);
  }

  /** The search hands out a tree level by level: all that a level lists, then the next one. */
  lemma SearchIsByLevels(level: seq<Directory>)
    ensures BreadthFirst(level) == LevelOrder(level)
  {
    hide BreadthFirst, LevelOutcomes, NextLevel;
    WithinLevel(level, []);
    assert level + [] == level;
    assert [] + NextLevel(level) == NextLevel(level);
    NoLevel();
  }

  lemma NoLevel()
    ensures BreadthFirst([]) == LevelOrder([])
  {
  }

  // ----- No file twice -----

  /** How often a path occurs among outcomes. */
  function PathCount(outcomes: seq<Outcome>, x: Path): nat {
    if outcomes == [] then 0 else (if outcomes[0].path == x then 1 else 0) + PathCount(outcomes[1..], x)
  }

  lemma {:induction false} PathCountConcat(first: seq<Outcome>, second: seq<Outcome>, x: Path)
    ensures PathCount(first + second, x) == PathCount(first, x) + PathCount(second, x)
  {
    if first == [] {
      assert first + second == second;
    } else {
      assert (first + second)[1..] == first[1..] + second;
      PathCountConcat(first[1..], second, x);
    }
  }

  /** The search and the walk meet each path equally often. */
  lemma {:induction false} SameCounts(queue: seq<Directory>, x: Path)
    ensures PathCount(BreadthFirst(queue), x) == PathCount(Walk(queue), x)
    decreases Unexplored(queue)
  {
    if queue != [] {
      Unfold(queue);
      hide Here, Below, BreadthFirst, PathCount;
      SameCounts(queue[1..] + Below(queue[0]), x);
      WalkConcat(queue[1..], Below(queue[0]));
      PathCountConcat(Here(queue[0]), BreadthFirst(queue[1..] + Below(queue[0])), x);
      PathCountConcat(Walk(queue[1..]), Walk(Below(queue[0])), x);
      PathCountConcat(Here(queue[0]) + Walk(Below(queue[0])), Walk(queue[1..]), x);
      PathCountConcat(Here(queue[0]), Walk(Below(queue[0])), x);
    }
  }

  predicate NoSlash(name: string) {
    '/' !in name
  }

  /** As a file system has it: within a directory all names differ, and none contains a slash. */
  predicate DistinctNames(entries: seq<Entry>) {
    && (forall i | 0 <= i < |entries| :: NoSlash(entries[i].name))
    && (forall i, j | 0 <= i < j < |entries| :: entries[i].name != entries[j].name)
  }

  ghost predicate WellNamed(entries: seq<Entry>) {
    && DistinctNames(entries)
    && forall i | 0 <= i < |entries| && entries[i].Folder? :: WellNamed(entries[i].entries)
  }

  /** The path lies below the directory. */
  predicate Under(x: Path, directory: Path) {
    |directory| < |x| && x[..|directory|] == directory && x[|directory|] == '/'
  }

  lemma JoinIsUnder(directory: Path, name: string)
    ensures Under(Join(directory, name), directory)
  {
  }

  lemma UnderTransitive(x: Path, y: Path, z: Path)
    requires Under(x, y) && Under(y, z)
    ensures Under(x, z)
  {
    assert x[..|z|] == x[..|y|][..|z|] == y[..|z|];
    assert x[|z|] == x[..|y|][|z|] == y[|z|];
  }

  /** A path that is one entry of a directory, or lies below it, belongs to no other entry. */
  lemma OneEntry(directory: Path, x: Path, name: string, other: string)
    requires NoSlash(name) && NoSlash(other)
    requires x == Join(directory, name) || Under(x, Join(directory, name))
    requires x == Join(directory, other) || Under(x, Join(directory, other))
    ensures name == other
  {
    var n := |directory| + 1;
    NamePart(directory, x, name);
    NamePart(directory, x, other);
    assert forall k | 0 <= k < |name| :: name[k] == x[n + k] && name[k] in name;
    assert forall k | 0 <= k < |other| :: other[k] == x[n + k] && other[k] in other;
    assert |name| == |other|;
  }

  lemma NamePart(directory: Path, x: Path, name: string)
    requires x == Join(directory, name) || Under(x, Join(directory, name))
    ensures var n := |directory| + 1;
            n + |name| <= |x| && x[n..n + |name|] == name && (n + |name| == |x| || x[n + |name|] == '/')
  {
    var n := |directory| + 1;
    var y := Join(directory, name);
    assert y[n..] == name;
    assert x[..|y|] == y;
    assert x[n..|y|] == x[..|y|][n..];
  }

  predicate IsEntry(path: Path, entries: seq<Entry>, i: nat, x: Path) {
    i < |entries| && !entries[i].Folder? && x == Join(path, entries[i].name)
  }

  /** A path met in a directory is an entry of it, met once. */
  lemma {:induction false} EntryOnce(path: Path, entries: seq<Entry>, x: Path)
    requires DistinctNames(entries)
    ensures PathCount(Outcomes(path, entries), x) <= 1
    ensures PathCount(Outcomes(path, entries), x) > 0 ==> exists i: nat :: IsEntry(path, entries, i, x)
  {
    if entries != [] {
      var rest := entries[1..];
      RestDistinct(entries);
      EntryOnce(path, rest, x);
      PathCountConcat(OutcomeOf(path, entries[0]), Outcomes(path, rest), x);
      OwnCount(path, entries[0], x);
      hide Outcomes, OutcomeOf, PathCount, DistinctNames;
      FirstOutcomes(path, entries);
      if PathCount(Outcomes(path, rest), x) > 0 {
        var i: nat :| IsEntry(path, rest, i, x);
        assert IsEntry(path, entries, i + 1, x);
        if !entries[0].Folder? && x == Join(path, entries[0].name) {
          DifferentNames(entries, i + 1);
          OneEntry(path, x, entries[0].name, entries[i + 1].name);
        }
      } else if PathCount(Outcomes(path, entries), x) > 0 {
        assert IsEntry(path, entries, 0, x);
      }
    }
  }

  lemma FirstOutcomes(path: Path, entries: seq<Entry>)
    requires entries != []
    ensures Outcomes(path, entries) == OutcomeOf(path, entries[0]) + Outcomes(path, entries[1..])
  {
    hide OutcomeOf;
  }

  lemma OwnCount(path: Path, entry: Entry, x: Path)
    ensures PathCount(OutcomeOf(path, entry), x) == if !entry.Folder? && x == Join(path, entry.name) then 1 else 0
  {
    var own := OutcomeOf(path, entry);
    if own != [] {
      assert own[1..] == [];
    }
  }

  lemma RestDistinct(entries: seq<Entry>)
    requires DistinctNames(entries) && entries != []
    ensures DistinctNames(entries[1..])
  {
  }

  lemma DifferentNames(entries: seq<Entry>, i: nat)
    requires DistinctNames(entries) && 0 < i < |entries|
    ensures entries[0].name != entries[i].name && NoSlash(entries[0].name) && NoSlash(entries[i].name)
  {
  }

  /** Directories none of which is, or lies below, another. */
  ghost predicate Separate(queue: seq<Directory>) {
    forall i, j, x | 0 <= i < j < |queue| :: !(Under(x, queue[i].path) && Under(x, queue[j].path))
  }

  ghost predicate AllWellNamed(queue: seq<Directory>) {
    forall i | 0 <= i < |queue| :: WellNamed(queue[i].entries)
  }

  ghost predicate UnderOne(queue: seq<Directory>, x: Path) {
    exists i | 0 <= i < |queue| :: Under(x, queue[i].path)
  }

  /** Which entry a subdirectory is. */
  lemma {:induction false} EntryOfSubdirectory(path: Path, entries: seq<Entry>, k: nat) returns (i: nat)
    requires k < |Subdirectories(path, entries)|
    ensures i < |entries| && entries[i].Folder?
    ensures Subdirectories(path, entries)[k] == Directory(Join(path, entries[i].name), entries[i].openable, entries[i].entries)
    ensures |Subdirectories(path, entries[..i])| == k
  {
    var own := SubdirectoryOf(path, entries[0]);
    if k < |own| {
      i := 0;
      assert entries[..0] == [];
    } else {
      var j := EntryOfSubdirectory(path, entries[1..], k - |own|);
      i := j + 1;
      assert entries[..i][1..] == entries[1..][..j];
    }
  }

  lemma SubdirectoriesSeparate(path: Path, entries: seq<Entry>)
    requires WellNamed(entries)
    ensures Separate(Subdirectories(path, entries)) && AllWellNamed(Subdirectories(path, entries))
  {
    hide Subdirectories, Join, WellNamed;
    var subs := Subdirectories(path, entries);
    forall k | 0 <= k < |subs|
      ensures WellNamed(subs[k].entries)
    {
      var i := EntryOfSubdirectory(path, entries, k);
      EntryWellNamed(entries, i);
    }
    forall k, l, x | 0 <= k < l < |subs|
      ensures !(Under(x, subs[k].path) && Under(x, subs[l].path))
    {
      var i := EntryOfSubdirectory(path, entries, k);
      var j := EntryOfSubdirectory(path, entries, l);
      TwoNames(entries, i, j);
      if Under(x, subs[k].path) && Under(x, subs[l].path) {
        OneEntry(path, x, entries[i].name, entries[j].name);
      }
    }
  }

  lemma EntryWellNamed(entries: seq<Entry>, i: nat)
    requires WellNamed(entries) && i < |entries| && entries[i].Folder?
    ensures WellNamed(entries[i].entries)
  {
  }

  lemma TwoNames(entries: seq<Entry>, i: nat, j: nat)
    requires WellNamed(entries) && i < |entries| && j < |entries|
    ensures NoSlash(entries[i].name) && NoSlash(entries[j].name)
    ensures i != j ==> entries[i].name != entries[j].name
  {
  }

  /** What is met in a directory is not met in its subdirectories. */
  lemma HereOrBelow(d: Directory, x: Path)
    requires WellNamed(d.entries) && PathCount(Here(d), x) > 0
    ensures !UnderOne(Below(d), x) && Under(x, d.path)
  {
    EntryOnce(d.path, d.entries, x);
    var i: nat :| IsEntry(d.path, d.entries, i, x);
    JoinIsUnder(d.path, d.entries[i].name);
    hide Outcomes, Join, WellNamed, PathCount;
    forall k | 0 <= k < |Below(d)|
      ensures !Under(x, Below(d)[k].path)
    {
      var j := EntryOfSubdirectory(d.path, d.entries, k);
      TwoNames(d.entries, i, j);
      if Under(x, Below(d)[k].path) {
        OneEntry(d.path, x, d.entries[i].name, d.entries[j].name);
      }
    }
  }

  lemma BelowIsUnder(d: Directory, x: Path)
    requires UnderOne(Below(d), x)
    ensures Under(x, d.path)
  {
    var k :| 0 <= k < |Below(d)| && Under(x, Below(d)[k].path);
    var i := EntryOfSubdirectory(d.path, d.entries, k);
    JoinIsUnder(d.path, d.entries[i].name);
    hide Join, Subdirectories;
    UnderTransitive(x, Join(d.path, d.entries[i].name), d.path);
  }

  lemma HereOnce(d: Directory, x: Path)
    requires WellNamed(d.entries)
    ensures PathCount(Here(d), x) <= 1
    ensures Separate(Below(d)) && AllWellNamed(Below(d))
  {
    if d.openable {
      EntryOnce(d.path, d.entries, x);
      SubdirectoriesSeparate(d.path, d.entries);
    }
  }

  /** The walk meets no path twice, and only paths below its directories. */
  lemma {:induction false} WalkOnce(queue: seq<Directory>, x: Path)
    requires Separate(queue) && AllWellNamed(queue)
    ensures PathCount(Walk(queue), x) <= 1
    ensures PathCount(Walk(queue), x) > 0 ==> UnderOne(queue, x)
    decreases Unexplored(queue)
  {
    if queue != [] {
      var d, rest := queue[0], queue[1..];
      BelowIsSmaller(d);
      assert WellNamed(d.entries);
      HereOnce(d, x);
      WalkOnce(rest, x);
      WalkOnce(Below(d), x);
      PathCountConcat(Here(d) + Walk(Below(d)), Walk(rest), x);
      PathCountConcat(Here(d), Walk(Below(d)), x);
      FirstWalk(queue);
      hide Here, Below, Walk, PathCount, WellNamed, Separate, Under;
      if PathCount(Here(d), x) > 0 {
        HereOrBelow(d, x);
      }
      if PathCount(Walk(Below(d)), x) > 0 {
        BelowIsUnder(d, x);
      }
      if UnderOne(rest, x) {
        NotUnderFirst(queue, x);
      }
      assert Under(x, d.path) ==> UnderOne(queue, x);
    }
  }

  lemma FirstWalk(queue: seq<Directory>)
    requires queue != []
    ensures Walk(queue) == Here(queue[0]) + Walk(Below(queue[0])) + Walk(queue[1..])
  {
    hide Here, Below;
  }

  lemma NotUnderFirst(queue: seq<Directory>, x: Path)
    requires queue != [] && Separate(queue) && UnderOne(queue[1..], x)
    ensures !Under(x, queue[0].path) && UnderOne(queue, x)
  {
    var i :| 0 <= i < |queue[1..]| && Under(x, queue[1..][i].path);
    assert Under(x, queue[i + 1].path);
  }

  lemma {:induction false} FileOfOutcome(outcomes: seq<Outcome>, i: nat)
    requires i < |Files(outcomes)|
    ensures PathCount(outcomes, Files(outcomes)[i]) > 0
  {
    if !outcomes[0].Found? || i > 0 {
      FileOfOutcome(outcomes[1..], if outcomes[0].Found? then i - 1 else i);
    }
  }

  lemma {:induction false} DistinctFiles(outcomes: seq<Outcome>, i: nat, j: nat)
    requires i < j < |Files(outcomes)| && forall x :: PathCount(outcomes, x) <= 1
    ensures Files(outcomes)[i] != Files(outcomes)[j]
  {
    var own := if outcomes[0].Found? then 1 else 0;
    if i < own {
      FileOfOutcome(outcomes[1..], j - 1);
      assert PathCount(outcomes, outcomes[0].path) <= 1;
    } else {
      forall x
        ensures PathCount(outcomes[1..], x) <= 1
      {
        assert PathCount(outcomes, x) <= 1;
      }
      DistinctFiles(outcomes[1..], i - own, j - own);
    }
  }

  /** In a tree whose listings have distinct names without slashes, the search hands out no file twice. */
  lemma NoFileTwice(path: Path, root: Entry)
    requires root.Folder? ==> WellNamed(root.entries)
    ensures forall i, j | 0 <= i < j < |Files(Search(path, root))| :: Files(Search(path, root))[i] != Files(Search(path, root))[j]
  {
    hide BreadthFirst, Walk, WellNamed, Files;
    forall x
      ensures PathCount(Search(path, root), x) <= 1
    {
      match root
      case Folder(_, openable, entries) =>
        var queue := [Directory(path, openable, entries)];
        SameCounts(queue, x);
        WalkOnce(queue, x);
      case _ => assert [Found(path)][1..] == [];
    }
    forall i, j | 0 <= i < j < |Files(Search(path, root))|
      ensures Files(Search(path, root))[i] != Files(Search(path, root))[j]
    {
      DistinctFiles(Search(path, root), i, j);
    }
  }

  // ----- From the top down -----

  /** The slashes in a path: how deep below the root it is, when no name holds one. */
  function Slashes(path: Path): nat {
    if path == [] then 0 else Slashes(path[..|path| - 1]) + if path[|path| - 1] == '/' then 1 else 0
  }

  lemma {:induction false} SlashesBoth(first: Path, second: Path)
    ensures Slashes(first + second) == Slashes(first) + Slashes(second)
  {
    if second == [] {
      assert first + second == first;
    } else {
      assert (first + second)[..|first + second| - 1] == first + second[..|second| - 1];
      SlashesBoth(first, second[..|second| - 1]);
    }
  }

  lemma {:induction false} NoSlashes(name: string)
    requires NoSlash(name)
    ensures Slashes(name) == 0
  {
    if name != [] {
      NoSlashes(name[..|name| - 1]);
    }
  }

  lemma OneSlashMore(directory: Path, name: string)
    requires NoSlash(name)
    ensures Slashes(directory + "/" + name) == Slashes(directory) + 1
  {
    SlashesBoth(directory, "/");
    SlashesBoth(directory + "/", name);
    NoSlashes(name);
    assert Slashes("/") == Slashes([]) + 1;
  }

  lemma HereIsDeeper(d: Directory, o: Outcome)
    requires WellNamed(d.entries) && o in Here(d)
    ensures Slashes(o.path) == Slashes(d.path) + 1
  {
    var entry := OutcomeComesFrom(d.path, d.entries, o);
    var i :| 0 <= i < |d.entries| && d.entries[i] == entry;
    TwoNames(d.entries, i, i);
    hide *;
    OneSlashMore(d.path, entry.name);
  }

  lemma BelowIsDeeper(d: Directory, e: Directory)
    requires WellNamed(d.entries) && e in Below(d)
    ensures Slashes(e.path) == Slashes(d.path) + 1 && WellNamed(e.entries)
  {
    var entry := SubdirectoryComesFrom(d.path, d.entries, e);
    var i :| 0 <= i < |d.entries| && d.entries[i] == entry;
    TwoNames(d.entries, i, i);
    EntryWellNamed(d.entries, i);
    hide *;
    OneSlashMore(d.path, entry.name);
  }

  /** The directories of a queue are of one depth, or of two with the deeper ones behind. */
  ghost predicate Layered(queue: seq<Directory>) {
    && AllWellNamed(queue)
    && (forall i | 0 <= i < |queue| :: Slashes(queue[i].path) <= Slashes(queue[0].path) + 1)
    && (forall i, j | 0 <= i < j < |queue| :: Slashes(queue[i].path) <= Slashes(queue[j].path))
  }

  lemma StaysLayered(queue: seq<Directory>)
    requires Layered(queue) && queue != []
    ensures Layered(queue[1..] + Below(queue[0]))
  {
    var first, rest, below := queue[0], queue[1..], Below(queue[0]);
    var all := rest + below;
    forall i | 0 <= i < |all|
      ensures WellNamed(all[i].entries) && Slashes(first.path) <= Slashes(all[i].path) <= Slashes(first.path) + 1
      ensures i >= |rest| ==> Slashes(all[i].path) == Slashes(first.path) + 1
    {
      if i < |rest| {
        assert all[i] == queue[i + 1];
      } else {
        assert all[i] == below[i - |rest|];
        hide Below, WellNamed, Slashes;
        BelowIsDeeper(first, all[i]);
      }
    }
    hide Below, WellNamed, Slashes;
    assert forall i | 0 <= i < |rest| :: all[i] == queue[i + 1];
  }

  predicate DepthsRise(outcomes: seq<Outcome>, least: nat) {
    && (forall i | 0 <= i < |outcomes| :: least <= Slashes(outcomes[i].path))
    && (forall i, j | 0 <= i < j < |outcomes| :: Slashes(outcomes[i].path) <= Slashes(outcomes[j].path))
  }

  lemma {:induction false} DepthsOfSearch(queue: seq<Directory>, least: nat)
    requires Layered(queue) && (queue != [] ==> least <= Slashes(queue[0].path) + 1)
    ensures DepthsRise(BreadthFirst(queue), least)
    decreases Unexplored(queue)
  {
    if queue == [] {
      assert BreadthFirst(queue) == [];
    } else {
      var next := queue[1..] + Below(queue[0]);
      Smaller(queue);
      StaysLayered(queue);
      Unfold(queue);
      NextIsNoHigher(queue);
      hide BreadthFirst, Below, Here, Layered, Slashes, DepthsRise, Unexplored;
      DepthsOfSearch(next, Slashes(queue[0].path) + 1);
      HereIsLevel(queue);
      Behind(Here(queue[0]), BreadthFirst(next), Slashes(queue[0].path) + 1, least);
    }
  }

  lemma HereIsLevel(queue: seq<Directory>)
    requires Layered(queue) && queue != []
    ensures forall i | 0 <= i < |Here(queue[0])| :: Slashes(Here(queue[0])[i].path) == Slashes(queue[0].path) + 1
  {
    hide Here, WellNamed, Slashes;
    forall i | 0 <= i < |Here(queue[0])|
      ensures Slashes(Here(queue[0])[i].path) == Slashes(queue[0].path) + 1
    {
      HereIsDeeper(queue[0], Here(queue[0])[i]);
    }
  }

  lemma NextIsNoHigher(queue: seq<Directory>)
    requires Layered(queue) && queue != []
    ensures var next := queue[1..] + Below(queue[0]);
            next != [] ==> Slashes(queue[0].path) <= Slashes(next[0].path)
  {
    var next := queue[1..] + Below(queue[0]);
    if |queue| > 1 {
      assert next[0] == queue[1];
    } else if next != [] {
      assert next[0] == Below(queue[0])[0];
      hide Below, WellNamed, Slashes;
      BelowIsDeeper(queue[0], next[0]);
    }
  }

  lemma Behind(first: seq<Outcome>, second: seq<Outcome>, depth: nat, least: nat)
    requires least <= depth && DepthsRise(second, depth)
    requires forall i | 0 <= i < |first| :: Slashes(first[i].path) == depth
    ensures DepthsRise(first + second, least)
  {
    hide Slashes;
  }

  lemma {:induction false} FilesRise(outcomes: seq<Outcome>, least: nat)
    requires DepthsRise(outcomes, least)
    ensures forall i | 0 <= i < |Files(outcomes)| :: least <= Slashes(Files(outcomes)[i])
    ensures forall i, j | 0 <= i < j < |Files(outcomes)| :: Slashes(Files(outcomes)[i]) <= Slashes(Files(outcomes)[j])
  {
    hide Slashes;
    if outcomes != [] {
      var depth := Slashes(outcomes[0].path);
      assert DepthsRise(outcomes[1..], depth);
      FilesRise(outcomes[1..], depth);
    }
  }

  /** Files are handed out from the top down: none comes before one that is less deep. */
  lemma TopDown(path: Path, root: Entry)
    requires root.Folder? ==> WellNamed(root.entries)
    ensures forall i, j | 0 <= i < j < |Files(Search(path, root))| :: Slashes(Files(Search(path, root))[i]) <= Slashes(Files(Search(path, root))[j])
  {
    hide BreadthFirst, WellNamed, Slashes, Files;
    match root {
      case Folder(_, openable, entries) =>
        var queue := [Directory(path, openable, entries)];
        DepthsOfSearch(queue, 0);
        FilesRise(Search(path, root), 0);
      case _ =>
        SearchOfOne(path, root);
    }
  }

  lemma SearchOfOne(path: Path, root: Entry)
    requires !root.Folder?
    ensures Files(Search(path, root)) == [path]
  {
    assert [Found(path)][1..] == [];
  }

  /** The files of one directory are handed out in the order listed. */
  lemma {:induction false} InListingOrder(path: Path, entries: seq<Entry>)
    requires forall i | 0 <= i < |entries| :: entries[i].File?
    ensures Files(Outcomes(path, entries)) == seq(|entries|, i requires 0 <= i < |entries| => path + "/" + entries[i].name)
    ensures Subdirectories(path, entries) == []
  {
    if entries != [] {
      InListingOrder(path, entries[1..]);
      assert Outcomes(path, entries) == [Found(path + "/" + entries[0].name)] + Outcomes(path, entries[1..]);
      assert Outcomes(path, entries)[1..] == Outcomes(path, entries[1..]);
    }
  }

  /** So a folder of files gives exactly its files, in that order. */
  lemma FolderOfFiles(path: Path, name: string, entries: seq<Entry>)
    requires forall i | 0 <= i < |entries| :: entries[i].File?
    ensures Files(Search(path, Folder(name, true, entries))) == seq(|entries|, i requires 0 <= i < |entries| => path + "/" + entries[i].name)
  {
    InListingOrder(path, entries);
    var queue := [Directory(path, true, entries)];
    Unfold(queue);
    hide Outcomes, Subdirectories, Files;
    assert queue[1..] + Below(queue[0]) == [];
    EmptyQueue();
    assert Here(queue[0]) + [] == Here(queue[0]);
  }
}
