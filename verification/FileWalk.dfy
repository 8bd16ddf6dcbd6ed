/** The directory walk: a stack of paths still to visit and the directories recorded so far. */
module FileWalk {
  import opened Chains
  import opened FileTree

  /** A path on the stack and the directory it leads to. */
  datatype Node = Node(path: string, dir: Dir)

  // ---------- What is still to come ----------

  /** The records that the stack still stands for, its top first. */
  ghost function Pending(ns: seq<Node>): seq<Record> {
    if ns == [] then [] else Walk(ns[|ns| - 1].dir, ns[|ns| - 1].path) + Pending(ns[..|ns| - 1])
  }

  lemma PendingTop(ns: seq<Node>)
    requires ns != []
    ensures var n := |ns| - 1; Pending(ns) == Walk(ns[n].dir, ns[n].path) + Pending(ns[..n])
  {
    hide Walk;
  }

  lemma {:induction false} PendingJoin(a: seq<Node>, b: seq<Node>)
    ensures Pending(a + b) == Pending(b) + Pending(a)
    decreases |b|
  {
    hide Walk;
    if b == [] {
      assert a + b == a;
    } else {
      var n := |b| - 1;
      PendingTop(a + b);
      PendingTop(b);
      hide Pending;
      PendingJoin(a, b[..n]);
      assert (a + b)[..|a| + n] == a + b[..n] && (a + b)[|a| + n] == b[n];
      Regroup(Walk(b[n].dir, b[n].path), Pending(b[..n]), Pending(a));
    }
  }

  /** The subdirectories that are pushed for a directory's entries, in order. */
  ghost function Subdirs(es: seq<Dirent>, path: string): seq<Node> {
    if es == [] then []
    else Subdirs(es[..|es| - 1], path) + Pushed(es[|es| - 1], path)
  }

  ghost function Pushed(e: Dirent, path: string): seq<Node> {
    if Descends(e, path) then [Node(Compose(path, e.name), e.kind.dir)] else []
  }

  lemma {:induction false} SubdirsJoin(a: seq<Dirent>, b: seq<Dirent>, path: string)
    ensures Subdirs(a + b, path) == Subdirs(a, path) + Subdirs(b, path)
    decreases |b|
  {
    hide Pushed;
    if b == [] {
      assert a + b == a;
    } else {
      var n := |b| - 1;
      SubdirsJoin(a, b[..n], path);
      assert (a + b)[..|a| + n] == a + b[..n] && (a + b)[|a| + n] == b[n];
      Regroup(Subdirs(a, path), Subdirs(b[..n], path), Pushed(b[n], path));
    }
  }

  lemma PendingPushed(e: Dirent, path: string)
    ensures Pending(Pushed(e, path)) == if Descends(e, path) then Walk(e.kind.dir, Compose(path, e.name)) else []
  {
    if Descends(e, path) {
      var n := Node(Compose(path, e.name), e.kind.dir);
      assert Pending([n]) == Walk(n.dir, n.path) + Pending([]);
    }
  }

  /** What is pushed for a directory stands for the recursive walk below it. */
  lemma {:induction false} PendingBelow(s: Stream, path: string)
    ensures Pending(Subdirs(Listed(s), path)) == WalkBelow(s, path)
    decreases s
  {
    if s.Ent? {
      var e := s.dirent;
      PendingBelow(s.rest, path);
      var head := if Lists(e) then [e] else [];
      SubdirsJoin(head, Listed(s.rest), path);
      PendingJoin(Subdirs(head, path), Subdirs(Listed(s.rest), path));
      PendingPushed(e, path);
      assert Subdirs(head, path) == Pushed(e, path) by {
        if Lists(e) { assert Subdirs([e], path) == Subdirs([], path) + Pushed(e, path); }
      }
    }
  }

  // ---------- How much is still to come ----------

  ghost function Size(s: Stream): nat {
    match s
    case End(_) => 1
    case Ent(e, rest) => Size(rest) + if e.kind.Directory? then Size(e.kind.dir.stream) else 0
  }

  ghost function Total(ns: seq<Node>): nat {
    if ns == [] then 0 else Size(ns[|ns| - 1].dir.stream) + Total(ns[..|ns| - 1])
  }

  lemma {:induction false} TotalJoin(a: seq<Node>, b: seq<Node>)
    ensures Total(a + b) == Total(a) + Total(b)
    decreases |b|
  {
    if b == [] {
      assert a + b == a;
    } else {
      var n := |b| - 1;
      TotalJoin(a, b[..n]);
      assert (a + b)[..|a| + n] == a + b[..n];
    }
  }

  lemma {:induction false} SizePositive(s: Stream)
    ensures Size(s) > 0
  {
    if s.Ent? { SizePositive(s.rest); }
  }

  lemma {:induction false} TotalBelow(s: Stream, path: string)
    ensures Total(Subdirs(Listed(s), path)) < Size(s)
    decreases s
  {
    if s.Ent? {
      var e := s.dirent;
      TotalBelow(s.rest, path);
      var head := if Lists(e) then [e] else [];
      SubdirsJoin(head, Listed(s.rest), path);
      TotalJoin(Subdirs(head, path), Subdirs(Listed(s.rest), path));
      assert Total(Subdirs(head, path)) <= (if e.kind.Directory? then Size(e.kind.dir.stream) else 0) by {
        if Lists(e) { assert Subdirs([e], path) == Subdirs([], path) + Pushed(e, path); }
        if Descends(e, path) {
          var n := Node(Compose(path, e.name), e.kind.dir);
          assert Total([n]) == Size(n.dir.stream) + Total([]);
        }
      }
    }
  }

  // ---------- The stack's paths lead where they should ----------

  ghost predicate Leads(root: Dir, start: string, n: Node) {
    && |start| <= |n.path| && (n.path == [] ==> n.dir.opening == NotFound)
    && Lookup(root, start, n.path) == Some(n.dir) && StreamOk(n.dir.stream)
  }

  ghost predicate AllLead(root: Dir, start: string, ns: seq<Node>) {
    forall i :: 0 <= i < |ns| ==> Leads(root, start, ns[i])
  }

  lemma {:induction false} ListedFound(s: Stream, i: nat) returns (at: Stream)
    requires i < |Listed(s)|
    ensures at.Ent? && Suffix(at, s) && at.dirent == Listed(s)[i] && Lists(at.dirent)
  {
    if Lists(s.dirent) {
      if i == 0 { at := s; } else { at := ListedFound(s.rest, i - 1); }
    } else {
      at := ListedFound(s.rest, i);
    }
  }

  lemma {:induction false} ChildLeads(root: Dir, start: string, n: Node, i: nat)
    requires Leads(root, start, n) && i < |Listed(n.dir.stream)|
    ensures n.dir.opening == Opens ==> n.path != []
    ensures NameOk(Listed(n.dir.stream)[i].name) || !Listed(n.dir.stream)[i].kind.Directory?
    ensures AllLead(root, start, Pushed(Listed(n.dir.stream)[i], n.path))
  {
    var at := ListedFound(n.dir.stream, i);
    var e := at.dirent;
    if e.kind.Directory? {
      SuffixFound(at, n.dir.stream);
      ComposeCut(n.path, e.name);
    }
  }

  /** Turning a composed path into a path of its own changes nothing. */
  lemma ComposedInit(path: string, name: string)
    requires NameOk(name) && path != [] && |Compose(path, name)| <= PATH_MAX
    ensures PathInit(Compose(path, name)) == Some(Compose(path, name))
  {
    var q := Compose(path, name);
    assert q[|q| - 1] == name[|name| - 1];
    assert q[..|q|] == q;
  }

  ghost function PathsOf(ns: seq<Node>): (ps: seq<string>)
    ensures |ps| == |ns| && forall i :: 0 <= i < |ns| ==> ps[i] == ns[i].path
  {
    seq(|ns|, i requires 0 <= i < |ns| => ns[i].path)
  }

  datatype RecordError = Taken | BadState | NothingRecorded | BadPath

  datatype Outcome = Finished | Stepped | Failed(error: Error)

  lemma FilesPush(es: seq<Dirent>, e: Dirent)
    ensures Files(es + [e]) == Files(es) + [FileOf(e)]
  {}

  lemma ListedStep(es: seq<Dirent>, s: Stream)
    requires s.Ent?
    ensures Lists(s.dirent) ==> es + Listed(s) == (es + [s.dirent]) + Listed(s.rest)
    ensures !Lists(s.dirent) ==> Listed(s) == Listed(s.rest)
  {}

  method ScanDir(stream: Stream) returns (error: Option<Error>, files: seq<File>)
    ensures error == ScanError(stream) && ScanOutcome(stream, error)
    ensures error.None? ==> files == Files(Listed(stream)) && Recorded(Entries(stream), files)
  {
    ScanErrorIs(stream);
    ListedIsRecorded(stream);
    hide Files, Listed, FileOf, Recorded, ScanOutcome, Entries;
    files := [];
    var s := stream;
    ghost var es: seq<Dirent> := [];
    while s.Ent?
      invariant ScanError(s) == ScanError(stream)
      invariant es + Listed(s) == Listed(stream) && files == Files(es)
      decreases s
    {
      var e := s.dirent;
      ListedStep(es, s);
      if Dots(e.name) || e.kind.Unsupported? {
        s := s.rest;
        continue;
      }
      if e.kind.Unknown? { return Some(UnknownType), files; }
      if |e.name| > NAME_MAX { return Some(NameLength), files; }
      FilesPush(es, e);
      files, es := files + [FileOf(e)], es + [e];
      s := s.rest;
    }
    ListedEnd(es, s);
    error := if s.failed then Some(Sys) else None;
  }

  lemma ListedEnd(es: seq<Dirent>, s: Stream)
    requires s.End?
    ensures es + Listed(s) == es
  {}

  lemma {:induction false} SubdirsStep(es: seq<Dirent>, i: nat, path: string, ns: seq<Node>)
    requires i < |es|
    ensures (ns + Subdirs(es[..i], path)) + Pushed(es[i], path) == ns + Subdirs(es[..i + 1], path)
  {
    hide Pushed;
    assert es[..i + 1][..i] == es[..i];
  }

  lemma AllLeadJoin(root: Dir, start: string, a: seq<Node>, b: seq<Node>)
    requires AllLead(root, start, a) && AllLead(root, start, b)
    ensures AllLead(root, start, a + b)
  {
    hide Leads;
  }

  lemma {:induction false} ListedLists(s: Stream, i: nat)
    requires i < |Listed(s)|
    ensures Lists(Listed(s)[i])
  {
    var at := ListedFound(s, i);
  }

  lemma TopLeads(root: Dir, start: string, ns: seq<Node>)
    requires AllLead(root, start, ns) && ns != []
    ensures var n := ns[|ns| - 1];
            Leads(root, start, n) && Lookup(root, start, n.path) == Some(n.dir) && AllLead(root, start, ns[..|ns| - 1])
  {
    hide Lookup;
  }

  lemma {:induction false} PopNode(ns: seq<Node>)
    requires ns != []
    ensures var n, rest := ns[|ns| - 1], ns[..|ns| - 1];
            && Pending(ns) == Walk(n.dir, n.path) + Pending(rest) && Total(rest) < Total(ns)
            && Total(ns) == Size(n.dir.stream) + Total(rest)
            && PathsOf(ns)[..|ns| - 1] == PathsOf(rest)
  {
    hide Walk, Size;
    SizePositive(ns[|ns| - 1].dir.stream);
  }

  lemma WalkFails(d: Dir, path: string)
    requires DirError(d).Some?
    ensures Walk(d, path) == []
  {}

  /** Recording a directory and pushing its subdirectories leaves the outcome as it was. */
  lemma {:induction false} WalkSplits(d: Dir, path: string, dirs: seq<Record>, rest: seq<Node>)
    requires DirError(d).None?
    ensures var subs := Subdirs(Listed(d.stream), path);
            && dirs + (Walk(d, path) + Pending(rest)) ==
               (dirs + [Record(path, Files(Listed(d.stream)))]) + Pending(rest + subs)
            && Total(rest + subs) < Size(d.stream) + Total(rest)
  {
    PendingBelow(d.stream, path);
    TotalBelow(d.stream, path);
    var subs := Subdirs(Listed(d.stream), path);
    PendingJoin(rest, subs);
    TotalJoin(rest, subs);
    var r := [Record(path, Files(Listed(d.stream)))];
    assert Walk(d, path) == r + Pending(subs);
    hide Walk, Pending, Total, Subdirs;
    Regrouped(dirs, r, Pending(subs), Pending(rest));
  }

  lemma Regrouped<T>(a: seq<T>, b: seq<T>, c: seq<T>, d: seq<T>)
    ensures a + ((b + c) + d) == (a + b) + (c + d)
  {}

  class FileWalk {
    const root: Dir
    const start: string
    var paths: seq<string>
    var dirs: seq<Record>
    ghost var nodes: seq<Node>

    ghost predicate Valid()
      reads this
    {
      && paths == PathsOf(nodes) && AllLead(root, start, nodes)
      && dirs + Pending(nodes) == Walk(root, start)
    }

    /** `start` is a path already made by `PathInit`. */
    constructor (root: Dir, start: string)
      requires StreamOk(root.stream) && (start == [] ==> root.opening == NotFound)
      ensures Valid() && this.root == root && this.start == start && paths == [start] && dirs == []
    {
      this.root, this.start, paths, dirs := root, start, [start], [];
      nodes := [Node(start, root)];
      new;
      assert Pending(nodes) == Walk(root, start) + Pending([]);
    }

    /** Composes and pushes the path of every subdirectory whose path is short enough. */
    method PushDirPaths(files: seq<File>, path: string, ghost dir: Dir)
      requires Leads(root, start, Node(path, dir)) && dir.opening == Opens && files == Files(Listed(dir.stream))
      requires paths == PathsOf(nodes) && AllLead(root, start, nodes)
      modifies this`paths, this`nodes
      ensures nodes == old(nodes) + Subdirs(Listed(dir.stream), path)
      ensures paths == PathsOf(nodes) && AllLead(root, start, nodes)
    {
      hide Files, Listed, Leads, AllLead, Compose, PathInit;
      ghost var es := Listed(dir.stream);
      for i := 0 to |files|
        invariant nodes == old(nodes) + Subdirs(es[..i], path)
        invariant paths == PathsOf(nodes) && AllLead(root, start, nodes)
      {
        ChildLeads(root, start, Node(path, dir), i);
        AllLeadJoin(root, start, nodes, Pushed(es[i], path));
        SubdirsStep(es, i, path, old(nodes));
        ListedLists(dir.stream, i);
        PushPath(path, es[i], files[i]);
      }
      assert es[..|files|] == es;
    }

    method PushPath(path: string, ghost e: Dirent, file: File)
      requires file == FileOf(e) && Lists(e) && path != [] && (NameOk(e.name) || !e.kind.Directory?)
      requires paths == PathsOf(nodes)
      modifies this`paths, this`nodes
      ensures nodes == old(nodes) + Pushed(e, path) && paths == PathsOf(nodes)
    {
      if file.fileType == RegularFile { return; }
      if |path| + |file.name| + 1 > PATH_MAX { return; }
      var buf := Compose(path, file.name);
      ComposedInit(path, file.name);
      var push := PathInit(buf).value;
      paths, nodes := paths + [push], nodes + Pushed(e, path);
    }

    /**
      Visits the directory on top of the stack.  One that cannot be opened or scanned is
      dropped with everything below it.
    */
    method Step() returns (outcome: Outcome)
      requires Valid()
      modifies this
      ensures Valid()
      ensures old(nodes) == [] ==> outcome == Finished && nodes == [] && dirs == old(dirs)
      ensures old(nodes) != [] ==>
                var n := old(nodes)[|old(nodes)| - 1];
                var rest := old(nodes)[..|old(nodes)| - 1];
                var error := DirError(n.dir);
                if error.Some? then outcome == Failed(error.value) && nodes == rest && dirs == old(dirs)
                else && outcome == Stepped && nodes == rest + Subdirs(Listed(n.dir.stream), n.path)
                     && dirs == old(dirs) + [Record(n.path, Files(Listed(n.dir.stream)))]
      ensures old(nodes) != [] ==>
                var n := old(nodes)[|old(nodes)| - 1];
                && DirOutcome(n.dir, if outcome.Failed? then Some(outcome.error) else None)
                && (outcome == Stepped ==> |dirs| > 0 && Recorded(Entries(n.dir.stream), dirs[|dirs| - 1].files))
      ensures old(nodes) != [] ==> Total(nodes) < Total(old(nodes))
    {
      hide Files, Listed, Leads, Lookup, Subdirs, Pending, Total, Walk, ScanError;
      if |paths| == 0 { return Finished; }
      var path := paths[|paths| - 1];
      ghost var n, rest := nodes[|nodes| - 1], nodes[..|nodes| - 1];
      PopNode(nodes);
      TopLeads(root, start, nodes);
      DirErrorIs(n.dir);
      ListedIsRecorded(n.dir.stream);
      hide DirOutcome, Recorded, Entries, Readable;
      paths, nodes := paths[..|paths| - 1], rest;
      var dir := Lookup(root, start, path).value;
      if dir.opening != Opens {
        WalkFails(dir, path);
        return Failed(OpenError(dir.opening));
      }
      var error, files := ScanDir(dir.stream);
      if error.Some? {
        WalkFails(dir, path);
        return Failed(error.value);
      }
      PushDirPaths(files, path, dir);
      WalkSplits(dir, path, dirs, rest);
      dirs := dirs + [Record(path, files)];
      outcome := Stepped;
    }

    /** Steps until the stack is empty, going on after a directory that failed. */
    method Run()
      requires Valid()
      modifies this
      ensures Valid() && paths == [] && dirs == Walk(root, start)
    {
      hide Files, Listed, Leads, Lookup, Subdirs, Total, Walk, DirError;
      while |paths| > 0
        invariant Valid()
        decreases Total(nodes)
      {
        var outcome := Step();
      }
    }

    /** Hands out what was recorded, once nothing is left to visit. */
    method TakeRecord() returns (error: RecordError, record: seq<Record>)
      ensures error == BadState <==> paths != []
      ensures error == NothingRecorded <==> paths == [] && dirs == []
      ensures error != BadPath && record == if error == Taken then dirs else []
    {
      if |paths| > 0 { return BadState, []; }
      if |dirs| == 0 { return NothingRecorded, []; }
      return Taken, dirs;
    }
  }

  lemma RootReached(root: Dir, start: string)
    requires Readable(root)
    ensures Reached(root, start, start) == Some(root)
  {}

  /**
    A whole walk: every directory that readable directories lead to by paths within PATH_MAX
    is recorded once, with its files, in the order of the recursive walk.
  */
  method WalkTree(root: Dir, startPath: string) returns (error: RecordError, record: seq<Record>)
    requires StreamOk(root.stream) && (startPath == [] ==> root.opening == NotFound)
    ensures error == BadPath <==> PathInit(startPath).None?
    ensures error != BadState
    ensures error != BadPath ==> record == Walk(root, PathInit(startPath).value)
    ensures error == NothingRecorded <==> error != BadPath && !Readable(root)
    ensures Apart(record)
    ensures error != BadPath ==> forall i, j :: 0 <= i < j < |record| ==>
              WalkedBefore(root, PathInit(startPath).value, record[i].path, record[j].path)
    ensures error != BadPath ==> forall r :: r in record <==> RecordsReached(root, PathInit(startPath).value, r)
  {
    hide Listed, Files, StreamOk, Walk, RecordsReached, Readable, WalkedBefore, Apart, Lookup, Leads;
    record := [];
    NoneApart();
    if PathInit(startPath).None? { return BadPath, []; }
    var start := PathInit(startPath).value;
    var walk := new FileWalk(root, start);
    walk.Run();
    error, record := walk.TakeRecord();
    WalkRecords(root, start);
  }

  lemma NoneApart()
    ensures Apart([])
  {}

  /** What a walk from the root records, and in which order. */
  lemma WalkRecords(root: Dir, start: string)
    requires StreamOk(root.stream)
    ensures Apart(Walk(root, start)) && (Walk(root, start) == [] <==> !Readable(root))
    ensures forall i, j :: 0 <= i < j < |Walk(root, start)| ==>
              WalkedBefore(root, start, Walk(root, start)[i].path, Walk(root, start)[j].path)
    ensures forall r :: r in Walk(root, start) <==> RecordsReached(root, start, r)
  {
    hide Listed, Files, StreamOk, WalkedBefore, RecordsReached, Apart;
    WalkApart(root, start);
    DirErrorIs(root);
    hide Readable;
    if Readable(root) {
      RootReached(root, start);
      hide Walk;
      forall i, j | 0 <= i < j < |Walk(root, start)|
        ensures WalkedBefore(root, start, Walk(root, start)[i].path, Walk(root, start)[j].path) {
        WalkOrder(root, start, root, start, i, j);
      }
    }
    forall r ensures r in Walk(root, start) <==> RecordsReached(root, start, r) {
      WalkIsReached(root, start, r);
    }
  }
}
