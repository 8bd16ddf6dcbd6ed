/**
  A finite directory tree as the system calls show it, the paths that lead into it, and the
  recursive walk that the stepwise one must agree with.
*/
module FileTree {

  const PATH_MAX: nat := 4096
  const NAME_MAX: nat := 255

  datatype Option<T> = None | Some(value: T)

  /** What the system finds behind a name.  The entries come out of a directory one by one. */
  datatype Kind = Regular | Directory(dir: Dir) | Unsupported | Unknown
  datatype Dirent = Dirent(name: string, kind: Kind, inode: nat)
  datatype Stream = End(failed: bool) | Ent(dirent: Dirent, rest: Stream)
  datatype Dir = Dir(opening: Opening, stream: Stream)

  /** What becomes of opening a directory. */
  datatype Opening = Opens | NotFound | Denied | OpenFails

  datatype Error = Skip | Fail | UnknownType | NameLength | Sys

  datatype FileType = RegularFile | DirectoryFile
  datatype File = File(fileType: FileType, name: string, inode: nat)
  datatype Record = Record(path: string, files: seq<File>)

  predicate Dots(name: string) {
    name == "." || name == ".."
  }

  /** Names hold no slash, are not empty and differ within a directory. */
  ghost predicate NameOk(name: string) {
    name != [] && '/' !in name
  }

  ghost predicate Named(s: Stream, name: string) {
    s.Ent? && (s.dirent.name == name || Named(s.rest, name))
  }

  ghost predicate StreamOk(s: Stream) {
    s.Ent? ==>
      && NameOk(s.dirent.name) && !Named(s.rest, s.dirent.name) && StreamOk(s.rest)
      && (s.dirent.kind.Directory? ==> StreamOk(s.dirent.kind.dir.stream))
  }

  // ---------- Scanning one directory ----------

  predicate Lists(e: Dirent) {
    !Dots(e.name) && (e.kind.Regular? || e.kind.Directory?)
  }

  function FileOf(e: Dirent): File {
    File(if e.kind.Regular? then RegularFile else DirectoryFile, e.name, e.inode)
  }

  /** The first entry that stops the scan decides its error. */
  function ScanError(s: Stream): Option<Error> {
    match s
    case End(failed) => if failed then Some(Sys) else None
    case Ent(e, rest) =>
      if Dots(e.name) || e.kind.Unsupported? then ScanError(rest)
      else if e.kind.Unknown? then Some(UnknownType)
      else if |e.name| > NAME_MAX then Some(NameLength)
      else ScanError(rest)
  }

  function Listed(s: Stream): seq<Dirent> {
    match s
    case End(_) => []
    case Ent(e, rest) => (if Lists(e) then [e] else []) + Listed(rest)
  }

  function Files(es: seq<Dirent>): (fs: seq<File>)
    ensures |fs| == |es| && forall i :: 0 <= i < |es| ==> fs[i] == FileOf(es[i])
  {
    if es == [] then [] else [FileOf(es[0])] + Files(es[1..])
  }

  /** The error of a directory that does not open, after its remapping. */
  function OpenError(opening: Opening): Error
    requires opening != Opens
  {
    match opening
    case NotFound => Fail
    case Denied => Skip
    case OpenFails => Sys
  }

  function DirError(d: Dir): Option<Error> {
    if d.opening == Opens then ScanError(d.stream) else Some(OpenError(d.opening))
  }

  // ---------- What a scan must find, entry by entry ----------

  /** All entries, in the order the system gives them. */
  ghost function Entries(s: Stream): seq<Dirent> {
    if s.End? then [] else [s.dirent] + Entries(s.rest)
  }

  ghost predicate EndsBadly(s: Stream) {
    if s.End? then s.failed else EndsBadly(s.rest)
  }

  /** An entry that is recorded: a regular file or a directory, but not one of the dot entries. */
  ghost predicate FileEntry(e: Dirent) {
    e.name != "." && e.name != ".." && (e.kind.Regular? || e.kind.Directory?)
  }

  /** An entry and the file it is recorded as. */
  ghost predicate IsFile(e: Dirent, f: File) {
    && FileEntry(e) && f.name == e.name && f.inode == e.inode
    && (e.kind.Regular? ==> f.fileType == RegularFile) && (e.kind.Directory? ==> f.fileType == DirectoryFile)
  }

  ghost predicate Increasing(from: seq<nat>, n: nat) {
    && (forall k :: 0 <= k < |from| ==> from[k] < n)
    && (forall k, l :: 0 <= k < l < |from| ==> from[k] < from[l])
  }

  /** The files come from the entries at these places, and from every entry that is a file. */
  ghost predicate RecordedFrom(es: seq<Dirent>, fs: seq<File>, from: seq<nat>) {
    && |from| == |fs| && Increasing(from, |es|)
    && (forall k :: 0 <= k < |fs| ==> IsFile(es[from[k]], fs[k]))
    && (forall i :: 0 <= i < |es| && FileEntry(es[i]) ==> i in from)
  }

  /** Exactly the files among the entries, in their order, each once. */
  ghost predicate Recorded(es: seq<Dirent>, fs: seq<File>) {
    exists from :: RecordedFrom(es, fs, from)
  }

  /** An entry that does not stop the scan. */
  ghost predicate Passable(e: Dirent) {
    || e.name == "." || e.name == ".." || e.kind.Unsupported?
    || (!e.kind.Unknown? && |e.name| <= NAME_MAX)
  }

  ghost predicate FirstBad(es: seq<Dirent>, i: nat) {
    i < |es| && !Passable(es[i]) && forall j :: 0 <= j < i ==> Passable(es[j])
  }

  /** The first entry that stops the scan is of this kind. */
  ghost predicate StoppedBy(es: seq<Dirent>, unknown: bool) {
    exists i: nat :: FirstBad(es, i) && (es[i].kind.Unknown? <==> unknown)
  }

  /** The directory opens, and nothing in it stops the scan. */
  ghost predicate Readable(d: Dir) {
    d.opening == Opens && !EndsBadly(d.stream) && forall e :: e in Entries(d.stream) ==> Passable(e)
  }

  /** Which error a scan ends with, told by the first entry that stops it. */
  ghost predicate ScanOutcome(s: Stream, error: Option<Error>) {
    var es := Entries(s);
    && (error == None <==> !EndsBadly(s) && forall e :: e in es ==> Passable(e))
    && (error == Some(Sys) <==> EndsBadly(s) && forall e :: e in es ==> Passable(e))
    && (error == Some(UnknownType) <==> StoppedBy(es, true))
    && (error == Some(NameLength) <==> StoppedBy(es, false))
  }

  /** Which error a directory ends with. */
  ghost predicate DirOutcome(d: Dir, error: Option<Error>) {
    && (d.opening == Opens ==> ScanOutcome(d.stream, error))
    && (d.opening == NotFound ==> error == Some(Fail))
    && (d.opening == Denied ==> error == Some(Skip))
    && (d.opening == OpenFails ==> error == Some(Sys))
  }

  lemma FirstBadNext(e: Dirent, es: seq<Dirent>, i: nat)
    ensures Passable(e) ==> (FirstBad([e] + es, i) <==> i > 0 && FirstBad(es, i - 1))
    ensures !Passable(e) ==> (FirstBad([e] + es, i) <==> i == 0)
  {
    var all := [e] + es;
    assert all[0] == e && forall j :: 0 < j < |all| ==> all[j] == es[j - 1];
    if FirstBad(all, i) && i > 0 {
      forall j | 0 <= j < i - 1 ensures Passable(es[j]) { assert all[j + 1] == es[j]; }
    }
  }

  lemma {:induction false} StoppedNext(e: Dirent, es: seq<Dirent>, unknown: bool)
    ensures Passable(e) ==> (StoppedBy([e] + es, unknown) <==> StoppedBy(es, unknown))
    ensures !Passable(e) ==> (StoppedBy([e] + es, unknown) <==> (e.kind.Unknown? <==> unknown))
  {
    hide Passable;
    var all := [e] + es;
    if StoppedBy(all, unknown) {
      var i: nat :| FirstBad(all, i) && (all[i].kind.Unknown? <==> unknown);
      FirstBadNext(e, es, i);
      if Passable(e) { assert FirstBad(es, i - 1) && es[i - 1] == all[i]; }
    }
    if Passable(e) && StoppedBy(es, unknown) {
      var i: nat :| FirstBad(es, i) && (es[i].kind.Unknown? <==> unknown);
      FirstBadNext(e, es, i + 1);
      assert all[i + 1] == es[i];
    }
    if !Passable(e) && (e.kind.Unknown? <==> unknown) {
      FirstBadNext(e, es, 0);
      assert all[0] == e;
    }
  }

  lemma {:induction false} NoneStops(es: seq<Dirent>)
    ensures (forall e :: e in es ==> Passable(e)) <==> !StoppedBy(es, true) && !StoppedBy(es, false)
  {
    if es != [] {
      var e, rest := es[0], es[1..];
      assert es == [e] + rest && forall x :: x in es <==> x == e || x in rest;
      NoneStops(rest);
      StoppedNext(e, rest, true);
      StoppedNext(e, rest, false);
    }
  }

  lemma {:induction false} ScanErrorIs(s: Stream)
    ensures ScanOutcome(s, ScanError(s))
  {
    hide StoppedBy;
    NoneStops(Entries(s));
    if s.Ent? {
      ScanErrorIs(s.rest);
      NoneStops(Entries(s.rest));
      StoppedNext(s.dirent, Entries(s.rest), true);
      StoppedNext(s.dirent, Entries(s.rest), false);
    } else {
      EmptyStops();
    }
  }

  lemma EmptyStops()
    ensures !StoppedBy([], true) && !StoppedBy([], false)
  {}

  lemma DirErrorIs(d: Dir)
    ensures DirOutcome(d, DirError(d)) && (DirError(d).None? <==> Readable(d))
  {
    ScanErrorIs(d.stream);
  }

  /** Where the entries listed are. */
  ghost function Places(s: Stream): seq<nat> {
    if s.End? then [] else (if Lists(s.dirent) then [0] else []) + Later(Places(s.rest))
  }

  ghost function Later(from: seq<nat>): (r: seq<nat>)
    ensures |r| == |from| && forall k :: 0 <= k < |from| ==> r[k] == from[k] + 1
  {
    seq(|from|, k requires 0 <= k < |from| => from[k] + 1)
  }

  lemma {:induction false} ListedRecorded(s: Stream)
    ensures RecordedFrom(Entries(s), Files(Listed(s)), Places(s))
  {
    if s.Ent? {
      ListedRecorded(s.rest);
      RecordedNext(s.dirent, Entries(s.rest), Files(Listed(s.rest)), Places(s.rest));
      FilesOfListed(s);
    }
  }

  lemma FilesOfListed(s: Stream)
    requires s.Ent?
    ensures Files(Listed(s)) == (if Lists(s.dirent) then [FileOf(s.dirent)] else []) + Files(Listed(s.rest))
  {}

  lemma {:induction false} RecordedNext(e: Dirent, es: seq<Dirent>, fs: seq<File>, from: seq<nat>)
    requires RecordedFrom(es, fs, from)
    ensures var fs' := (if Lists(e) then [FileOf(e)] else []) + fs;
            var from' := (if Lists(e) then [0] else []) + Later(from);
            RecordedFrom([e] + es, fs', from')
  {
    FileOfIs(e);
    if Lists(e) {
      RecordedOne(e, es, fs, from, FileOf(e));
    } else {
      RecordedSkip(e, es, fs, from);
      assert [] + fs == fs && [] + Later(from) == Later(from);
    }
  }

  lemma {:induction false} RecordedSkip(e: Dirent, es: seq<Dirent>, fs: seq<File>, from: seq<nat>)
    requires RecordedFrom(es, fs, from) && !FileEntry(e)
    ensures RecordedFrom([e] + es, fs, Later(from))
  {
    hide IsFile, FileEntry;
    var all, later := [e] + es, Later(from);
    assert forall i :: 0 < i < |all| ==> all[i] == es[i - 1];
    forall k | 0 <= k < |fs| ensures IsFile(all[later[k]], fs[k]) {
      assert all[later[k]] == es[from[k]];
    }
    forall i | 0 <= i < |all| && FileEntry(all[i]) ensures i in later {
      EntryLater(from, i - 1);
    }
  }

  lemma {:induction false} RecordedOne(e: Dirent, es: seq<Dirent>, fs: seq<File>, from: seq<nat>, f: File)
    requires RecordedFrom(es, fs, from) && IsFile(e, f)
    ensures RecordedFrom([e] + es, [f] + fs, [0] + Later(from))
  {
    hide IsFile, FileEntry;
    var all, fs', from' := [e] + es, [f] + fs, [0] + Later(from);
    assert forall i :: 0 < i < |all| ==> all[i] == es[i - 1];
    forall k | 0 <= k < |fs'| ensures IsFile(all[from'[k]], fs'[k]) {
      if k > 0 { assert from'[k] == from[k - 1] + 1 && all[from'[k]] == es[from[k - 1]] && fs'[k] == fs[k - 1]; }
    }
    forall i | 0 <= i < |all| && FileEntry(all[i]) ensures i in from' {
      if i == 0 {
        assert from'[0] == 0;
      } else {
        EntryLater(from, i - 1);
      }
    }
  }

  lemma EntryLater(from: seq<nat>, i: nat)
    ensures i in from ==> i + 1 in Later(from)
  {
    if i in from {
      var k :| 0 <= k < |from| && from[k] == i;
      assert Later(from)[k] == i + 1;
    }
  }

  lemma FileOfIs(e: Dirent)
    ensures Lists(e) ==> IsFile(e, FileOf(e))
    ensures Lists(e) <==> FileEntry(e)
  {}

  lemma {:induction false} IncreasingUnique(a: seq<nat>, b: seq<nat>, n: nat)
    requires Increasing(a, n) && Increasing(b, n) && forall i :: i in a <==> i in b
    ensures a == b
  {
    FirstMember(a);
    FirstMember(b);
    if a != [] && b != [] {
      var k, l := |a| - 1, |b| - 1;
      InitMembers(a, n);
      InitMembers(b, n);
      assert a[k] in a && b[l] in b && a[k] == b[l];
      assert a == a[..k] + [a[k]] && b == b[..l] + [b[l]];
      var a', b' := a[..k], b[..l];
      forall i ensures i in a' <==> i in b' {
        assert i in a' <==> i in a && i != a[k];
        assert i in b' <==> i in b && i != b[l];
      }
      IncreasingUnique(a', b', n);
    }
  }

  lemma FirstMember<T>(s: seq<T>)
    ensures |s| > 0 ==> s[0] in s
  {}

  lemma InitMembers(a: seq<nat>, n: nat)
    requires Increasing(a, n) && a != []
    ensures Increasing(a[..|a| - 1], n)
    ensures forall i :: i in a ==> i <= a[|a| - 1]
    ensures forall i :: i in a[..|a| - 1] <==> i in a && i != a[|a| - 1]
  {
    var k := |a| - 1;
    assert a == a[..k] + [a[k]];
    assert forall j :: 0 <= j < k ==> a[j] < a[k];
  }

  /** Nothing else is recorded: the entries fix the files. */
  lemma {:induction false} RecordedUnique(es: seq<Dirent>, fs: seq<File>, fs': seq<File>)
    requires Recorded(es, fs) && Recorded(es, fs')
    ensures fs == fs'
  {
    var a :| RecordedFrom(es, fs, a);
    var b :| RecordedFrom(es, fs', b);
    PlacesAre(es, fs, a);
    PlacesAre(es, fs', b);
    IncreasingUnique(a, b, |es|);
    forall k | 0 <= k < |fs| ensures fs[k] == fs'[k] {
      assert IsFile(es[a[k]], fs[k]) && IsFile(es[b[k]], fs'[k]);
    }
  }

  lemma PlacesAre(es: seq<Dirent>, fs: seq<File>, from: seq<nat>)
    requires RecordedFrom(es, fs, from)
    ensures forall i :: i in from <==> 0 <= i < |es| && FileEntry(es[i])
  {
    forall i | i in from ensures 0 <= i < |es| && FileEntry(es[i]) {
      var k :| 0 <= k < |from| && from[k] == i;
      assert IsFile(es[from[k]], fs[k]);
    }
  }

  /** A file is recorded exactly when some entry is that file. */
  lemma {:induction false} RecordedMembers(es: seq<Dirent>, fs: seq<File>, f: File)
    requires Recorded(es, fs)
    ensures f in fs <==> exists e :: e in es && IsFile(e, f)
  {
    var from :| RecordedFrom(es, fs, from);
    hide IsFile, FileEntry;
    if f in fs {
      var k :| 0 <= k < |fs| && fs[k] == f;
      assert es[from[k]] in es && IsFile(es[from[k]], f);
    }
    if e :| e in es && IsFile(e, f) {
      EntryRecorded(es, fs, from, e, f);
    }
  }

  lemma {:induction false} EntryRecorded(es: seq<Dirent>, fs: seq<File>, from: seq<nat>, e: Dirent, f: File)
    requires RecordedFrom(es, fs, from) && e in es && IsFile(e, f)
    ensures f in fs
  {
    var i :| 0 <= i < |es| && es[i] == e;
    assert FileEntry(es[i]);
    var k :| 0 <= k < |from| && from[k] == i;
    assert IsFile(es[from[k]], fs[k]);
    assert fs[k] == f;
  }

  // ---------- Paths ----------

  function Compose(path: string, name: string): string {
    path + "/" + name
  }

  /** A trailing slash is dropped, but not from "/". */
  function PathInit(s: string): (r: Option<string>)
    ensures r.None? <==> |s| > PATH_MAX + (if |s| > 1 && s[|s| - 1] == '/' then 1 else 0)
    ensures r.Some? ==> |r.value| <= PATH_MAX && (s != [] ==> r.value != [])
    ensures r.Some? ==> s == r.value + if |s| > 1 && s[|s| - 1] == '/' then "/" else ""
  {
    var n := if |s| > 1 && s[|s| - 1] == '/' then |s| - 1 else |s|;
    if n > PATH_MAX then None else Some(s[..n])
  }

  /** The place of the last slash, or the length. */
  function Cut(path: string): (i: nat)
    ensures i <= |path| && (i < |path| ==> path[i] == '/')
    ensures forall j :: i < j < |path| ==> path[j] != '/'
    ensures i == |path| ==> '/' !in path
    decreases |path|
  {
    if path == [] then 0
    else if path[|path| - 1] == '/' then |path| - 1
    else
      var i := Cut(path[..|path| - 1]);
      if i == |path| - 1 then |path| else i
  }

  /** Composing never confuses two places: the pieces can be read back. */
  lemma {:induction false} ComposeCut(path: string, name: string)
    requires '/' !in name
    ensures var q := Compose(path, name);
            && Cut(q) == |path| < |q| && q[..|path|] == path && q[|path| + 1..] == name
  {
    var q := Compose(path, name);
    assert q[|path|] == '/';
    assert forall j :: |path| < j < |q| ==> q[j] == name[j - |path| - 1];
  }

  lemma {:induction false} ComposeInjective(p: string, n: string, p': string, n': string)
    requires '/' !in n && '/' !in n'
    ensures Compose(p, n) == Compose(p', n') <==> p == p' && n == n'
  {
    ComposeCut(p, n);
    ComposeCut(p', n');
  }

  function FindDir(s: Stream, name: string): Option<Dir> {
    match s
    case End(_) => None
    case Ent(e, rest) =>
      if e.name == name then (if e.kind.Directory? then Some(e.kind.dir) else None) else FindDir(rest, name)
  }

  /** How the system resolves a path, `start` naming the root of the tree. */
  function Lookup(root: Dir, start: string, path: string): Option<Dir>
    decreases |path|
  {
    if path == start then Some(root)
    else
      var i := Cut(path);
      if i == |path| then None
      else match Lookup(root, start, path[..i])
        case None => None
        case Some(d) => FindDir(d.stream, path[i + 1..])
  }

  // ---------- The recursive walk ----------

  predicate Descends(e: Dirent, path: string) {
    Lists(e) && e.kind.Directory? && |Compose(path, e.name)| <= PATH_MAX
  }

  /** A directory, then what lies below it, the last subdirectory first. */
  function Walk(d: Dir, path: string): seq<Record> {
    if DirError(d).Some? then [] else [Record(path, Files(Listed(d.stream)))] + WalkBelow(d.stream, path)
  }

  function WalkBelow(s: Stream, path: string): seq<Record> {
    match s
    case End(_) => []
    case Ent(e, rest) =>
      WalkBelow(rest, path) + if Descends(e, path) then Walk(e.kind.dir, Compose(path, e.name)) else []
  }

  // ---------- Which directories the walk visits ----------

  /**
    The directory a path leads to when the root and every directory on the way can be read
    and no path on the way is longer than PATH_MAX.
  */
  ghost function Reached(root: Dir, start: string, path: string): Option<Dir>
    decreases |path|
  {
    if path == start then (if Readable(root) then Some(root) else None)
    else
      var i := Cut(path);
      if i == |path| || |path| > PATH_MAX || Dots(path[i + 1..]) then None
      else match Reached(root, start, path[..i])
        case None => None
        case Some(d) =>
          match FindDir(d.stream, path[i + 1..])
          case None => None
          case Some(sub) => if Readable(sub) then Some(sub) else None
  }

  lemma {:induction false} ReachedExtends(root: Dir, start: string, path: string)
    requires Reached(root, start, path).Some?
    ensures |start| <= |path| && Readable(Reached(root, start, path).value)
    decreases |path|
  {
    if path != start {
      ReachedExtends(root, start, path[..Cut(path)]);
    }
  }

  /** Some part of a directory's stream: `s` is what is left from some entry on. */
  ghost predicate Suffix(s: Stream, all: Stream) {
    s == all || (all.Ent? && Suffix(s, all.rest))
  }

  lemma {:induction false} SuffixStep(s: Stream, all: Stream)
    requires Suffix(s, all) && s.Ent?
    ensures Suffix(s.rest, all)
  {
    if s != all {
      SuffixStep(s, all.rest);
    }
  }

  lemma {:induction false} SuffixFound(s: Stream, all: Stream)
    requires Suffix(s, all) && s.Ent? && StreamOk(all) && s.dirent.kind.Directory?
    ensures Named(all, s.dirent.name) && NameOk(s.dirent.name)
    ensures FindDir(all, s.dirent.name) == Some(s.dirent.kind.dir) && StreamOk(s.dirent.kind.dir.stream)
  {
    if s != all {
      SuffixFound(s, all.rest);
    }
  }

  lemma {:induction false} FoundEntry(s: Stream, name: string) returns (at: Stream)
    requires StreamOk(s) && FindDir(s, name).Some?
    ensures Suffix(at, s) && at.Ent? && at.dirent.name == name && at.dirent.kind == Directory(FindDir(s, name).value)
    ensures NameOk(name) && StreamOk(FindDir(s, name).value.stream)
  {
    if s.dirent.name == name {
      at := s;
    } else {
      at := FoundEntry(s.rest, name);
    }
  }

  lemma {:induction false} ReachedChild(root: Dir, start: string, d: Dir, path: string, e: Dirent)
    requires Reached(root, start, path) == Some(d) && NameOk(e.name) && e.kind.Directory?
    requires FindDir(d.stream, e.name) == Some(e.kind.dir)
    requires Descends(e, path) && Readable(e.kind.dir)
    ensures Reached(root, start, Compose(path, e.name)) == Some(e.kind.dir)
  {
    ReachedExtends(root, start, path);
    ComposeCut(path, e.name);
  }

  // ---------- The walk records exactly what is reached ----------

  ghost predicate RecordsReached(root: Dir, start: string, r: Record) {
    var d := Reached(root, start, r.path);
    d.Some? && Recorded(Entries(d.value.stream), r.files)
  }

  lemma {:induction false} WalkSound(root: Dir, start: string, d: Dir, path: string, r: Record)
    requires Reached(root, start, path) == Some(d) && StreamOk(d.stream) && r in Walk(d, path)
    ensures RecordsReached(root, start, r)
    decreases d, 1
  {
    if r != Record(path, Files(Listed(d.stream))) {
      BelowSound(root, start, d, path, d.stream, r);
    } else {
      ListedRecorded(d.stream);
    }
  }

  lemma {:induction false} BelowSound(root: Dir, start: string, d: Dir, path: string, s: Stream, r: Record)
    requires Reached(root, start, path) == Some(d) && StreamOk(d.stream) && Suffix(s, d.stream)
    requires r in WalkBelow(s, path)
    ensures RecordsReached(root, start, r)
    decreases s, 0
  {
    SuffixStep(s, d.stream);
    if r in WalkBelow(s.rest, path) {
      BelowSound(root, start, d, path, s.rest, r);
    } else {
      var e := s.dirent;
      SuffixFound(s, d.stream);
      assert r in Walk(e.kind.dir, Compose(path, e.name));
      DirErrorIs(e.kind.dir);
      ReachedChild(root, start, d, path, e);
      WalkSound(root, start, e.kind.dir, Compose(path, e.name), r);
    }
  }

  lemma {:induction false} BelowHolds(s: Stream, path: string, at: Stream, r: Record)
    requires Suffix(at, s) && at.Ent? && Descends(at.dirent, path)
    requires r in Walk(at.dirent.kind.dir, Compose(path, at.dirent.name))
    ensures r in WalkBelow(s, path)
  {
    if at != s {
      BelowHolds(s.rest, path, at, r);
    }
  }

  lemma {:induction false} ReachedOk(root: Dir, start: string, path: string)
    requires StreamOk(root.stream) && Reached(root, start, path).Some?
    ensures StreamOk(Reached(root, start, path).value.stream)
    decreases |path|
  {
    if path != start {
      var i := Cut(path);
      ReachedOk(root, start, path[..i]);
      var at := FoundEntry(Reached(root, start, path[..i]).value.stream, path[i + 1..]);
    }
  }

  /** A reached path below the start was reached through its parent. */
  lemma {:induction false} ReachedThrough(root: Dir, start: string, path: string)
    requires path != start && Reached(root, start, path).Some?
    ensures Cut(path) < |path|
    ensures var p, name := path[..Cut(path)], path[Cut(path) + 1..];
            && path == Compose(p, name) && |path| <= PATH_MAX && !Dots(name)
            && Reached(root, start, p).Some? && Readable(Reached(root, start, p).value)
            && FindDir(Reached(root, start, p).value.stream, name) == Reached(root, start, path)
  {
    ReachedExtends(root, start, path[..Cut(path)]);
  }

  /** All of the walk below a reached directory is in the whole walk. */
  lemma {:induction false} WalkComplete(root: Dir, start: string, path: string, r: Record)
    requires StreamOk(root.stream) && Reached(root, start, path).Some?
    requires r in Walk(Reached(root, start, path).value, path)
    ensures r in Walk(root, start)
    decreases |path|
  {
    if path != start {
      hide Files, Listed, Reached, Cut, StreamOk, FindDir, Compose, DirError, Readable;
      ReachedThrough(root, start, path);
      var p, name := path[..Cut(path)], path[Cut(path) + 1..];
      var d := Reached(root, start, p).value;
      DirErrorIs(d);
      ReachedOk(root, start, p);
      var at := FoundEntry(d.stream, name);
      BelowHolds(d.stream, p, at, r);
      WalkComplete(root, start, p, r);
    }
  }

  /** A record is in the walk exactly when its path is reached and its files are those of that directory. */
  lemma {:induction false} WalkIsReached(root: Dir, start: string, r: Record)
    requires StreamOk(root.stream)
    ensures r in Walk(root, start) <==> RecordsReached(root, start, r)
  {
    hide Recorded;
    if r in Walk(root, start) {
      DirErrorIs(root);
      WalkSound(root, start, root, start, r);
    }
    if RecordsReached(root, start, r) {
      var d := Reached(root, start, r.path).value;
      ReachedExtends(root, start, r.path);
      DirErrorIs(d);
      ListedIsRecorded(d.stream);
      RecordedUnique(Entries(d.stream), r.files, Files(Listed(d.stream)));
      WalkComplete(root, start, r.path, r);
    }
  }

  lemma ListedIsRecorded(s: Stream)
    ensures Recorded(Entries(s), Files(Listed(s)))
  {
    ListedRecorded(s);
  }

  // ---------- No path twice ----------

  ghost predicate Under(path: string, q: string) {
    q == path || (|path| < |q| && q[..|path|] == path && q[|path|] == '/')
  }

  lemma UnderParent(path: string, name: string, q: string)
    requires Under(Compose(path, name), q)
    ensures Under(path, q) && q != path
  {
    assert q[..|path|] == Compose(path, name)[..|path|];
  }

  lemma {:induction false} UnderOne(path: string, a: string, b: string, q: string)
    requires '/' !in a && '/' !in b && Under(Compose(path, a), q) && Under(Compose(path, b), q)
    ensures a == b
  {
    var n := |path| + 1;
    assert forall i :: 0 <= i < |a| ==> q[n + i] == a[i];
    assert forall i :: 0 <= i < |b| ==> q[n + i] == b[i];
    assert |a| == |b|;
  }

  ghost predicate Apart(rs: seq<Record>) {
    forall i, j :: 0 <= i < j < |rs| ==> rs[i].path != rs[j].path
  }

  lemma ApartJoin(a: seq<Record>, b: seq<Record>)
    requires Apart(a) && Apart(b) && forall r, t :: r in a && t in b ==> r.path != t.path
    ensures Apart(a + b)
  {
    forall i, j | 0 <= i < j < |a + b| ensures (a + b)[i].path != (a + b)[j].path {
      if i < |a| <= j {
        assert (a + b)[i] in a && (a + b)[j] in b;
      }
    }
  }

  lemma {:induction false} WalkUnder(d: Dir, path: string, r: Record)
    requires r in Walk(d, path)
    ensures Under(path, r.path)
    decreases d, 1
  {
    if r != Record(path, Files(Listed(d.stream))) {
      var name := BelowUnder(d.stream, path, r);
      UnderParent(path, name, r.path);
    }
  }

  lemma {:induction false} BelowUnder(s: Stream, path: string, r: Record) returns (name: string)
    requires r in WalkBelow(s, path)
    ensures Named(s, name) && Under(Compose(path, name), r.path)
    decreases s, 0
  {
    if r in WalkBelow(s.rest, path) {
      name := BelowUnder(s.rest, path, r);
    } else {
      name := s.dirent.name;
      WalkUnder(s.dirent.kind.dir, Compose(path, name), r);
    }
  }

  lemma {:induction false} NamedOk(s: Stream, name: string)
    requires StreamOk(s) && Named(s, name)
    ensures NameOk(name)
  {
    if s.dirent.name != name {
      NamedOk(s.rest, name);
    }
  }

  /** The walk records no path twice. */
  lemma {:induction false} WalkApart(d: Dir, path: string)
    requires StreamOk(d.stream)
    ensures Apart(Walk(d, path))
    decreases d, 1
  {
    if DirError(d).None? {
      var r := Record(path, Files(Listed(d.stream)));
      BelowApart(d.stream, path);
      forall t | t in WalkBelow(d.stream, path) ensures t.path != path {
        var name := BelowUnder(d.stream, path, t);
        UnderParent(path, name, t.path);
      }
      ApartJoin([r], WalkBelow(d.stream, path));
    }
  }

  lemma {:induction false} BelowApart(s: Stream, path: string)
    requires StreamOk(s)
    ensures Apart(WalkBelow(s, path))
    decreases s, 0
  {
    if s.Ent? {
      BelowApart(s.rest, path);
      var e := s.dirent;
      if Descends(e, path) {
        var sub := Walk(e.kind.dir, Compose(path, e.name));
        WalkApart(e.kind.dir, Compose(path, e.name));
        forall r, t | r in WalkBelow(s.rest, path) && t in sub ensures r.path != t.path {
          if r.path == t.path {
            var name := BelowUnder(s.rest, path, r);
            WalkUnder(e.kind.dir, Compose(path, e.name), t);
            NamedOk(s.rest, name);
            UnderOne(path, name, e.name, r.path);
          }
        }
        ApartJoin(WalkBelow(s.rest, path), sub);
      } else {
        assert WalkBelow(s, path) == WalkBelow(s.rest, path);
      }
    }
  }

  // ---------- The order of the walk ----------

  /** One entry comes before another. */
  ghost predicate EntryBefore(es: seq<Dirent>, a: string, b: string) {
    exists i, j :: 0 <= i < j < |es| && es[i].name == a && es[j].name == b
  }

  /**
    The first path is recorded before the second: it leads to a directory above it, or below
    some directory it goes through an entry that comes later.
  */
  ghost predicate WalkedBefore(root: Dir, start: string, p: string, q: string) {
    || Under(p, q)
    || exists a, n, m :: Parting(root, start, p, q, a, n, m)
  }

  ghost predicate Parting(root: Dir, start: string, p: string, q: string, a: string, n: string, m: string) {
    && Under(Compose(a, n), p) && Under(Compose(a, m), q) && Reached(root, start, a).Some?
    && EntryBefore(Entries(Reached(root, start, a).value.stream), m, n)
  }

  lemma {:induction false} NamedEntry(s: Stream, name: string) returns (i: nat)
    requires Named(s, name)
    ensures i < |Entries(s)| && Entries(s)[i].name == name
  {
    if s.dirent.name == name {
      i := 0;
    } else {
      i := NamedEntry(s.rest, name);
      i := i + 1;
    }
  }

  lemma {:induction false} SuffixEntries(s: Stream, all: Stream) returns (k: nat)
    requires Suffix(s, all)
    ensures k + |Entries(s)| == |Entries(all)| && Entries(all)[k..] == Entries(s)
  {
    if s == all {
      k := 0;
    } else {
      k := SuffixEntries(s, all.rest);
      k := k + 1;
    }
  }

  lemma {:induction false} LaterEntry(s: Stream, all: Stream, name: string)
    requires Suffix(s, all) && s.Ent? && Named(s.rest, name)
    ensures EntryBefore(Entries(all), s.dirent.name, name)
  {
    var k := SuffixEntries(s, all);
    var i := NamedEntry(s.rest, name);
    var es := Entries(all);
    assert es[k] == es[k..][0] && es[k + 1 + i] == es[k..][1 + i];
  }

  /** Every directory comes before those below it, and of two subdirectories the later entry comes first. */
  lemma {:induction false} WalkOrder(root: Dir, start: string, d: Dir, path: string, i: nat, j: nat)
    requires Reached(root, start, path) == Some(d) && StreamOk(d.stream) && i < j < |Walk(d, path)|
    ensures WalkedBefore(root, start, Walk(d, path)[i].path, Walk(d, path)[j].path)
    decreases d, 1
  {
    var rs := Walk(d, path);
    if i == 0 {
      assert rs[j] in rs;
      WalkUnder(d, path, rs[j]);
    } else {
      BelowOrder(root, start, d, path, d.stream, i - 1, j - 1);
    }
  }

  lemma {:induction false} BelowOrder(root: Dir, start: string, d: Dir, path: string, s: Stream, i: nat, j: nat)
    requires Reached(root, start, path) == Some(d) && StreamOk(d.stream) && Suffix(s, d.stream)
    requires i < j < |WalkBelow(s, path)|
    ensures WalkedBefore(root, start, WalkBelow(s, path)[i].path, WalkBelow(s, path)[j].path)
    decreases s, 0
  {
    hide WalkedBefore, Reached;
    SuffixStep(s, d.stream);
    var e, left := s.dirent, WalkBelow(s.rest, path);
    if j < |left| {
      BelowOrder(root, start, d, path, s.rest, i, j);
    } else {
      var sub := Walk(e.kind.dir, Compose(path, e.name));
      assert WalkBelow(s, path) == left + sub;
      SuffixFound(s, d.stream);
      DirErrorIs(e.kind.dir);
      if i >= |left| {
        ReachedChild(root, start, d, path, e);
        WalkOrder(root, start, e.kind.dir, Compose(path, e.name), i - |left|, j - |left|);
      } else {
        var p, q := left[i], sub[j - |left|];
        assert p in left && q in sub;
        var n := BelowUnder(s.rest, path, p);
        WalkUnder(e.kind.dir, Compose(path, e.name), q);
        LaterEntry(s, d.stream, n);
        PartingOrder(root, start, p.path, q.path, path, n, e.name);
      }
    }
  }

  lemma PartingOrder(root: Dir, start: string, p: string, q: string, a: string, n: string, m: string)
    requires Parting(root, start, p, q, a, n, m)
    ensures WalkedBefore(root, start, p, q)
  {}
}
