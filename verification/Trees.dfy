/**
 The directory tree as a user sees it: paths and the files below each. The
 operations on it are given on values, and the stores that carry them out are
 compared with it.
 */
module Trees {
  import opened Paths
  import opened LogLines
  import opened DirLog
  import opened Namespace

  /** Every directory with the names of its files. */
  type Tree = map<Path, set<string>>

  datatype Command = CreateDir(path: Path, mkpath: bool) | Remove(path: Path) | Rename(path: Path, dest: Path)

  /** The paths an operation takes; the root is not removed. */
  predicate WellFormed(cmd: Command) {
    match cmd
    case CreateDir(p, _) => ValidPath(p)
    case Remove(p) => p != []
    case Rename(_, dest) => ValidPath(dest)
  }

  // ----- the operations on a tree -----

  /** The path and everything above it. */
  function Ancestry(p: Path): set<Path> { set i | 0 <= i <= |p| :: p[..i] }

  function Grown(t: Tree, p: Path): Tree {
    map q | q in t.Keys + Ancestry(p) :: if q in t then t[q] else {}
  }

  /** No file and no directory below it. */
  ghost predicate Vacant(t: Tree, p: Path) {
    p in t && t[p] == {} && forall c :: p + [c] !in t
  }

  predicate Free(t: Tree, p: Path, dest: Path) {
    p in t && dest != [] && dest !in t && Parent(dest) in t && !(p <= dest)
  }

  /** Everything at or below p is found at the same place below dest, with its files. */
  function Carried(t: Tree, p: Path, dest: Path): Tree {
    map q | q in (set x | x in t :: Moved(p, dest, x)) ::
      if Before(p, dest, q) in t then t[Before(p, dest, q)] else {}
  }

  lemma MovedBack(p: Path, dest: Path, x: Path)
    requires !(dest <= x) && Apart(p, dest)
    ensures Moved(dest, p, Moved(p, dest, x)) == x && Before(p, dest, Moved(p, dest, x)) == x
    ensures !(p <= Moved(p, dest, x))
  {
    if p <= x {
      Resuffix(p, dest, x);
      if p <= Moved(p, dest, x) {
        PrefixesCompare(p, dest, Moved(p, dest, x));
      }
    }
  }

  lemma CarriedAt(t: Tree, p: Path, dest: Path, x: Path)
    requires x in t && !(dest <= x) && Apart(p, dest)
    ensures Moved(p, dest, x) in Carried(t, p, dest) && Carried(t, p, dest)[Moved(p, dest, x)] == t[x]
  {
    hide Moved, Before;
    MovedBack(p, dest, x);
  }

  lemma CarriedFrom(t: Tree, p: Path, dest: Path, q: Path)
    requires q in Carried(t, p, dest)
    ensures exists x :: x in t && Moved(p, dest, x) == q
  {
    hide Moved, Before;
  }

  /** Moving back what was moved to a free place gives the tree back: directories and files. */
  lemma CarriedBack(t: Tree, p: Path, dest: Path)
    requires Apart(p, dest) && forall x :: x in t ==> !(dest <= x)
    ensures Carried(Carried(t, p, dest), dest, p) == t
  {
    hide Moved, Before, Carried, Apart;
    var t1 := Carried(t, p, dest);
    var t2 := Carried(t1, dest, p);
    ApartEitherWay(p, dest);
    forall x | x in t ensures x in t2 && t2[x] == t[x] {
      MovedBack(p, dest, x);
      CarriedAt(t, p, dest, x);
      CarriedAt(t1, dest, p, Moved(p, dest, x));
    }
    forall y | y in t2 ensures y in t {
      CarriedFrom(t1, dest, p, y);
      var z :| z in t1 && Moved(dest, p, z) == y;
      CarriedFrom(t, p, dest, z);
      var x :| x in t && Moved(p, dest, x) == z;
      MovedBack(p, dest, x);
    }
    assert t2.Keys == t.Keys;
  }

  lemma ApartEitherWay(p: Path, q: Path)
    requires Apart(p, q)
    ensures Apart(q, p)
  {
  }

  ghost function TreeStep(t: Tree, cmd: Command): Tree {
    match cmd
    case CreateDir(p, mkpath) =>
      if p == [] || p in t then t
      else if mkpath then Grown(t, p)
      else if Parent(p) in t then t[p := {}] else t
    case Remove(p) => if Vacant(t, p) then t - {p} else t
    case Rename(p, dest) => if Free(t, p, dest) then Carried(t, p, dest) else t
  }

  ghost function TreeRun(t: Tree, cmds: seq<Command>): Tree {
    if cmds == [] then t else TreeStep(TreeRun(t, cmds[..|cmds| - 1]), cmds[|cmds| - 1])
  }

  // ----- the tree of a store -----

  ghost function FilesAt(logs: map<nat, string>, i: nat): set<string> {
    if i in logs then Files(logs[i]) else {}
  }

  ghost function View(dirs: map<Path, nat>, logs: map<nat, string>): (t: Tree)
    ensures t.Keys == dirs.Keys
  {
    map p | p in dirs :: FilesAt(logs, dirs[p])
  }

  /** Directories that keep their inodes, and logs that keep their files, look the same. */
  lemma SameView(d: map<Path, nat>, logs: map<nat, string>, logs': map<nat, string>, q: Path)
    requires q in d && d[q] in logs && KeepsFiles(logs, logs')
    ensures FilesAt(logs', d[q]) == FilesAt(logs, d[q])
  {
  }

  /** The store after a directory was made shows the tree with one more directory. */
  lemma MadeView(s: Store, p: Path)
    requires Base(s) && ValidPath(p) && p != [] && p !in s.dirs && Parent(p) in s.dirs && Clean(p[|p| - 1])
    ensures View(Made(s, p).dirs, Made(s, p).logs) == View(s.dirs, s.logs)[p := {}]
  {
    hide Files, Line, Clean, Tidy, ValidName, Names;
    var s', logs := Made(s, p), s.logs[s.next := ""];
    LastValid(p);
    NewLogIsVacant();
    NoNames();
    LogKeepsFiles(logs, s.dirs[Parent(p)], false, p[|p| - 1]);
    forall q | q in s'.dirs ensures FilesAt(s'.logs, s'.dirs[q]) == if q == p then {} else FilesAt(s.logs, s.dirs[q]) {
      SameView(s'.dirs, logs, s'.logs, q);
    }
  }

  lemma NewLogIsVacant()
    ensures Files("") == {}
  {
    NoNames();
  }

  /** A sound log is empty exactly when the directory is vacant. */
  lemma EmptyIsVacant(s: Store, p: Path)
    requires Inv(s) && p in s.dirs
    ensures s.dirs[p] in s.logs && "" !in Names(s.logs[s.dirs[p]])
    ensures Names(s.logs[s.dirs[p]]) == {} <==> Vacant(View(s.dirs, s.logs), p)
  {
    hide Names;
    assert Lists(s.dirs, s.logs, p);
    var log, t := s.logs[s.dirs[p]], View(s.dirs, s.logs);
    forall c | p + [c] in t ensures EntryOf(c) in Names(log) {
      assert Comp(EntryOf(c)) == c && (p + [c])[|p|] == c;
      assert ValidName(c);
    }
    if Vacant(t, p) {
      forall e ensures e !in Names(log) {
        if IsDirEntry(e) {
          assert p + [Comp(e)] !in t;
        } else {
          assert e !in Files(log);
        }
      }
      assert Names(log) == {};
    }
  }

  lemma CarriedKeys(d: map<Path, nat>, d': map<Path, nat>, t: Tree, p: Path, dest: Path)
    requires Relocates(d, d', p, dest) && NothingAt(d, dest) && t.Keys == d.Keys
    ensures d'.Keys == Carried(t, p, dest).Keys
  {
    hide Relocates, NothingAt, Before, Moved;
    RelocationIsBijective(d, d', p, dest);
    var moved := set x | x in t :: Moved(p, dest, x);
    assert forall q :: q in moved ==> exists x :: x in d && Moved(p, dest, x) == q;
  }

  /** A rename of the path objects carries the tree. */
  lemma CarriedView(d: map<Path, nat>, d': map<Path, nat>, logs: map<nat, string>, logs': map<nat, string>, p: Path, dest: Path)
    requires Relocates(d, d', p, dest) && NothingAt(d, dest)
    requires (forall q :: q in d ==> d[q] in logs) && KeepsFiles(logs, logs')
    ensures View(d', logs') == Carried(View(d, logs), p, dest)
  {
    hide Relocates, NothingAt, Before, Moved, KeepsFiles, FilesAt;
    var t, t' := View(d, logs), View(d', logs');
    CarriedKeys(d, d', t, p, dest);
    forall q | q in t' ensures t'[q] == Carried(t, p, dest)[q] {
      BeforeExists(d, d', p, dest, q);
      SameView(d, logs, logs', Before(p, dest, q));
    }
  }

  /** What the two log lines and the move of a rename leave. */
  lemma RenamedView(s: Store, s': Store, p: Path, dest: Path)
    requires Inv(s) && Renamable(s, p, dest) && Relocates(s.dirs, s'.dirs, p, dest)
    ensures s'.dirs.Keys == Carried(View(s.dirs, s.logs), p, dest).Keys
    ensures KeepsFiles(s.logs, s'.logs) ==> View(s'.dirs, s'.logs) == Carried(View(s.dirs, s.logs), p, dest)
  {
    hide Relocates, NothingAt, Carried, KeepsFiles, View, Tidy, Lists;
    RenamableApart(s, p, dest);
    CarriedKeys(s.dirs, s'.dirs, View(s.dirs, s.logs), p, dest);
    if KeepsFiles(s.logs, s'.logs) {
      CarriedView(s.dirs, s'.dirs, s.logs, s'.logs, p, dest);
    }
  }

  lemma RemovedView(s: Store, p: Path)
    requires Inv(s) && p != [] && p in s.dirs && Parent(p) in s.dirs && Inv(Removed(s, p))
    requires KeepsFiles(Removed(s, p).logs, s.logs)
    ensures View(Removed(s, p).dirs, Removed(s, p).logs) == View(s.dirs, s.logs) - {p}
  {
    hide KeepsFiles, FilesAt, Line, Lists, Tidy;
    var s' := Removed(s, p);
    forall q | q in s'.dirs ensures FilesAt(s'.logs, s'.dirs[q]) == FilesAt(s.logs, s.dirs[q]) {
      SameView(s'.dirs, s'.logs, s.logs, q);
    }
  }

  lemma FreeIsRenamable(s: Store, p: Path, dest: Path)
    requires ValidPath(dest)
    ensures Free(View(s.dirs, s.logs), p, dest) <==> Renamable(s, p, dest)
  {
  }

  lemma {:induction false} AncestryIs(p: Path, q: Path)
    ensures q in Ancestry(p) <==> q <= p
  {
    if q <= p {
      assert p[..|q|] == q;
    }
  }

  lemma GrownKeys(t: Tree, p: Path)
    ensures forall q :: q in Grown(t, p) <==> q in t || q <= p
  {
    forall q ensures q in Ancestry(p) <==> q <= p {
      AncestryIs(p, q);
    }
  }

  /** Making the path step by step grows the tree. */
  lemma GrownStep(t: Tree, p: Path)
    requires p != [] && p !in t
    ensures Grown(t, p) == Grown(t, Parent(p))[p := {}]
  {
    forall q ensures q in Ancestry(p) <==> q in Ancestry(Parent(p)) || q == p {
      AncestryIs(p, q);
      AncestryIs(Parent(p), q);
      PrefixSplit(p, q);
    }
    AncestryIs(Parent(p), p);
  }

  lemma PrefixSplit(p: Path, q: Path)
    requires p != []
    ensures q <= p <==> q <= Parent(p) || q == p
  {
    if q <= p && q != p {
      assert q == p[..|q|] == Parent(p)[..|q|];
    }
  }

  lemma CreateStep(t: Tree, p: Path, mkpath: bool)
    ensures var t' := TreeStep(t, CreateDir(p, mkpath));
            t' == if p == [] || p in t then t
                  else if mkpath then Grown(t, Parent(p))[p := {}]
                  else if Parent(p) in t then t[p := {}] else t
  {
    hide Grown;
    if p != [] && p !in t {
      GrownStep(t, p);
    }
  }

  lemma RenameStep(t: Tree, p: Path, dest: Path)
    ensures TreeStep(t, Rename(p, dest)) == if Free(t, p, dest) then Carried(t, p, dest) else t
  {
  }

  /** Where the path is there, with all above it, nothing grows. */
  lemma GrownAlready(t: Tree, p: Path)
    requires forall q :: q <= p ==> q in t
    ensures Grown(t, p) == t
  {
    forall q | q in Ancestry(p) ensures q in t {
      AncestryIs(p, q);
    }
  }
}
