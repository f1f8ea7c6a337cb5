/** The directory operations of one client: create, mkpath, remove and rename. */
module Directories {
  import opened Errno
  import opened Paths
  import opened LogLines
  import opened DirLog
  import opened Namespace
  import opened Trees

  // ----- moving a subtree -----

  /** What moveDirTreeObjects relies on: a listed subtree and a free place for it. */
  ghost predicate Movable(dirs: map<Path, nat>, logs: map<nat, string>, from: Path, to: Path) {
    && from in dirs && Apart(from, to) && NothingAt(dirs, to) && ClosedBelow(dirs, from)
    && (forall p :: p in dirs && from <= p ==> ValidPath(p) && Lists(dirs, logs, p))
  }

  lemma UntouchedBelow(d0: map<Path, nat>, d: map<Path, nat>, from: Path, to: Path, done: set<string>, c: string, q: Path)
    requires PartlyMoved(d0, d, from, to, done) && Apart(from, to) && c !in done && from + [c] <= q
    ensures q in d <==> q in d0
    ensures q in d ==> d[q] == d0[q]
  {
    BelowChild(q, from, c);
    if to <= q {
      PrefixesCompare(from, to, q);
    }
  }

  lemma FreeBelow(d0: map<Path, nat>, d: map<Path, nat>, from: Path, to: Path, done: set<string>, c: string)
    requires PartlyMoved(d0, d, from, to, done) && NothingAt(d0, to) && c !in done
    ensures NothingAt(d, to + [c])
  {
    forall q | q in d ensures !(to + [c] <= q) {
      BelowChild(q, to, c);
    }
  }

  lemma ApartBelow(from: Path, to: Path, c: string)
    requires Apart(from, to)
    ensures Apart(from + [c], to + [c])
  {
    if from + [c] <= to + [c] {
      PrefixBelow(from, to, c);
    }
    if to + [c] <= from + [c] {
      PrefixBelow(to, from, c);
    }
  }

  lemma PrefixBelow(p: Path, q: Path, c: string)
    requires p + [c] <= q + [c]
    ensures p <= q
  {
    assert p == (q + [c])[..|p|];
    assert (q + [c])[..|p|] == q[..|p|];
  }

  lemma ListsBelow(d0: map<Path, nat>, d: map<Path, nat>, logs: map<nat, string>, from: Path, to: Path,
                   done: set<string>, c: string, p: Path)
    requires PartlyMoved(d0, d, from, to, done) && Movable(d0, logs, from, to) && c !in done
    requires from + [c] <= p && p in d
    ensures p in d0 && ValidPath(p) && Lists(d, logs, p)
    ensures p != from + [c] ==> Parent(p) in d
  {
    hide PartlyMoved;
    UntouchedBelow(d0, d, from, to, done, c, p);
    BelowChild(p, from, c);
    assert Lists(d0, logs, p);
    forall e | IsDirEntry(e)
      ensures e in Names(logs[d[p]]) <==> ValidName(Comp(e)) && p + [Comp(e)] in d
    {
      UntouchedBelow(d0, d, from, to, done, c, p + [Comp(e)]);
    }
    if p != from + [c] {
      assert from + [c] <= Parent(p);
      UntouchedBelow(d0, d, from, to, done, c, Parent(p));
    }
  }

  lemma MovableBelow(d0: map<Path, nat>, d: map<Path, nat>, logs: map<nat, string>, from: Path, to: Path,
                     done: set<string>, c: string)
    requires PartlyMoved(d0, d, from, to, done) && Movable(d0, logs, from, to) && c !in done
    requires from + [c] in d0
    ensures Movable(d, logs, from + [c], to + [c])
  {
    hide PartlyMoved, NothingAt, Apart;
    assert from + [c] <= from + [c];
    UntouchedBelow(d0, d, from, to, done, c, from + [c]);
    FreeBelow(d0, d, from, to, done, c);
    ApartBelow(from, to, c);
    forall p | p in d && from + [c] <= p
      ensures ValidPath(p) && Lists(d, logs, p) && (p != from + [c] ==> Parent(p) in d)
    {
      ListsBelow(d0, d, logs, from, to, done, c, p);
    }
  }

  lemma EveryChildDone(d0: map<Path, nat>, logs: map<nat, string>, from: Path, to: Path, done: set<string>)
    requires Movable(d0, logs, from, to)
    requires forall e :: e in Names(logs[d0[from]]) && IsDirEntry(e) ==> Comp(e) in done
    ensures forall c :: from + [c] in d0 ==> c in done
  {
    forall c | from + [c] in d0 ensures c in done {
      assert from <= from + [c] && ValidPath(from + [c]) && (from + [c])[|from|] == c;
      assert Comp(EntryOf(c)) == c;
      assert Lists(d0, logs, from);
      assert EntryOf(c) in Names(logs[d0[from]]);
    }
  }

  ghost function Subtree(d: map<Path, nat>, p: Path): set<Path> {
    set q | q in d && p <= q
  }

  lemma SmallerSubtree(d0: map<Path, nat>, d: map<Path, nat>, from: Path, to: Path, done: set<string>, c: string)
    requires PartlyMoved(d0, d, from, to, done) && Apart(from, to) && c !in done && from in d0
    ensures Subtree(d, from + [c]) < Subtree(d0, from)
  {
    forall q | q in Subtree(d, from + [c]) ensures q in Subtree(d0, from) {
      UntouchedBelow(d0, d, from, to, done, c, q);
      BelowChild(q, from, c);
    }
    assert from in Subtree(d0, from) && from !in Subtree(d, from + [c]);
  }

  /** q is p or one of its ancestors. */
  predicate AtOrAbove(q: Path, p: Path) { q <= p }

  ghost predicate AncestorsIn(p: Path, dirs: map<Path, nat>) {
    forall q :: AtOrAbove(q, p) ==> q in dirs
  }

  /** The command does not give a directory a name with a backslash. */
  predicate Harmless(t: Tree, cmd: Command) {
    match cmd
    case CreateDir(p, mkpath) => p == [] || (!mkpath && Parent(p) !in t) || CleanPath(p)
    case Remove(p) => true
    case Rename(p, dest) => Free(t, p, dest) ==> Clean(dest[|dest| - 1])
  }

  class Client {
    var dirs: map<Path, nat>
    var logs: map<nat, string>
    var cache: map<Path, nat>
    var next: nat

    ghost function Value(): Store
      reads this
    {
      Store(dirs, logs, cache, next)
    }

    /** The tree a user sees. */
    ghost function Shown(): Tree
      reads this
    {
      View(dirs, logs)
    }

    /** createPrefixDir: the root directory of the metadata pool. */
    constructor ()
      ensures Inv(Value()) && dirs.Keys == {[]}
    {
      dirs, logs, cache, next := map[[] := 0], map[0 := ""], map[], 1;
      new;
      assert Names(logs[0]) == {};
    }

    /** getDirInode: from the path cache, else from the store and then cached. */
    method GetDirInode(p: Path) returns (ret: int, inode: nat)
      requires Cached(cache, dirs)
      modifies this`cache
      ensures Cached(cache, dirs)
      ensures ret == if p in dirs then 0 else ENOENT
      ensures ret == 0 ==> inode == dirs[p]
    {
      if p in cache {
        return 0, cache[p];
      }
      if p !in dirs {
        return ENOENT, 0;
      }
      cache := cache[p := dirs[p]];
      return 0, dirs[p];
    }

    /** statDir. */
    method StatDir(p: Path) returns (ret: int, inode: nat)
      requires Base(Value())
      modifies this`cache
      ensures Base(Value()) && (Inv(old(Value())) ==> Inv(Value()))
      ensures ret == if p in dirs then 0 else ENOENT
      ensures ret == 0 ==> inode == dirs[p] && inode in logs
    {
      hide Lists, Closed, OwnInodes;
      ret, inode := GetDirInode(p);
    }

    /** createDirAndInode and the entry line in the parent, which exists. */
    method MakeOne(p: Path, parentInode: nat) returns (ret: int)
      requires Base(Value()) && ValidPath(p) && p != [] && Parent(p) in dirs && parentInode == dirs[Parent(p)]
      modifies this
      ensures Base(Value())
      ensures ret == if p in old(dirs) then EEXIST else 0
      ensures Value() == if ret == 0 then Made(old(Value()), p) else old(Value())
      ensures ret == 0 ==> dirs == old(dirs)[p := old(next)]
      ensures Inv(old(Value())) && Clean(p[|p| - 1]) ==> Inv(Value())
      ensures Clean(p[|p| - 1]) ==> KeepsFiles(old(logs), logs)
      ensures Clean(p[|p| - 1]) && ret == 0 ==> Shown() == old(Shown())[p := {}]
    {
      hide Base, Inv, KeepsFiles, Clean, Line, Tidy, ValidName, ValidPath, View;
      SameFiles(logs);
      if p in dirs {
        return EEXIST;
      }
      LastValid(p);
      MadeKeepsBase(Value(), p);
      LogOf(Value(), Parent(p));
      if Inv(Value()) {
        MadeKeepsInv(Value(), p);
      }
      if Clean(p[|p| - 1]) {
        LogKeepsFiles(logs[next := ""], parentInode, false, p[|p| - 1]);
        OneMoreLog(logs, Log(logs[next := ""], parentInode, Line(false, EntryOf(p[|p| - 1]))), next);
        MadeView(Value(), p);
      }
      dirs := dirs[p := next];
      logs := logs[next := ""];
      logs := logs[parentInode := logs[parentInode] + Line(false, EntryOf(p[|p| - 1]))];
      next := next + 1;
      return 0;
    }

    /**
     makeDirsRecursively: the missing directories along the path are created.
     A sound namespace stays sound exactly when their names have no backslash.
     */
    method MakeDirsRecursively(p: Path) returns (ret: int)
      requires Base(Value()) && ValidPath(p)
      modifies this
      ensures Base(Value()) && ret == 0
      ensures forall q :: q in dirs <==> q in old(dirs) || AtOrAbove(q, p)
      ensures forall q :: q in old(dirs) ==> dirs[q] == old(dirs)[q]
      ensures Inv(old(Value())) ==> (Inv(Value()) <==> CleanPath(p))
      ensures CleanPath(p) ==> KeepsFiles(old(logs), logs)
      ensures CleanPath(p) ==> Shown() == Grown(old(Shown()), p)
      decreases |p|
    {
      hide Base, Inv, Made, Files, CleanPath, View, Grown;
      var inode;
      RootExists(Value());
      ret, inode := StatDir(p);
      if ret == 0 {
        AllAncestorsExist(Value(), p);
        SoundOnlyIfClean(Value(), p);
        GrownAlready(Shown(), p);
        return;
      }
      if p == [] {
        return ENODEV;
      }
      ret := MakeDirsRecursively(Parent(p));
      if ret == 0 {
        ret, inode := StatDir(Parent(p));
        PrefixOrSelf(p);
        CleanParts(p);
        GrownStep(old(Shown()), p);
        ret := MakeOne(p, inode);
        SoundOnlyIfClean(Value(), p);
      }
    }

    /** Dir::create. */
    method Create(p: Path, mkpath: bool) returns (ret: int)
      requires Base(Value()) && ValidPath(p)
      modifies this
      ensures Base(Value())
      ensures ret == if p in old(dirs) then (if mkpath then 0 else EEXIST)
                     else if mkpath || Parent(p) in old(dirs) then 0 else ENOENT
      ensures forall q :: q in dirs <==> q in old(dirs) || (ret == 0 && (q == p || (mkpath && AtOrAbove(q, p))))
      ensures forall q :: q in old(dirs) ==> dirs[q] == old(dirs)[q]
      ensures Inv(old(Value())) ==> (Inv(Value()) <==> Harmless(old(Shown()), CreateDir(p, mkpath)))
      ensures CleanPath(p) ==> KeepsFiles(old(logs), logs)
      ensures Inv(old(Value())) && Inv(Value()) ==> Shown() == TreeStep(old(Shown()), CreateDir(p, mkpath))
      ensures dirs.Keys == TreeStep(old(Shown()), CreateDir(p, mkpath)).Keys
    {
      hide Base, Inv, Made, KeepsFiles, CleanPath, View, Grown, TreeStep;
      var inode;
      SameFiles(logs);
      RootExists(Value());
      CreateStep(Shown(), p, mkpath);
      ret, inode := StatDir(p);
      if ret == 0 {
        AllAncestorsExist(Value(), p);
        SoundOnlyIfClean(Value(), p);
        return if mkpath then 0 else EEXIST;
      }
      PrefixOrSelf(p);
      CleanParts(p);
      GrownKeys(old(Shown()), Parent(p));
      if mkpath {
        ret := MakeDirsRecursively(Parent(p));
        if ret != 0 {
          return;
        }
      }
      ret, inode := StatDir(Parent(p));
      if ret != 0 {
        return;
      }
      SoundOnlyIfClean(Value(), Parent(p));
      ghost var made := logs;
      ret := MakeOne(p, inode);
      SoundOnlyIfClean(Value(), p);
      StillKept(old(logs), made, logs);
    }

    /**
     Dir::remove; the root has no parent and is not removed. A directory counts
     as empty when its log lists nothing, or lists the empty name.
     */
    method RemoveDir(p: Path) returns (ret: int)
      requires Base(Value()) && p != []
      modifies this
      ensures p !in old(dirs) ==> ret == ENOENT
      ensures p in old(dirs) ==> old(dirs)[p] in old(logs)
      ensures p in old(dirs) ==>
                var names := Names(old(logs)[old(dirs)[p]]);
                ret == if names != {} && "" !in names then ENOTEMPTY else 0
      ensures ret != 0 ==> dirs == old(dirs) && logs == old(logs) && Base(Value())
      ensures ret == 0 ==> Parent(p) in old(dirs) && dirs == old(dirs) - {p} && logs == Removed(old(Value()), p).logs
      ensures ret == 0 ==> logs.Keys == old(logs).Keys - {old(dirs)[p]}
      ensures Inv(old(Value())) ==> Inv(Value()) && KeepsFiles(logs, old(logs))
      ensures Inv(old(Value())) ==> Shown() == TreeStep(old(Shown()), Remove(p))
    {
      hide Base, Inv, Names, KeepsFiles, Line, Clean, Tidy, View, Vacant;
      var inode, parentInode;
      SameFiles(logs);
      ParentExists(Value(), p);
      ret, parentInode := StatDir(Parent(p));
      if ret != 0 {
        return;
      }
      ret, inode := StatDir(p);
      if ret != 0 {
        return;
      }
      if Inv(Value()) {
        EmptyIsVacant(Value(), p);
      }
      var entries := Names(logs[inode]);
      if entries != {} && "" !in entries {
        return ENOTEMPTY;
      }
      OtherInode(Value(), p);
      LogOf(Value(), Parent(p));
      if Inv(Value()) {
        NoEmptyName(Value(), p);
        RemovedKeepsInv(Value(), p);
        IsListed(Value(), p);
        LastIsName(Value(), p);
        LogKeepsFiles(logs - {inode}, parentInode, true, p[|p| - 1]);
        OneLogLess(logs, Log(logs - {inode}, parentInode, Line(true, EntryOf(p[|p| - 1]))), inode);
        RemovedView(Value(), p);
      }
      dirs := dirs - {p};
      logs := logs - {inode};
      cache := cache - {p};
      logs := logs[parentInode := logs[parentInode] + Line(true, EntryOf(p[|p| - 1]))];
    }

    /** moveDirTreeObjects: subdirectories first, then the path object itself. */
    method MoveDirTreeObjects(from: Path, to: Path) returns (ret: int)
      requires Movable(dirs, logs, from, to) && Cached(cache, dirs)
      modifies this`dirs, this`cache
      ensures ret == 0 && Cached(cache, dirs) && Relocates(old(dirs), dirs, from, to)
      decreases Subtree(dirs, from)
    {
      hide PartlyMoved, Relocates, Names, Subtree, Movable;
      ghost var d0 := dirs;
      MovableSource(d0, logs, from, to);
      PartlyNone(d0, from, to);
      ghost var names, done := Names(logs[dirs[from]]), {};
      var entries := Names(logs[dirs[from]]);
      while entries != {}
        invariant entries <= names
        invariant forall e :: e in names - entries && IsDirEntry(e) ==> Comp(e) in done
        invariant forall c :: c in done ==> EntryOf(c) !in entries
        invariant PartlyMoved(d0, dirs, from, to, done) && Cached(cache, dirs)
        decreases |entries|
      {
        var entry :| entry in entries;
        entries := entries - {entry};
        if IsDirEntry(entry) {
          var c := Comp(entry);
          EntryOfComp(entry);
          ListedChild(d0, logs, from, to, entry);
          MovableBelow(d0, dirs, logs, from, to, done, c);
          SmallerSubtree(d0, dirs, from, to, done, c);
          var subRet, subInode := GetDirInode(from + [c]);
          ghost var d := dirs;
          subRet := MoveDirTreeObjects(from + [c], to + [c]);
          if subRet != 0 {
            return subRet;
          }
          PartlyOneMore(d0, d, dirs, from, to, done, c);
          done := done + {c};
        }
      }
      EveryChildDone(d0, logs, from, to, done);
      PartlyAll(d0, dirs, from, to, done);
      ret := MoveObject(from, to);
    }

    /** The last steps of moveDirTreeObjects: createDirObject, updateDirInode, remove. */
    method MoveObject(from: Path, to: Path) returns (ret: int)
      requires from in dirs && to !in dirs && from != to && Cached(cache, dirs)
      modifies this`dirs, this`cache
      ensures ret == 0 && Cached(cache, dirs)
      ensures dirs == old(dirs)[to := old(dirs)[from]] - {from}
    {
      dirs := dirs[to := dirs[from]];
      if from in cache {
        cache := cache[to := cache[from]];
        cache := cache - {from};
      }
      dirs := dirs - {from};
      return 0;
    }

    /**
     Dir::rename to a directory path. The namespace stays sound exactly when
     the new name has no backslash.
     */
    method RenameDir(p: Path, dest: Path) returns (ret: int)
      requires Inv(Value()) && ValidPath(dest)
      modifies this
      ensures Base(Value())
      ensures ret == if p !in old(dirs) then ENOENT
                     else if dest == [] then EISDIR
                     else if Parent(dest) !in old(dirs) then ENOENT
                     else if dest in old(dirs) || p <= dest then EPERM else 0
      ensures ret != 0 ==> dirs == old(dirs) && logs == old(logs)
      ensures ret == 0 ==> Relocates(old(dirs), dirs, p, dest)
      ensures ret == 0 ==> p != [] && Parent(p) in old(dirs) && logs == RenamedLogs(old(Value()), p, dest)
      ensures Inv(Value()) <==> Harmless(old(Shown()), Rename(p, dest))
      ensures dest != [] && Clean(dest[|dest| - 1]) ==> KeepsFiles(old(logs), logs)
      ensures Inv(Value()) ==> Shown() == TreeStep(old(Shown()), Rename(p, dest))
      ensures dirs.Keys == TreeStep(old(Shown()), Rename(p, dest)).Keys
    {
      hide Inv, Base, Relocates, KeepsFiles, Clean, Line, View, TreeStep, Tidy, ValidPath;
      SameFiles(logs);
      FreeIsRenamable(Value(), p, dest);
      RenameStep(Shown(), p, dest);
      SoundIsBase(Value());
      var inode, parentInode, newParentInode;
      ret, inode := StatDir(p);
      if ret != 0 {
        return;
      }
      if dest == [] {
        return EISDIR;
      }
      ret, newParentInode := StatDir(Parent(dest));
      if ret != 0 {
        return;
      }
      ret, inode := StatDir(dest);
      if ret == 0 || dest == p {
        return EPERM;
      }
      if p <= dest {
        return EPERM;
      }
      RenamableApart(Value(), p, dest);
      IsListed(Value(), p);
      ret, parentInode := StatDir(Parent(p));
      ghost var s := Value();
      RenameReady(s, p, dest);
      RenameKeepsFiles(s, p, dest);
      logs := Log(logs, newParentInode, Line(false, EntryOf(dest[|dest| - 1])));
      logs := Log(logs, parentInode, Line(true, EntryOf(p[|p| - 1])));
      ret := MoveDirTreeObjects(p, dest);
      RenamedKeepsInv(s, Value(), p, dest);
      RenamedView(s, Value(), p, dest);
    }

    /**
     Any run of the operations, from a new filesystem or any sound one, goes on
     being sound up to the first command that gives a directory a name with a
     backslash: n commands have been performed, and if not all, then number n
     was such a one and the namespace is unsound after it. While it is sound,
     every ancestor of a directory exists, the log of a directory lists exactly
     its subdirectories, and the path cache holds only what the store holds.
     */
    method AnyRun(cmds: seq<Command>) returns (n: nat, sound: bool, ghost before: Tree)
      requires Inv(Value()) && forall k :: 0 <= k < |cmds| ==> WellFormed(cmds[k])
      modifies this
      ensures n <= |cmds| && (sound <==> Inv(Value()))
      ensures sound ==> n == |cmds| && Shown() == TreeRun(old(Shown()), cmds)
      ensures !sound ==> 0 < n && before == TreeRun(old(Shown()), cmds[..n - 1]) && !Harmless(before, cmds[n - 1])
      ensures dirs.Keys == TreeRun(old(Shown()), cmds[..n]).Keys
      ensures sound ==> forall p :: p in dirs ==> AncestorsIn(p, dirs) && Lists(dirs, logs, p)
      ensures sound ==> forall p :: p in cache ==> p in dirs && cache[p] == dirs[p]
    {
      hide Lists, Base, Names, Harmless, TreeStep, View;
      n, sound, before := 0, true, Shown();
      assert cmds[..0] == [];
      while n < |cmds| && sound
        invariant n <= |cmds| && (sound <==> Inv(Value()))
        invariant sound ==> Shown() == TreeRun(old(Shown()), cmds[..n])
        invariant !sound ==> 0 < n && before == TreeRun(old(Shown()), cmds[..n - 1]) && !Harmless(before, cmds[n - 1])
        invariant dirs.Keys == TreeRun(old(Shown()), cmds[..n]).Keys
        decreases |cmds| - n
      {
        before := Shown();
        assert cmds[..n + 1][..n] == cmds[..n];
        sound := Perform(cmds[n]);
        n := n + 1;
      }
      assert cmds[..|cmds|] == cmds;
      if sound {
        CacheIsSound(Value());
        SoundIsBase(Value());
        forall p | p in dirs ensures AncestorsIn(p, dirs) && Lists(dirs, logs, p) {
          AllAncestorsExist(Value(), p);
        }
      }
    }

    /** One command; tells whether it was harmless. */
    method Perform(cmd: Command) returns (sound: bool)
      requires Inv(Value()) && WellFormed(cmd)
      modifies this
      ensures sound <==> Inv(Value())
      ensures sound <==> Harmless(old(Shown()), cmd)
      ensures sound ==> Shown() == TreeStep(old(Shown()), cmd)
      ensures dirs.Keys == TreeStep(old(Shown()), cmd).Keys
    {
      hide Inv, Base, TreeStep, View;
      SoundIsBase(Value());
      var ret;
      match cmd
      case CreateDir(p, mkpath) =>
        sound := p == [] || (!mkpath && Parent(p) !in dirs) || CleanPath(p);
        ret := Create(p, mkpath);
      case Remove(p) =>
        ret := RemoveDir(p);
        sound := true;
      case Rename(p, dest) =>
        sound := p !in dirs || dest == [] || dest in dirs || Parent(dest) !in dirs || p <= dest || Clean(dest[|dest| - 1]);
        ret := RenameDir(p, dest);
    }
  }

  /**
   A directory named by a single backslash is logged under the empty name. Its
   parent then counts as empty, and a remove takes it away from above it.
   */
  lemma BackslashChildIsOrphaned(s: Store, p: Path)
    requires Inv(s) && p in s.dirs && p != [] && Names(s.logs[s.dirs[p]]) == {} && p + ["\\"] !in s.dirs
    ensures var s' := Made(s, p + ["\\"]);
            Base(s') && p + ["\\"] in s'.dirs && s'.dirs[p] in s'.logs && Names(s'.logs[s'.dirs[p]]) == {""} &&
            !Closed(s'.dirs - {p})
  {
    hide Names, Line, Lists, Tidy, ValidName, Base, Closed;
    var c := p + ["\\"];
    assert Parent(c) == p && c[|c| - 1] == "\\";
    SoundIsBase(s);
    LogOf(s, p);
    BackslashPath(s, p);
    MadeKeepsBase(s, c);
    BackslashNames(s.logs[s.dirs[p]]);
    assert c in Made(s, c).dirs - {p};
    NotClosed(Made(s, c).dirs - {p}, c);
  }

  lemma BackslashPath(s: Store, p: Path)
    requires Base(s) && p in s.dirs
    ensures ValidPath(p + ["\\"])
  {
    hide Tidy;
  }

  lemma NotClosed(d: map<Path, nat>, c: Path)
    requires c in d && c != [] && Parent(c) !in d
    ensures !Closed(d)
  {
  }

  lemma MovableSource(d: map<Path, nat>, logs: map<nat, string>, from: Path, to: Path)
    requires Movable(d, logs, from, to)
    ensures from in d && d[from] in logs && Apart(from, to) && NothingAt(d, to) && ClosedBelow(d, from)
  {
    assert Lists(d, logs, from);
  }

  lemma ListedChild(d: map<Path, nat>, logs: map<nat, string>, from: Path, to: Path, e: string)
    requires Movable(d, logs, from, to) && IsDirEntry(e) && d[from] in logs && e in Names(logs[d[from]])
    ensures from + [Comp(e)] in d
  {
    assert Lists(d, logs, from);
  }

  /** The two lines of a rename leave the subtree's own logs alone. */
  lemma RenameReady(s: Store, p: Path, dest: Path)
    requires Inv(s) && Renamable(s, p, dest)
    ensures p != [] && Parent(p) in s.dirs
    ensures Cached(s.cache, s.dirs)
    ensures Movable(s.dirs, RenamedLogs(s, p, dest), p, dest)
  {
    hide Names, Line, RenamedLogs;
    RenamableApart(s, p, dest);
    forall q | q in s.dirs && p <= q ensures ValidPath(q) && Lists(s.dirs, RenamedLogs(s, p, dest), q) {
      assert Lists(s.dirs, s.logs, q);
      BelowIsNoParent(p, dest, q);
      RenamedLog(s, p, dest, q);
      assert s.logs[s.dirs[q]] + "" + "" == s.logs[s.dirs[q]];
    }
  }

  lemma RenameKeepsFiles(s: Store, p: Path, dest: Path)
    requires Inv(s) && Renamable(s, p, dest) && p != [] && Parent(p) in s.dirs && Clean(p[|p| - 1])
    ensures Clean(dest[|dest| - 1]) ==> KeepsFiles(s.logs, RenamedLogs(s, p, dest))
  {
    hide Files, Line, Lists, Closed, OwnInodes, Cached, Clean, Tidy, ValidName, Names;
    var to, from := s.dirs[Parent(dest)], s.dirs[Parent(p)];
    LastValid(dest);
    PathsValid(s.dirs, p);
    if Clean(dest[|dest| - 1]) {
      LogKeepsFiles(s.logs, to, false, dest[|dest| - 1]);
      var logs := Log(s.logs, to, Line(false, EntryOf(dest[|dest| - 1])));
      EntryLogged(s.logs[to], false, dest[|dest| - 1]);
      LogKeepsFiles(logs, from, true, p[|p| - 1]);
    }
  }

  lemma SameFiles(logs: map<nat, string>)
    ensures KeepsFiles(logs, logs)
  {
    hide Files;
  }

  lemma StillKept(a: map<nat, string>, b: map<nat, string>, c: map<nat, string>)
    ensures KeepsFiles(a, b) && KeepsFiles(b, c) ==> KeepsFiles(a, c)
  {
    hide Files;
  }

  lemma OneMoreLog(logs: map<nat, string>, logs': map<nat, string>, i: nat)
    requires i !in logs && KeepsFiles(logs[i := ""], logs')
    ensures KeepsFiles(logs, logs')
  {
    hide Files;
  }

  lemma OneLogLess(logs: map<nat, string>, logs': map<nat, string>, i: nat)
    requires KeepsFiles(logs', logs - {i})
    ensures KeepsFiles(logs', logs)
  {
    hide Files;
  }

  lemma LogOf(s: Store, p: Path)
    requires Base(s) && p in s.dirs
    ensures s.dirs[p] in s.logs && s.dirs[p] < s.next && s.next !in s.logs && Tidy(s.logs[s.dirs[p]])
  {
  }

  lemma SoundIsBase(s: Store)
    requires Inv(s)
    ensures Base(s)
  {
  }

  /** A path with a backslash in it exists only in an unsound namespace. */
  lemma SoundOnlyIfClean(s: Store, p: Path)
    requires p in s.dirs
    ensures Inv(s) ==> CleanPath(p)
  {
    if Inv(s) {
      SoundPathsAreClean(s, p);
    }
  }

  lemma CleanParts(p: Path)
    requires p != []
    ensures CleanPath(p) <==> CleanPath(Parent(p)) && Clean(p[|p| - 1])
  {
    hide Clean;
    assert forall i :: 0 <= i < |p| - 1 ==> p[i] == Parent(p)[i];
    if CleanPath(Parent(p)) && Clean(p[|p| - 1]) {
      forall i | 0 <= i < |p| ensures Clean(p[i]) {
        assert i < |p| - 1 ==> Clean(Parent(p)[i]);
      }
    }
  }

  lemma RootExists(s: Store)
    requires Base(s)
    ensures [] in s.dirs
  {
  }

  lemma ParentExists(s: Store, p: Path)
    requires Base(s) && p != []
    ensures p in s.dirs ==> Parent(p) in s.dirs && s.dirs[p] in s.logs
  {
  }

  lemma CacheIsSound(s: Store)
    requires Inv(s)
    ensures forall p :: p in s.cache ==> p in s.dirs && s.cache[p] == s.dirs[p]
  {
  }

  lemma AllAncestorsExist(s: Store, p: Path)
    requires Base(s) && p in s.dirs
    ensures forall q :: AtOrAbove(q, p) ==> q in s.dirs
  {
    forall q | AtOrAbove(q, p) ensures q in s.dirs {
      AncestorsExist(s.dirs, q, p);
    }
  }

  lemma OtherInode(s: Store, p: Path)
    requires Base(s) && p in s.dirs && p != []
    ensures s.dirs[Parent(p)] != s.dirs[p]
  {
  }

  lemma PrefixOrSelf(p: Path)
    requires p != []
    ensures forall q :: AtOrAbove(q, p) <==> AtOrAbove(q, Parent(p)) || q == p
  {
  }
}
