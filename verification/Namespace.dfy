/**
 The directory namespace as values: path objects, the text logs of the
 directory inodes, the client's path-to-inode cache, and what every operation
 keeps.
 */
module Namespace {
  import opened Paths
  import opened LogText
  import opened LogLines
  import opened DirLog

  /** The names a log leaves, parsed and replayed as the directory cache does. */
  function Names(log: string): set<string> {
    Replay(EMPTY, log).names
  }

  /** The line indexObject appends for an entry; a subdirectory's name ends with a separator. */
  function Line(delete: bool, name: string): string {
    IndexLine(name, if delete then '-' else '+')
  }

  predicate IsDirEntry(e: string) {
    e != "" && e[|e| - 1] == '/'
  }

  function Comp(e: string): string
    requires IsDirEntry(e)
  {
    e[..|e| - 1]
  }

  function EntryOf(n: string): (e: string)
    ensures IsDirEntry(e) && Comp(e) == n
  {
    n + "/"
  }

  lemma EntryOfComp(e: string)
    requires IsDirEntry(e)
    ensures EntryOf(Comp(e)) == e
  {
  }

  /** Path objects, inode logs, dirPathInodeMap, and the next unused inode. */
  datatype Store = Store(dirs: map<Path, nat>, logs: map<nat, string>, cache: map<Path, nat>, next: nat)

  /** The '/'-ending names in the log of p are exactly its existing subdirectories; no name is empty. */
  ghost predicate Lists(dirs: map<Path, nat>, logs: map<nat, string>, p: Path)
    requires p in dirs
  {
    dirs[p] in logs && "" !in Names(logs[dirs[p]]) &&
    forall e :: IsDirEntry(e) ==>
      (e in Names(logs[dirs[p]]) <==> ValidName(Comp(e)) && p + [Comp(e)] in dirs)
  }

  /** Every directory's ancestors exist. */
  ghost predicate Closed(dirs: map<Path, nat>) {
    [] in dirs && forall p :: p in dirs ==> ValidPath(p) && (p != [] ==> Parent(p) in dirs)
  }

  ghost predicate OwnInodes(dirs: map<Path, nat>) {
    forall p, q :: p in dirs && q in dirs && dirs[p] == dirs[q] ==> p == q
  }

  ghost predicate Cached(cache: map<Path, nat>, dirs: map<Path, nat>) {
    forall p :: p in cache ==> p in dirs && cache[p] == dirs[p]
  }

  /** Every directory has a log of whole lines whose names are in step. */
  ghost predicate Logged(dirs: map<Path, nat>, logs: map<nat, string>) {
    forall p :: p in dirs ==> dirs[p] in logs && Tidy(logs[dirs[p]])
  }

  /** A store whose directories hang together, whatever their logs list. */
  ghost predicate Base(s: Store) {
    && Closed(s.dirs) && OwnInodes(s.dirs) && Cached(s.cache, s.dirs) && Logged(s.dirs, s.logs)
    && (forall i :: i in s.logs ==> i < s.next)
  }

  /** A sound store: every log also lists exactly the subdirectories. */
  ghost predicate Inv(s: Store) {
    Base(s) && forall p :: p in s.dirs ==> Lists(s.dirs, s.logs, p)
  }

  function Log(logs: map<nat, string>, i: nat, line: string): map<nat, string> {
    if i in logs then logs[i := logs[i] + line] else logs
  }

  // ----- lines and names -----

  lemma LineTerminates(log: string, delete: bool, name: string)
    ensures Terminated(log + Line(delete, name))
  {
    hide IndexText;
  }

  /** A line is the step on the names with the name that comes out of printing and parsing it. */
  lemma LoggedNames(log: string, delete: bool, name: string)
    requires Tidy(log) && Whole(name)
    ensures Names(log + Line(delete, name)) == NameStep(Names(log), LoggedName(name), delete)
    ensures Tidy(log + Line(delete, name))
  {
    hide ParsedLines, IndexLine, LoggedName;
    var op := if delete then '-' else '+';
    AnyEntryLine(name, op);
    ReplayConcat(EMPTY, log, IndexLine(name, op));
    var c, p := Replay(EMPTY, log), NOTHING.(name := LoggedName(name), delete := delete);
    assert ReplayAll(c, [p][..0]) == c;
    assert ReplayAll(c, [p]) == ReplayLine(c, p);
    LoggedWhole(name);
    ReplayLineNames(c, p);
    ReplayLineSound(c, p);
    LineTerminates(log, delete, name);
  }

  /** For a name without backslash that is the name itself. */
  lemma NamesAppend(log: string, delete: bool, name: string)
    requires Tidy(log) && Loggable(name)
    ensures Names(log + Line(delete, name)) == NameStep(Names(log), name, delete)
  {
    hide Names, Line;
    LoggedNames(log, delete, name);
    CleanClosesWell(name);
    EscapeRoundTrip(name);
  }

  lemma NoNames()
    ensures Names("") == {} && Tidy("")
  {
  }

  /** Whatever a log holds, it never lists a subdirectory with a backslash in its name. */
  lemma NeverListed(log: string, n: string)
    ensures EntryOf(n) in Names(log) ==> Clean(n)
  {
    hide ParsedLines, ReplayAll;
    ParsedAreUnescaped(log);
    ReplayedUnescaped(ParsedLines(log));
    if EntryOf(n) in Names(log) {
      var t :| EntryOf(n) == Unescape(t);
      forall i | 0 <= i < |n| ensures n[i] != '\\' {
        if n[i] == '\\' {
          UnescapedBackslash(t, i);
        }
      }
    }
  }

  lemma {:induction false} ParsedAreUnescaped(text: string)
    ensures forall k :: 0 <= k < |ParsedLines(text)| ==> Unescaped(ParsedLines(text)[k].name)
    decreases |text|
  {
    hide ParseLine;
    if text != [] {
      ParsedAreUnescaped(AfterLine(text));
      LineNameUnescaped(text[..LineEnd(text)]);
    }
  }

  lemma LineNameUnescaped(line: string)
    ensures Unescaped(ParseLine(line).name)
  {
    hide ParseFrom;
    assert Unescape("") == "";
    ParsedNameIsUnescaped(line, 0, NOTHING);
  }

  lemma {:induction false} ReplayedUnescaped(ps: seq<Parsed>)
    requires forall k :: 0 <= k < |ps| ==> Unescaped(ps[k].name)
    ensures forall n :: n in ReplayAll(EMPTY, ps).names ==> Unescaped(n)
  {
    hide Unescaped;
    if ps != [] {
      ReplayedUnescaped(ps[..|ps| - 1]);
    }
  }

  /** The names of a directory that are not subdirectories. */
  function Files(log: string): set<string> {
    set n | n in Names(log) && !IsDirEntry(n)
  }

  /** Every log of a is still there in b and lists the same files. */
  ghost predicate KeepsFiles(a: map<nat, string>, b: map<nat, string>) {
    forall i :: i in a ==> i in b && Files(b[i]) == Files(a[i])
  }

  lemma EntryClean(n: string)
    ensures Clean(EntryOf(n)) <==> Clean(n)
  {
    if Clean(EntryOf(n)) {
      forall i | 0 <= i < |n| ensures n[i] != '\\' {
        assert EntryOf(n)[i] == n[i];
      }
    }
  }

  /** What a line about a subdirectory does to a log. */
  lemma EntryLogged(log: string, delete: bool, n: string)
    requires Tidy(log) && ValidName(n)
    ensures Tidy(log + Line(delete, EntryOf(n)))
    ensures Clean(n) ==> Names(log + Line(delete, EntryOf(n))) == NameStep(Names(log), EntryOf(n), delete)
  {
    hide Names, Line, Tidy, Clean, LoggedName;
    EntryClean(n);
    LoggedNames(log, delete, EntryOf(n));
    if Clean(n) {
      NamesAppend(log, delete, EntryOf(n));
    }
  }

  /** A line about a subdirectory touches no file, even where it inserts what it should remove. */
  lemma LogKeepsFiles(logs: map<nat, string>, i: nat, delete: bool, n: string)
    requires ValidName(n) && Clean(n) && (i in logs ==> Tidy(logs[i]))
    ensures var logs' := Log(logs, i, Line(delete, EntryOf(n))); KeepsFiles(logs, logs') && KeepsFiles(logs', logs)
  {
    hide Names, Line, Tidy, ValidName, Clean;
    if i in logs {
      EntryLogged(logs[i], delete, n);
      assert Files(logs[i] + Line(delete, EntryOf(n))) == Files(logs[i]);
    }
  }

  /** The last name of a directory that exists, or could, is a valid one. */
  lemma LastValid(p: Path)
    requires ValidPath(p) && p != []
    ensures ValidName(p[|p| - 1])
  {
  }

  lemma PathsValid(dirs: map<Path, nat>, p: Path)
    requires Closed(dirs) && p in dirs
    ensures ValidPath(p) && (p != [] ==> Parent(p) in dirs && ValidName(p[|p| - 1]))
  {
  }

  lemma {:induction false} AncestorsExist(dirs: map<Path, nat>, p: Path, q: Path)
    requires Closed(dirs) && q in dirs && p <= q
    ensures p in dirs
    decreases |q|
  {
    if p != q {
      assert p <= Parent(q);
      AncestorsExist(dirs, p, Parent(q));
    }
  }

  /** In a sound store a directory is listed by its parent, so its name has no backslash. */
  lemma IsListed(s: Store, q: Path)
    requires Inv(s) && q in s.dirs && q != []
    ensures Parent(q) in s.dirs && s.dirs[Parent(q)] in s.logs
    ensures EntryOf(q[|q| - 1]) in Names(s.logs[s.dirs[Parent(q)]])
    ensures Clean(q[|q| - 1])
  {
    hide Names, Tidy, OwnInodes, Cached, ValidName, Clean;
    var n := q[|q| - 1];
    assert q == Parent(q) + [n] && Comp(EntryOf(n)) == n;
    PathsValid(s.dirs, q);
    assert Lists(s.dirs, s.logs, Parent(q));
    NeverListed(s.logs[s.dirs[Parent(q)]], n);
  }

  predicate CleanPath(p: Path) {
    forall i :: 0 <= i < |p| ==> Clean(p[i])
  }

  lemma {:induction false} SoundPathsAreClean(s: Store, q: Path)
    requires Inv(s) && q in s.dirs
    ensures CleanPath(q)
    decreases |q|
  {
    hide Names, Inv, Clean;
    if q != [] {
      IsListed(s, q);
      SoundPathsAreClean(s, Parent(q));
      assert forall i :: 0 <= i < |q| - 1 ==> q[i] == Parent(q)[i];
    }
  }

  /** A directory named a\\b is logged as a, and one named by a backslash alone as nothing. */
  lemma BackslashNames(log: string)
    requires Tidy(log)
    ensures Names(log + Line(false, EntryOf("a\\b"))) == Names(log) + {"a/"}
    ensures Names(log + Line(false, EntryOf("\\"))) == Names(log) + {""}
  {
    hide Names, Line, Escape, Unescape;
    assert EntryOf("a\\b") == "a\\b/" && EntryOf("\\") == "\\/";
    LoggedNames(log, false, "a\\b/");
    LoggedNames(log, false, "\\/");
    BackslashTexts();
  }

  lemma BackslashTexts()
    ensures Unescape(Escape("a\\b/")) == "a/" && Unescape(Escape("\\/")) == ""
  {
    EscapeCons('/', "");
    EscapeCons('b', "/");
    EscapeCons('\\', "b/");
    EscapeCons('a', "\\b/");
    EscapeCons('\\', "/");
    assert "a\\b/"[1..] == "\\b/" && "\\b/"[2..] == "/" && "\\/"[2..] == "";
  }

  lemma EscapeCons(c: char, s: string)
    ensures Escape([c] + s) == EscapeChar(c) + Escape(s)
  {
    assert ([c] + s)[1..] == s;
  }

  // ----- creating and removing one directory -----

  /** createDirAndInode and indexObject for a directory whose parent exists. */
  ghost function Made(s: Store, p: Path): Store
    requires p != [] && Parent(p) in s.dirs
  {
    Store(s.dirs[p := s.next],
          Log(s.logs[s.next := ""], s.dirs[Parent(p)], Line(false, EntryOf(p[|p| - 1]))),
          s.cache, s.next + 1)
  }

  lemma MadeKeepsBase(s: Store, p: Path)
    requires Base(s) && ValidPath(p) && p != [] && p !in s.dirs && Parent(p) in s.dirs
    ensures Base(Made(s, p))
  {
    hide Tidy, Line, Names, ValidName;
    NoNames();
    LastValid(p);
    EntryLogged(s.logs[s.dirs[Parent(p)]], false, p[|p| - 1]);
  }

  lemma MadeLists(s: Store, p: Path, q: Path)
    requires Inv(s) && ValidPath(p) && p != [] && p !in s.dirs && Parent(p) in s.dirs && q in Made(s, p).dirs
    requires Clean(p[|p| - 1])
    ensures Lists(Made(s, p).dirs, Made(s, p).logs, q)
  {
    hide Names, Line, Clean, Tidy, ValidName;
    var s' := Made(s, p);
    var n := p[|p| - 1];
    LastValid(p);
    NoNames();
    assert p == Parent(p) + [n];
    assert q != p ==> Lists(s.dirs, s.logs, q) && (q == Parent(p) <==> s.dirs[q] == s.dirs[Parent(p)]);
    EntryLogged(s.logs[s.dirs[Parent(p)]], false, n);
    assert EntryOf(n) != "";
    forall e | IsDirEntry(e)
      ensures e in Names(s'.logs[s'.dirs[q]]) <==> ValidName(Comp(e)) && q + [Comp(e)] in s'.dirs
    {
      EntryOfComp(e);
      assert q + [Comp(e)] == p <==> q == Parent(p) && Comp(e) == n by {
        assert (q + [Comp(e)])[..|q|] == q;
      }
      if q == p {
        assert Parent(p + [Comp(e)]) == p;
        assert Names(s'.logs[s'.dirs[q]]) == {};
      } else if q != Parent(p) {
        assert s.dirs[q] != s.dirs[Parent(p)];
      }
    }
  }

  /** Creating a directory keeps the store sound exactly when its name has no backslash. */
  lemma MadeKeepsInv(s: Store, p: Path)
    requires Inv(s) && ValidPath(p) && p != [] && p !in s.dirs && Parent(p) in s.dirs
    ensures Base(Made(s, p))
    ensures Inv(Made(s, p)) <==> Clean(p[|p| - 1])
  {
    hide Lists, Closed, OwnInodes, Cached, Logged, Clean, Made;
    MadeKeepsBase(s, p);
    if Clean(p[|p| - 1]) {
      forall q | q in Made(s, p).dirs ensures Lists(Made(s, p).dirs, Made(s, p).logs, q) {
        MadeLists(s, p, q);
      }
    }
    MadeIsThere(s, p);
    if Inv(Made(s, p)) {
      IsListed(Made(s, p), p);
    }
  }

  lemma MadeIsThere(s: Store, p: Path)
    requires p != [] && Parent(p) in s.dirs
    ensures p in Made(s, p).dirs
  {
  }

  /** A directory just created is listed under its own name exactly when the name has no backslash. */
  lemma ListedWhenClean(s: Store, p: Path)
    requires Base(s) && ValidPath(p) && p != [] && p !in s.dirs && Parent(p) in s.dirs
    ensures var s', n := Made(s, p), p[|p| - 1];
            s'.dirs[Parent(p)] in s'.logs &&
            (EntryOf(n) in Names(s'.logs[s'.dirs[Parent(p)]]) <==> Clean(n))
  {
    hide Names, Line, Clean, Tidy, ValidName;
    var n, log := p[|p| - 1], s.logs[s.dirs[Parent(p)]];
    LastValid(p);
    NeverListed(Made(s, p).logs[Made(s, p).dirs[Parent(p)]], n);
    EntryLogged(log, false, n);
  }

  /** remove of an empty directory. */
  ghost function Removed(s: Store, p: Path): Store
    requires p != [] && p in s.dirs && Parent(p) in s.dirs
  {
    Store(s.dirs - {p},
          Log(s.logs - {s.dirs[p]}, s.dirs[Parent(p)], Line(true, EntryOf(p[|p| - 1]))),
          s.cache - {p}, s.next)
  }

  lemma RemovedLists(s: Store, p: Path, q: Path)
    requires Inv(s) && p != [] && p in s.dirs && q in Removed(s, p).dirs
    ensures Lists(Removed(s, p).dirs, Removed(s, p).logs, q)
  {
    hide Names, Line, Clean, Tidy, ValidName;
    var s' := Removed(s, p);
    var n := p[|p| - 1];
    IsListed(s, p);
    PathsValid(s.dirs, p);
    assert p == Parent(p) + [n];
    assert Lists(s.dirs, s.logs, q) && Lists(s.dirs, s.logs, Parent(p));
    assert s.dirs[q] != s.dirs[p] && s.dirs[Parent(p)] != s.dirs[p];
    assert q == Parent(p) <==> s.dirs[q] == s.dirs[Parent(p)];
    EntryLogged(s.logs[s.dirs[Parent(p)]], true, n);
    forall e | IsDirEntry(e)
      ensures e in Names(s'.logs[s'.dirs[q]]) <==> ValidName(Comp(e)) && q + [Comp(e)] in s'.dirs
    {
      EntryOfComp(e);
      assert q + [Comp(e)] == p <==> q == Parent(p) && Comp(e) == n by {
        assert (q + [Comp(e)])[..|q|] == q;
      }
      if q != Parent(p) {
        assert s.dirs[q] != s.dirs[Parent(p)];
      }
    }
  }

  lemma RemovedKeepsInv(s: Store, p: Path)
    requires Inv(s) && p != [] && p in s.dirs
    requires forall e :: e in Names(s.logs[s.dirs[p]]) ==> !IsDirEntry(e)
    ensures Inv(Removed(s, p))
  {
    hide Names, Line, Clean, Tidy, ValidName;
    var s' := Removed(s, p);
    assert Lists(s.dirs, s.logs, p);
    PathsValid(s.dirs, p);
    EntryLogged(s.logs[s.dirs[Parent(p)]], true, p[|p| - 1]);
    forall q | q in s'.dirs && q != [] ensures Parent(q) in s'.dirs {
      IsListed(s, q);
    }
    forall q | q in s'.dirs ensures Lists(s'.dirs, s'.logs, q) {
      RemovedLists(s, p, q);
    }
  }

  // ----- renaming -----

  /** d' is d with everything at or below from moved to the same place below to. */
  ghost predicate Relocates(d: map<Path, nat>, d': map<Path, nat>, from: Path, to: Path) {
    forall q {:trigger q in d'} ::
      && (q in d' <==> if to <= q then from + q[|to|..] in d else q in d && !(from <= q))
      && (q in d' ==> d'[q] == if to <= q then d[from + q[|to|..]] else d[q])
  }

  /** Where a directory is found after the move. */
  function Moved(from: Path, to: Path, p: Path): Path {
    if from <= p then to + p[|from|..] else p
  }

  ghost predicate Apart(from: Path, to: Path) {
    !(from <= to) && !(to <= from)
  }

  ghost predicate NothingAt(d: map<Path, nat>, to: Path) {
    forall q :: q in d ==> !(to <= q)
  }

  lemma PrefixesCompare(p: Path, q: Path, r: Path)
    requires p <= r && q <= r
    ensures p <= q || q <= p
  {
  }

  lemma Resuffix(p: Path, q: Path, r: Path)
    requires p <= r
    ensures q <= q + r[|p|..] && (q + r[|p|..])[|q|..] == r[|p|..]
    ensures p + r[|p|..] == r
  {
  }

  /**
   The move loses, duplicates and overwrites nothing: every directory is found
   at its new place with its inode, two directories never meet, and every
   place in use holds a directory that was there before.
   */
  lemma RelocationIsBijective(d: map<Path, nat>, d': map<Path, nat>, from: Path, to: Path)
    requires Relocates(d, d', from, to) && NothingAt(d, to)
    ensures forall p :: p in d ==> Moved(from, to, p) in d' && d'[Moved(from, to, p)] == d[p]
    ensures forall p, p' :: p in d && p' in d && Moved(from, to, p) == Moved(from, to, p') ==> p == p'
    ensures forall q :: q in d' ==> exists p :: p in d && Moved(from, to, p) == q
  {
    forall p | p in d ensures Moved(from, to, p) in d' && d'[Moved(from, to, p)] == d[p] {
      if from <= p {
        Resuffix(from, to, p);
      }
    }
    forall p, p' | p in d && p' in d && Moved(from, to, p) == Moved(from, to, p') ensures p == p' {
      if from <= p {
        Resuffix(from, to, p);
      }
      if from <= p' {
        Resuffix(from, to, p');
      }
    }
    forall q | q in d' ensures exists p :: p in d && Moved(from, to, p) == q {
      if to <= q {
        Resuffix(to, from, q);
        assert Moved(from, to, from + q[|to|..]) == q;
      } else {
        assert Moved(from, to, q) == q;
      }
    }
  }

  /** q lies below base, through one of the given names. */
  predicate Through(q: Path, base: Path, names: set<string>) {
    |q| > |base| && base <= q && q[|base|] in names
  }

  /** The state of the move when the subdirectories with the given names are done. */
  ghost predicate PartlyMoved(d0: map<Path, nat>, d: map<Path, nat>, from: Path, to: Path, done: set<string>) {
    forall q {:trigger q in d} ::
      && (q in d <==> if Through(q, to, done) then from + q[|to|..] in d0 else q in d0 && !Through(q, from, done))
      && (q in d ==> d[q] == if Through(q, to, done) then d0[from + q[|to|..]] else d0[q])
  }

  lemma PartlyNone(d: map<Path, nat>, from: Path, to: Path)
    ensures PartlyMoved(d, d, from, to, {})
  {
  }

  lemma BelowChild(q: Path, base: Path, c: string)
    ensures base + [c] <= q <==> |q| > |base| && base <= q && q[|base|] == c
    ensures base + [c] <= q ==> q[|base| + 1..] == q[|base|..][1..] && [c] + q[|base| + 1..] == q[|base|..]
  {
    if |q| > |base| && base <= q && q[|base|] == c {
      assert base + [c] == q[..|base| + 1];
    }
  }

  lemma PartlyOneMoreAt(d0: map<Path, nat>, d: map<Path, nat>, d': map<Path, nat>, from: Path, to: Path,
                        done: set<string>, c: string, q: Path)
    requires PartlyMoved(d0, d, from, to, done) && c !in done && Apart(from, to)
    requires Relocates(d, d', from + [c], to + [c])
    ensures var done' := done + {c};
            && (q in d' <==> if Through(q, to, done') then from + q[|to|..] in d0 else q in d0 && !Through(q, from, done'))
            && (q in d' ==> d'[q] == if Through(q, to, done') then d0[from + q[|to|..]] else d0[q])
  {
    BelowChild(q, to, c);
    BelowChild(q, from, c);
    if to + [c] <= q {
      var x := from + q[|to|..];
      assert x == (from + [c]) + q[|to| + 1..];
      assert from <= x && x[|from|] == c && |x| > |from|;
      if to <= x {
        PrefixesCompare(from, to, x);
      }
      assert x in d <==> x in d0;
    } else if to <= q && from <= q {
      PrefixesCompare(from, to, q);
    }
  }

  lemma PartlyOneMore(d0: map<Path, nat>, d: map<Path, nat>, d': map<Path, nat>, from: Path, to: Path,
                      done: set<string>, c: string)
    requires PartlyMoved(d0, d, from, to, done) && c !in done && Apart(from, to)
    requires Relocates(d, d', from + [c], to + [c])
    ensures PartlyMoved(d0, d', from, to, done + {c})
  {
    forall q
      ensures var done' := done + {c};
              && (q in d' <==> if Through(q, to, done') then from + q[|to|..] in d0 else q in d0 && !Through(q, from, done'))
              && (q in d' ==> d'[q] == if Through(q, to, done') then d0[from + q[|to|..]] else d0[q])
    {
      PartlyOneMoreAt(d0, d, d', from, to, done, c, q);
    }
  }

  /** Below a directory, everything hangs on directories that exist. */
  ghost predicate ClosedBelow(d: map<Path, nat>, p: Path) {
    forall q :: q in d && p <= q && q != p ==> Parent(q) in d
  }

  lemma {:induction false} ChildOnTheWay(d: map<Path, nat>, p: Path, q: Path)
    requires ClosedBelow(d, p) && q in d && p <= q && p != q
    ensures p + [q[|p|]] in d
    decreases |q|
  {
    if |q| == |p| + 1 {
      assert q == p + [q[|p|]];
    } else {
      assert p <= Parent(q) && Parent(q)[|p|] == q[|p|];
      ChildOnTheWay(d, p, Parent(q));
    }
  }

  /** The last steps: the path object is created at its new place and removed at the old one. */
  lemma PartlyAll(d0: map<Path, nat>, d: map<Path, nat>, from: Path, to: Path, done: set<string>)
    requires PartlyMoved(d0, d, from, to, done) && Apart(from, to) && NothingAt(d0, to)
    requires from in d0 && ClosedBelow(d0, from)
    requires forall c :: from + [c] in d0 ==> c in done
    ensures to !in d && from in d && d[from] == d0[from]
    ensures Relocates(d0, d[to := d0[from]] - {from}, from, to)
  {
    var d' := d[to := d0[from]] - {from};
    forall q
      ensures (q in d' <==> if to <= q then from + q[|to|..] in d0 else q in d0 && !(from <= q))
      ensures q in d' ==> d'[q] == if to <= q then d0[from + q[|to|..]] else d0[q]
    {
      if to <= q {
        var x := from + q[|to|..];
        if q == to {
          assert x == from;
        } else if x in d0 {
          ChildOnTheWay(d0, from, x);
          assert x[|from|] == q[|to|];
        }
      } else if from <= q && q in d0 && q != from {
        ChildOnTheWay(d0, from, q);
      }
    }
  }

  /** The guards of rename: an existing source, a free target with a parent, not inside itself. */
  ghost predicate Renamable(s: Store, p: Path, dest: Path) {
    p in s.dirs && dest != [] && ValidPath(dest) && dest !in s.dirs && Parent(dest) in s.dirs && !(p <= dest)
  }

  lemma RenamableApart(s: Store, p: Path, dest: Path)
    requires Inv(s) && Renamable(s, p, dest)
    ensures p != [] && Apart(p, dest) && NothingAt(s.dirs, dest)
  {
    if dest <= p {
      AncestorsExist(s.dirs, dest, p);
    }
    forall q | q in s.dirs ensures !(dest <= q) {
      if dest <= q {
        AncestorsExist(s.dirs, dest, q);
      }
    }
  }

  /** The two log lines of a rename: the new name in its parent, then the old one out of its own. */
  ghost function RenamedLogs(s: Store, p: Path, dest: Path): map<nat, string>
    requires p != [] && dest != [] && Parent(p) in s.dirs && Parent(dest) in s.dirs
  {
    Log(Log(s.logs, s.dirs[Parent(dest)], Line(false, EntryOf(dest[|dest| - 1]))),
        s.dirs[Parent(p)], Line(true, EntryOf(p[|p| - 1])))
  }

  /** The lines of a rename go to two logs only. */
  lemma RenamedLog(s: Store, p: Path, dest: Path, q: Path)
    requires Base(s) && Renamable(s, p, dest) && p != [] && Parent(p) in s.dirs && q in s.dirs
    ensures s.dirs[q] in s.logs && s.dirs[q] in RenamedLogs(s, p, dest)
    ensures RenamedLogs(s, p, dest)[s.dirs[q]] ==
            s.logs[s.dirs[q]]
            + (if q == Parent(dest) then Line(false, EntryOf(dest[|dest| - 1])) else "")
            + (if q == Parent(p) then Line(true, EntryOf(p[|p| - 1])) else "")
    ensures Tidy(RenamedLogs(s, p, dest)[s.dirs[q]])
  {
    hide Line, Tidy, Closed;
    assert s.dirs[q] == s.dirs[Parent(p)] <==> q == Parent(p);
    assert s.dirs[q] == s.dirs[Parent(dest)] <==> q == Parent(dest);
    var log, plus := s.logs[s.dirs[q]], Line(false, EntryOf(dest[|dest| - 1]));
    assert log + "" == log && log + plus + "" == log + plus;
    LastValid(dest);
    PathsValid(s.dirs, p);
    EntryLogged(log, false, dest[|dest| - 1]);
    EntryLogged(log, true, p[|p| - 1]);
    EntryLogged(log + plus, true, p[|p| - 1]);
  }

  /** What the two lines do to the names of one directory. */
  lemma RenamedNames(s: Store, p: Path, dest: Path, q: Path)
    requires Inv(s) && Renamable(s, p, dest) && p != [] && q in s.dirs && Clean(dest[|dest| - 1])
    ensures s.dirs[q] in s.logs && s.dirs[q] in RenamedLogs(s, p, dest)
    ensures Names(RenamedLogs(s, p, dest)[s.dirs[q]]) ==
            Names(s.logs[s.dirs[q]])
            + (if q == Parent(dest) then {EntryOf(dest[|dest| - 1])} else {})
            - (if q == Parent(p) then {EntryOf(p[|p| - 1])} else {})
  {
    hide Names, Line, Clean, RenamedLogs, Tidy, Lists, Closed, OwnInodes, Cached;
    IsListed(s, p);
    RenamedLog(s, p, dest, q);
    var log, plus, minus := s.logs[s.dirs[q]], EntryOf(dest[|dest| - 1]), EntryOf(p[|p| - 1]);
    LastValid(dest);
    PathsValid(s.dirs, p);
    EntryLogged(log, false, dest[|dest| - 1]);
    EntryLogged(log, true, p[|p| - 1]);
    EntryLogged(log + Line(false, plus), true, p[|p| - 1]);
    assert log + "" == log && log + Line(false, plus) + "" == log + Line(false, plus);
  }

  lemma ChildAfterMove(d: map<Path, nat>, d': map<Path, nat>, p: Path, dest: Path, q: Path, c: string)
    requires Relocates(d, d', p, dest) && p in d && p != [] && dest != [] && NothingAt(d, dest)
    ensures dest <= q ==> (q + [c] in d' <==> p + q[|dest|..] + [c] in d)
    ensures !(dest <= q) && !(p <= q) ==>
              (q + [c] in d' <==>
               (q == Parent(dest) && c == dest[|dest| - 1]) ||
               (q + [c] in d && !(q == Parent(p) && c == p[|p| - 1])))
  {
    var x := q + [c];
    assert x[..|q|] == q;
    if dest <= q {
      assert x[|dest|..] == q[|dest|..] + [c];
      assert p + q[|dest|..] + [c] == p + x[|dest|..];
    } else if !(p <= q) {
      assert dest <= x <==> dest == x;
      assert p <= x <==> p == x;
      assert dest == x <==> q == Parent(dest) && c == dest[|dest| - 1] by { assert dest == Parent(dest) + [dest[|dest| - 1]]; }
      assert p == x <==> q == Parent(p) && c == p[|p| - 1] by { assert p == Parent(p) + [p[|p| - 1]]; }
      if dest == x {
        assert p + x[|dest|..] == p;
      }
    }
  }

  /** Where the directory now at q was before. */
  function Before(p: Path, dest: Path, q: Path): Path {
    if dest <= q then p + q[|dest|..] else q
  }

  lemma BeforeExists(d: map<Path, nat>, d': map<Path, nat>, p: Path, dest: Path, q: Path)
    requires Relocates(d, d', p, dest) && q in d'
    ensures var x := Before(p, dest, q);
            x in d && d'[q] == d[x] && (dest <= q ==> p <= x) && (!(dest <= q) ==> !(p <= x))
  {
  }

  lemma RenamedEntry(s: Store, d': map<Path, nat>, p: Path, dest: Path, q: Path, e: string)
    requires Inv(s) && Renamable(s, p, dest) && p != [] && NothingAt(s.dirs, dest) && Clean(dest[|dest| - 1])
    requires Relocates(s.dirs, d', p, dest) && q in d' && IsDirEntry(e)
    requires d'[q] in RenamedLogs(s, p, dest)
    ensures e in Names(RenamedLogs(s, p, dest)[d'[q]]) <==> ValidName(Comp(e)) && q + [Comp(e)] in d'
  {
    hide Relocates, NothingAt, Names, RenamedLogs, IsDirEntry, Closed, OwnInodes, Cached, ValidName, Tidy;
    var x, c := Before(p, dest, q), Comp(e);
    EntryOfComp(e);
    BeforeExists(s.dirs, d', p, dest, q);
    RenamedNames(s, p, dest, x);
    assert Lists(s.dirs, s.logs, x);
    ChildAfterMove(s.dirs, d', p, dest, q, c);
    LastIsName(s, p);
    if dest <= q {
      BelowIsNoParent(p, dest, x);
    }
  }

  lemma LastIsName(s: Store, p: Path)
    requires Inv(s) && p in s.dirs && p != []
    ensures ValidName(p[|p| - 1])
  {
  }

  lemma BelowIsNoParent(p: Path, dest: Path, x: Path)
    requires p <= x && p != [] && dest != [] && !(p <= dest)
    ensures x != Parent(p) && x != Parent(dest)
  {
  }

  lemma NoEmptyName(s: Store, q: Path)
    requires Inv(s) && q in s.dirs
    ensures s.dirs[q] in s.logs && "" !in Names(s.logs[s.dirs[q]])
  {
    assert Lists(s.dirs, s.logs, q);
  }

  lemma RenamedLists(s: Store, d': map<Path, nat>, p: Path, dest: Path, q: Path)
    requires Inv(s) && Renamable(s, p, dest) && p != [] && NothingAt(s.dirs, dest) && Clean(dest[|dest| - 1])
    requires Relocates(s.dirs, d', p, dest) && q in d'
    ensures Lists(d', RenamedLogs(s, p, dest), q)
  {
    hide Relocates, NothingAt, Names, RenamedLogs, IsDirEntry, Inv;
    IsListed(s, p);
    BeforeExists(s.dirs, d', p, dest, q);
    RenamedNames(s, p, dest, Before(p, dest, q));
    NoEmptyName(s, Before(p, dest, q));
    assert EntryOf(dest[|dest| - 1]) != "";
    forall e | IsDirEntry(e)
      ensures e in Names(RenamedLogs(s, p, dest)[d'[q]]) <==> ValidName(Comp(e)) && q + [Comp(e)] in d'
    {
      RenamedEntry(s, d', p, dest, q, e);
    }
  }

  lemma RenamedValid(p: Path, dest: Path, q: Path)
    requires ValidPath(dest) && dest <= q && ValidPath(p + q[|dest|..])
    ensures ValidPath(q)
  {
    var x := p + q[|dest|..];
    forall i | 0 <= i < |q| ensures ValidName(q[i]) {
      if i < |dest| {
        assert q[i] == dest[i];
      } else {
        assert q[i] == x[|p| + i - |dest|];
      }
    }
  }

  lemma RenamedParent(d: map<Path, nat>, d': map<Path, nat>, p: Path, dest: Path, q: Path)
    requires Closed(d) && p != [] && dest != [] && Parent(dest) in d && Apart(p, dest)
    requires Relocates(d, d', p, dest) && q in d' && q != []
    ensures Parent(q) in d'
  {
    if dest <= q {
      var x := p + q[|dest|..];
      if q == dest {
        assert !(dest <= Parent(dest)) && !(p <= Parent(dest));
      } else {
        assert dest <= Parent(q) && Parent(x) == p + Parent(q)[|dest|..];
      }
    } else {
      assert !(dest <= Parent(q)) && !(p <= Parent(q));
    }
  }

  lemma RenamedClosed(s: Store, d': map<Path, nat>, p: Path, dest: Path)
    requires Inv(s) && Renamable(s, p, dest) && p != [] && Apart(p, dest) && NothingAt(s.dirs, dest)
    requires Relocates(s.dirs, d', p, dest)
    ensures Closed(d') && OwnInodes(d')
  {
    forall q | q in d' ensures ValidPath(q) && (q != [] ==> Parent(q) in d') {
      BeforeExists(s.dirs, d', p, dest, q);
      if dest <= q {
        RenamedValid(p, dest, q);
      }
      if q != [] {
        RenamedParent(s.dirs, d', p, dest, q);
      }
    }
    RenamedRoot(s.dirs, d', p, dest);
    RenamedOwnInodes(s.dirs, d', p, dest);
  }

  lemma RenamedRoot(d: map<Path, nat>, d': map<Path, nat>, p: Path, dest: Path)
    requires Relocates(d, d', p, dest) && [] in d && p != [] && dest != []
    ensures [] in d'
  {
  }

  lemma RenamedOwnInodes(d: map<Path, nat>, d': map<Path, nat>, p: Path, dest: Path)
    requires Relocates(d, d', p, dest) && OwnInodes(d)
    ensures OwnInodes(d')
  {
    forall q, r | q in d' && r in d' && d'[q] == d'[r] ensures q == r {
      BeforeExists(d, d', p, dest, q);
      BeforeExists(d, d', p, dest, r);
      if dest <= q && dest <= r {
        Resuffix(dest, p, q);
        Resuffix(dest, p, r);
      }
    }
  }

  lemma RenamedKeepsBase(s: Store, s': Store, p: Path, dest: Path)
    requires Inv(s) && Renamable(s, p, dest) && p != []
    requires Relocates(s.dirs, s'.dirs, p, dest) && s'.logs == RenamedLogs(s, p, dest)
    requires s'.next == s.next && Cached(s'.cache, s'.dirs)
    ensures Base(s') && dest in s'.dirs
  {
    hide Relocates, Lists, Closed, OwnInodes, Cached, Line, Tidy, Names;
    RenamableApart(s, p, dest);
    IsListed(s, p);
    RenamedClosed(s, s'.dirs, p, dest);
    forall q | q in s'.dirs ensures s'.dirs[q] in s'.logs && Tidy(s'.logs[s'.dirs[q]]) {
      BeforeExists(s.dirs, s'.dirs, p, dest, q);
      RenamedLog(s, p, dest, Before(p, dest, q));
    }
    DestExists(s.dirs, s'.dirs, p, dest);
  }

  lemma DestExists(d: map<Path, nat>, d': map<Path, nat>, p: Path, dest: Path)
    requires Relocates(d, d', p, dest) && p in d
    ensures dest in d'
  {
    assert p + dest[|dest|..] == p;
  }

  /** A rename keeps the namespace sound exactly when the new name has no backslash. */
  lemma RenamedKeepsInv(s: Store, s': Store, p: Path, dest: Path)
    requires Inv(s) && Renamable(s, p, dest) && p != []
    requires Relocates(s.dirs, s'.dirs, p, dest) && s'.logs == RenamedLogs(s, p, dest)
    requires s'.next == s.next && Cached(s'.cache, s'.dirs)
    ensures Base(s')
    ensures Inv(s') <==> Clean(dest[|dest| - 1])
  {
    hide Relocates, Lists, Base, RenamedLogs, Clean;
    RenamedKeepsBase(s, s', p, dest);
    RenamableApart(s, p, dest);
    if Clean(dest[|dest| - 1]) {
      forall q | q in s'.dirs ensures Lists(s'.dirs, s'.logs, q) {
        RenamedLists(s, s'.dirs, p, dest, q);
      }
    }
    if Inv(s') {
      IsListed(s', dest);
    }
  }
}
