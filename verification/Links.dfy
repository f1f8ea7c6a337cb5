/** Resolving directory links: makeRealPath and the loop around it in setPath. */
module Links {
  import opened Errno
  import opened Paths

  /**
   A link records its target's path as text. The text is cut at its last
   separator into a directory path and what follows: nothing for a target that
   was a directory, whose text ends in a separator, and the name of the target
   for a file.
   */
  datatype Kind = Dir | File | Link(dir: Path, prefix: string)

  /** A rewritten path has the recorded text put straight before the remaining names. */
  function Prefixed(prefix: string, names: Path): (r: Path)
    ensures |r| == |names|
  {
    if names == [] then [] else [prefix + names[0]] + names[1..]
  }

  lemma PrefixedNothing(names: Path)
    ensures Prefixed("", names) == names
  {
    assert names != [] ==> "" + names[0] == names[0];
  }

  lemma PrefixedOne(prefix: string, x: string)
    ensures Prefixed(prefix, [x]) == [prefix + x]
  {
  }

  lemma PrefixedTwice(g: string, h: string, names: Path)
    ensures Prefixed(g, Prefixed(h, names)) == Prefixed(g + h, names)
  {
    if names != [] {
      assert g + (h + names[0]) == g + h + names[0];
    }
  }

  lemma PrefixedConcat(g: string, a: Path, b: Path)
    ensures Prefixed(g, a + b) == if a == [] then Prefixed(g, b) else Prefixed(g, a) + b
  {
    if a == [] {
      assert a + b == b;
    }
  }

  /** What stat finds at each path; entries hang only on real directories. */
  ghost predicate Tree(kinds: map<Path, Kind>) {
    && [] in kinds && kinds[[]] == Dir
    && forall p :: p in kinds && p != [] ==> Parent(p) in kinds && kinds[Parent(p)] == Dir
  }

  predicate IsLink(kinds: map<Path, Kind>, q: Path) { q in kinds && kinds[q].Link? }

  lemma {:induction false} AncestorsAreDirs(kinds: map<Path, Kind>, p: Path, q: Path)
    requires Tree(kinds) && p in kinds && q <= p && q != p
    ensures q in kinds && kinds[q] == Dir
    decreases |p|
  {
    if q != Parent(p) {
      AncestorsAreDirs(kinds, Parent(p), q);
    }
  }

  /** The deepest existing proper ancestor, which the loop of makeRealPath stops at. */
  ghost function Deepest(kinds: map<Path, Kind>, path: Path): (d: Path)
    requires [] in kinds && path != []
    ensures d in kinds && d <= path && d != path
    ensures forall q :: q <= path && q != path && |q| > |d| ==> q !in kinds
    decreases |path|
  {
    if Parent(path) in kinds then Parent(path) else Deepest(kinds, Parent(path))
  }

  // ----- chains of links -----

  /** The place n links further on, or where the chain stops before that. */
  ghost function Follow(kinds: map<Path, Kind>, q: Path, n: nat): Path
    decreases n
  {
    if n == 0 || !IsLink(kinds, q) then q else Follow(kinds, kinds[q].dir, n - 1)
  }

  /** What the same links put before the first name that follows. */
  ghost function Gather(kinds: map<Path, Kind>, q: Path, n: nat): string
    decreases n
  {
    if n == 0 || !IsLink(kinds, q) then "" else Gather(kinds, kinds[q].dir, n - 1) + kinds[q].prefix
  }

  /** No chain of links returns to itself. */
  ghost predicate Acyclic(kinds: map<Path, Kind>) {
    forall q, n {:trigger Follow(kinds, q, n)} :: IsLink(kinds, q) && n > 0 ==> Follow(kinds, q, n) != q
  }

  /** A link's directory part exists, or is missing and not below another link. */
  ghost predicate Straight(kinds: map<Path, Kind>)
    requires [] in kinds
  {
    forall q :: IsLink(kinds, q) ==>
      var t := kinds[q].dir; t in kinds || !kinds[Deepest(kinds, t)].Link?
  }

  /** Where a link leads: its directory part, or the name in it that the text ends with. */
  function Target(k: Kind): Path
    requires k.Link?
  {
    if k.prefix == "" then k.dir else k.dir + [k.prefix]
  }

  /** Every link names an existing real directory or file, as when it was made. */
  ghost predicate SoundLinks(kinds: map<Path, Kind>) {
    forall p :: IsLink(kinds, p) ==>
      Target(kinds[p]) in kinds && kinds[Target(kinds[p])] == if kinds[p].prefix == "" then Dir else File
  }

  /** Every link names something that exists, a file where its text does not end in a separator. */
  ghost predicate Standing(kinds: map<Path, Kind>) {
    forall p :: IsLink(kinds, p) ==>
      Target(kinds[p]) in kinds && (kinds[p].prefix != "" ==> kinds[Target(kinds[p])] == File)
  }

  /** Then its directory part exists too, as a real directory for a link to a file. */
  lemma StandingDir(kinds: map<Path, Kind>, p: Path)
    requires Tree(kinds) && Standing(kinds) && IsLink(kinds, p)
    ensures kinds[p].dir in kinds && (kinds[p].prefix != "" ==> kinds[kinds[p].dir] == Dir)
  {
    if kinds[p].prefix != "" {
      assert Parent(kinds[p].dir + [kinds[p].prefix]) == kinds[p].dir;
    }
  }

  lemma StandingIsStraight(kinds: map<Path, Kind>)
    requires Tree(kinds) && Standing(kinds)
    ensures Straight(kinds)
  {
    forall q | IsLink(kinds, q) ensures kinds[q].dir in kinds {
      StandingDir(kinds, q);
    }
  }

  /** Links as they are made satisfy both conditions. */
  lemma SoundLinksResolve(kinds: map<Path, Kind>)
    requires Tree(kinds) && SoundLinks(kinds)
    ensures Standing(kinds) && Straight(kinds) && Acyclic(kinds)
  {
    StandingIsStraight(kinds);
    forall q, n: nat | IsLink(kinds, q) && n > 0 ensures Follow(kinds, q, n) != q {
      StandingDir(kinds, q);
      assert Follow(kinds, q, n) == Follow(kinds, kinds[q].dir, n - 1) == kinds[q].dir;
    }
  }

  lemma {:induction false} FollowMore(kinds: map<Path, Kind>, q: Path, m: nat, n: nat)
    ensures Follow(kinds, q, m + n) == Follow(kinds, Follow(kinds, q, m), n)
    ensures Gather(kinds, q, m + n) == Gather(kinds, Follow(kinds, q, m), n) + Gather(kinds, q, m)
    decreases m
  {
    if m > 0 && IsLink(kinds, q) {
      var t, g := kinds[q].dir, kinds[q].prefix;
      FollowMore(kinds, t, m - 1, n);
      AssocText(Gather(kinds, Follow(kinds, t, m - 1), n), Gather(kinds, t, m - 1), g);
    }
  }

  lemma AssocText(a: string, b: string, c: string)
    ensures a + b + c == a + (b + c)
  {
  }

  ghost predicate ChainEnds(kinds: map<Path, Kind>, q: Path) {
    exists n: nat :: !IsLink(kinds, Follow(kinds, q, n))
  }

  /** Where the chain from q ends. */
  ghost function Final(kinds: map<Path, Kind>, q: Path): (r: Path)
    requires ChainEnds(kinds, q)
    ensures !IsLink(kinds, r)
  {
    var n: nat :| !IsLink(kinds, Follow(kinds, q, n));
    Follow(kinds, q, n)
  }

  /** What the whole chain from q puts before the next name. */
  ghost function FinalPrefix(kinds: map<Path, Kind>, q: Path): string
    requires ChainEnds(kinds, q)
  {
    var n: nat :| !IsLink(kinds, Follow(kinds, q, n));
    Gather(kinds, q, n)
  }

  lemma StaysAtEnd(kinds: map<Path, Kind>, q: Path, m: nat, n: nat)
    requires m <= n && !IsLink(kinds, Follow(kinds, q, m))
    ensures Follow(kinds, q, n) == Follow(kinds, q, m) && Gather(kinds, q, n) == Gather(kinds, q, m)
  {
    FollowMore(kinds, q, m, n - m);
  }

  lemma FinalIs(kinds: map<Path, Kind>, q: Path, n: nat)
    requires !IsLink(kinds, Follow(kinds, q, n))
    ensures ChainEnds(kinds, q)
    ensures Final(kinds, q) == Follow(kinds, q, n) && FinalPrefix(kinds, q) == Gather(kinds, q, n)
  {
    var m: nat :| !IsLink(kinds, Follow(kinds, q, m)) && Final(kinds, q) == Follow(kinds, q, m);
    var k: nat :| !IsLink(kinds, Follow(kinds, q, k)) && FinalPrefix(kinds, q) == Gather(kinds, q, k);
    var top := n + m + k;
    StaysAtEnd(kinds, q, n, top);
    StaysAtEnd(kinds, q, m, top);
    StaysAtEnd(kinds, q, k, top);
  }

  /** Passing over one link does not change where a chain ends. */
  lemma FinalOfTarget(kinds: map<Path, Kind>, q: Path)
    requires IsLink(kinds, q) && ChainEnds(kinds, q)
    ensures ChainEnds(kinds, kinds[q].dir) && Final(kinds, q) == Final(kinds, kinds[q].dir)
    ensures FinalPrefix(kinds, q) == FinalPrefix(kinds, kinds[q].dir) + kinds[q].prefix
  {
    var n: nat :| !IsLink(kinds, Follow(kinds, q, n));
    assert n > 0 && Follow(kinds, q, n) == Follow(kinds, kinds[q].dir, n - 1);
    FinalIs(kinds, q, n);
    FinalIs(kinds, kinds[q].dir, n - 1);
  }

  lemma FinalOfEnd(kinds: map<Path, Kind>, q: Path)
    requires !IsLink(kinds, q)
    ensures ChainEnds(kinds, q) && Final(kinds, q) == q && FinalPrefix(kinds, q) == ""
  {
    FinalIs(kinds, q, 0);
  }

  ghost predicate ChainsEnd(kinds: map<Path, Kind>) {
    forall q :: IsLink(kinds, q) ==> ChainEnds(kinds, q)
  }

  /** The chain from v, one link or more, leads to d. */
  ghost predicate LeadsTo(kinds: map<Path, Kind>, v: Path, d: Path) {
    exists n: nat :: n > 0 && Follow(kinds, v, n) == d
  }

  lemma LeadsOn(kinds: map<Path, Kind>, v: Path, d: Path)
    requires IsLink(kinds, d) && (v == d || LeadsTo(kinds, v, d))
    ensures LeadsTo(kinds, v, kinds[d].dir)
  {
    var n: nat :| Follow(kinds, v, n) == d;
    FollowMore(kinds, v, n, 1);
    assert Follow(kinds, d, 1) == kinds[d].dir;
    assert Follow(kinds, v, n + 1) == kinds[d].dir;
  }

  ghost function AllLinks(kinds: map<Path, Kind>): set<Path> {
    set q | q in kinds && IsLink(kinds, q)
  }

  /** Without a cycle the links passed so far never come again, so every chain ends. */
  lemma {:induction false} AcyclicChainEnds(kinds: map<Path, Kind>, q: Path, seen: set<Path>)
    requires Acyclic(kinds) && forall v :: v in seen ==> IsLink(kinds, v) && LeadsTo(kinds, v, q)
    ensures ChainEnds(kinds, q)
    decreases AllLinks(kinds) - seen
  {
    if IsLink(kinds, q) {
      NotSeen(kinds, q, seen);
      forall v | v in seen + {q} ensures LeadsTo(kinds, v, kinds[q].dir) {
        LeadsOn(kinds, v, q);
      }
      AcyclicChainEnds(kinds, kinds[q].dir, seen + {q});
      var n: nat :| !IsLink(kinds, Follow(kinds, kinds[q].dir, n));
      assert Follow(kinds, q, n + 1) == Follow(kinds, kinds[q].dir, n);
    } else {
      FinalOfEnd(kinds, q);
    }
  }

  lemma NotSeen(kinds: map<Path, Kind>, q: Path, seen: set<Path>)
    requires Acyclic(kinds) && IsLink(kinds, q) && forall v :: v in seen ==> LeadsTo(kinds, v, q)
    ensures q !in seen && AllLinks(kinds) - (seen + {q}) < AllLinks(kinds) - seen
  {
    assert !LeadsTo(kinds, q, q);
    assert q in AllLinks(kinds) - seen && q !in AllLinks(kinds) - (seen + {q});
  }

  lemma AcyclicChainsEnd(kinds: map<Path, Kind>)
    requires Acyclic(kinds)
    ensures ChainsEnd(kinds)
  {
    forall q | IsLink(kinds, q) ensures ChainEnds(kinds, q) {
      AcyclicChainEnds(kinds, q, {});
    }
  }

  // ----- the reference: walking down from the root -----

  /** Where a walk ends, and whether it met a link to a file before the last name. */
  datatype Walked = Walked(at: Path, bent: bool)

  /**
   The path reached by following the names one by one from a real directory,
   continuing where a link's chain leads; the last name is not followed, and
   names below something missing or a file stay as they are.
   */
  ghost function Walk(kinds: map<Path, Kind>, cur: Path, rest: Path): Walked
    requires rest != [] && ChainsEnd(kinds)
    decreases |rest|, 0
  {
    var p := cur + [rest[0]];
    if |rest| == 1 || p !in kinds || kinds[p] == File then Walked(cur + rest, false)
    else if kinds[p] == Dir then Walk(kinds, p, rest[1..])
    else WalkOn(kinds, Final(kinds, p), FinalPrefix(kinds, p), rest[1..])
  }

  /** Going on from the end of a chain of links: only a real directory can be walked. */
  ghost function WalkOn(kinds: map<Path, Kind>, at: Path, prefix: string, rest: Path): Walked
    requires rest != [] && ChainsEnd(kinds)
    decreases |rest|, 1
  {
    if prefix != "" then Walked(at + [prefix] + rest, true)
    else if at in kinds && kinds[at] == Dir then Walk(kinds, at, rest)
    else Walked(at + rest, false)
  }

  lemma DirStep(kinds: map<Path, Kind>, cur: Path, c: string, rest: Path)
    requires rest != [] && ChainsEnd(kinds) && cur + [c] in kinds && kinds[cur + [c]] == Dir
    ensures Walk(kinds, cur, [c] + rest) == Walk(kinds, cur + [c], rest)
  {
    hide ChainsEnd;
    assert ([c] + rest)[1..] == rest;
  }

  /** Walking through existing real directories leads to them. */
  lemma {:induction false} WalkReal(kinds: map<Path, Kind>, cur: Path, mid: Path, rest: Path)
    requires Tree(kinds) && ChainsEnd(kinds) && rest != [] && cur + mid in kinds && kinds[cur + mid] == Dir
    ensures Walk(kinds, cur, mid + rest) == Walk(kinds, cur + mid, rest)
    decreases |mid|
  {
    hide Walk, ChainsEnd;
    if mid == [] {
      assert cur + mid == cur && mid + rest == rest;
    } else {
      var c, more := mid[0], mid[1..];
      Regroup(cur, c, more, rest);
      assert mid == [c] + more;
      if cur + [c] != cur + mid {
        AncestorsAreDirs(kinds, cur + mid, cur + [c]);
      }
      DirStep(kinds, cur, c, more + rest);
      WalkReal(kinds, cur + [c], more, rest);
    }
  }

  lemma Regroup(cur: Path, c: string, more: Path, rest: Path)
    ensures cur + ([c] + more) == cur + [c] + more
    ensures [c] + more + rest == [c] + (more + rest)
    ensures cur + [c] <= cur + ([c] + more)
  {
  }

  lemma WalkFromRoot(kinds: map<Path, Kind>, d: Path, rest: Path)
    requires Tree(kinds) && ChainsEnd(kinds) && rest != [] && d in kinds && kinds[d] == Dir
    ensures Walk(kinds, [], d + rest) == Walk(kinds, d, rest)
  {
    hide ChainsEnd, Walk;
    assert [] + d == d;
    WalkReal(kinds, [], d, rest);
  }

  /** No proper ancestor of the path is a link. */
  ghost predicate Resolved(kinds: map<Path, Kind>, path: Path) {
    forall q :: q <= path && q != path && q in kinds ==> !kinds[q].Link?
  }

  // ----- the code -----

  /**
   makeRealPath: rewrites the path when its deepest existing ancestor is a
   link. Also tells whether the parent itself was found, which is when the
   code records the parent's stat.
   */
  method MakeRealPath(kinds: map<Path, Kind>, path: Path) returns (ret: int, path': Path, parentFound: bool)
    requires [] in kinds && path != []
    ensures var d := Deepest(kinds, path);
            && ret == (if kinds[d].Link? then EAGAIN else if kinds[d] == File then ENOTDIR else 0)
            && path' == (if kinds[d].Link? then kinds[d].dir + Prefixed(kinds[d].prefix, path[|d|..]) else path)
            && (parentFound <==> ret == 0 && Parent(path) in kinds)
  {
    var parent := Parent(path);
    var originalPathExists := true;
    path', parentFound := path, false;
    while parent !in kinds
      invariant parent <= path && parent != path
      invariant parent in kinds ==> Deepest(kinds, path) == parent
      invariant parent !in kinds ==> parent != [] && Deepest(kinds, path) == Deepest(kinds, parent)
      invariant originalPathExists <==> parent == Parent(path)
      decreases |parent|
    {
      parent := Parent(parent);
      originalPathExists := false;
    }
    if kinds[parent].Link? {
      path' := kinds[parent].dir + Prefixed(kinds[parent].prefix, path[|parent|..]);
      return EAGAIN, path', false;
    }
    if kinds[parent] == File {
      return ENOTDIR, path', false;
    }
    return 0, path', originalPathExists;
  }

  lemma LinkStep(kinds: map<Path, Kind>, cur: Path, c: string, rest: Path)
    requires rest != [] && ChainsEnd(kinds) && IsLink(kinds, cur + [c])
    ensures Walk(kinds, cur, [c] + rest) == WalkOn(kinds, Final(kinds, cur + [c]), FinalPrefix(kinds, cur + [c]), rest)
  {
    assert ([c] + rest)[1..] == rest;
  }

  lemma StopStep(kinds: map<Path, Kind>, cur: Path, rest: Path)
    requires rest != [] && ChainsEnd(kinds)
    requires |rest| == 1 || cur + [rest[0]] !in kinds || kinds[cur + [rest[0]]] == File
    ensures Walk(kinds, cur, rest) == Walked(cur + rest, false)
  {
  }

  lemma SplitAt(path: Path, d: Path)
    requires d <= path && d != path
    ensures path == d + path[|d|..] && path[|d|..] != []
  {
  }

  lemma LastSplit(d: Path, rest: Path)
    requires d != []
    ensures d == Parent(d) + [d[|d| - 1]] && d + rest == Parent(d) + ([d[|d| - 1]] + rest)
  {
  }

  /** Walking to a path whose beginning is a link goes on where the chain of that link ends. */
  lemma WalkThroughLink(kinds: map<Path, Kind>, d: Path, rest: Path)
    requires Tree(kinds) && ChainsEnd(kinds) && IsLink(kinds, d) && rest != []
    ensures Walk(kinds, [], d + rest) == WalkOn(kinds, Final(kinds, d), FinalPrefix(kinds, d), rest)
  {
    hide Walk, WalkOn;
    LastSplit(d, rest);
    var up, c := Parent(d), d[|d| - 1];
    WalkFromRoot(kinds, up, [c] + rest);
    LinkStep(kinds, up, c, rest);
  }

  /** Nothing exists below something missing, a file or a link. */
  lemma NothingBelow(kinds: map<Path, Kind>, t: Path, rest: Path)
    requires Tree(kinds) && rest != [] && (t in kinds ==> kinds[t] != Dir)
    ensures t in kinds ==> Deepest(kinds, t + rest) == t
    ensures t !in kinds ==> Deepest(kinds, t + rest) == Deepest(kinds, t)
  {
    var path := t + rest;
    assert path[..|t|] == t;
    var d := Deepest(kinds, path);
    assert d == path[..|d|];
    if |d| > |t| {
      assert t <= d && t != d;
      AncestorsAreDirs(kinds, d, t);
    }
    if t !in kinds {
      assert d == t[..|d|];
      var e := Deepest(kinds, t);
      assert e == t[..|e|] == path[..|e|];
    }
  }

  lemma StopsInDir(kinds: map<Path, Kind>, d: Path, rest: Path)
    requires Tree(kinds) && ChainsEnd(kinds) && rest != [] && d in kinds && kinds[d] == Dir
    requires |rest| > 1 ==> d + [rest[0]] !in kinds
    ensures Walk(kinds, [], d + rest) == Walked(d + rest, false)
  {
    hide Walk, ChainsEnd, Tree;
    WalkFromRoot(kinds, d, rest);
    StopStep(kinds, d, rest);
  }

  lemma StopsAtFile(kinds: map<Path, Kind>, d: Path, rest: Path)
    requires Tree(kinds) && ChainsEnd(kinds) && rest != [] && d in kinds && kinds[d] == File
    ensures Walk(kinds, [], d + rest) == Walked(d + rest, false)
  {
    hide Walk, ChainsEnd;
    LastSplit(d, rest);
    var up, c := Parent(d), d[|d| - 1];
    WalkFromRoot(kinds, up, [c] + rest);
    StopStep(kinds, up, [c] + rest);
  }

  /** A path that needs no rewrite is where the walk ends. */
  lemma StopsAtWalk(kinds: map<Path, Kind>, path: Path)
    requires Tree(kinds) && ChainsEnd(kinds) && path != [] && !kinds[Deepest(kinds, path)].Link?
    ensures Walk(kinds, [], path) == Walked(path, false)
  {
    hide Walk, Deepest, ChainsEnd;
    var d := Deepest(kinds, path);
    SplitAt(path, d);
    var rest := path[|d|..];
    if kinds[d] == Dir {
      assert |rest| > 1 ==> d + [rest[0]] <= path && d + [rest[0]] != path;
      StopsInDir(kinds, d, rest);
    } else {
      StopsAtFile(kinds, d, rest);
    }
  }

  /** One pass of makeRealPath. */
  ghost function Rewrite(kinds: map<Path, Kind>, path: Path): (r: Path)
    requires [] in kinds && path != []
    ensures r != []
  {
    var d := Deepest(kinds, path);
    if kinds[d].Link? then kinds[d].dir + Prefixed(kinds[d].prefix, path[|d|..]) else path
  }

  ghost predicate Linked(kinds: map<Path, Kind>, path: Path)
    requires [] in kinds && path != []
  {
    kinds[Deepest(kinds, path)].Link?
  }

  /** A rewrite at a link to a directory does not change where the walk ends, nor what it meets. */
  lemma RewriteKeepsMeaning(kinds: map<Path, Kind>, path: Path)
    requires Tree(kinds) && Straight(kinds) && ChainsEnd(kinds) && path != [] && Linked(kinds, path)
    requires kinds[Deepest(kinds, path)].prefix == ""
    ensures Walk(kinds, [], Rewrite(kinds, path)) == Walk(kinds, [], path)
  {
    hide Walk, Deepest, ChainsEnd, Straight, Final, FinalPrefix, Prefixed;
    var d := Deepest(kinds, path);
    SplitAt(path, d);
    var t, rest := kinds[d].dir, path[|d|..];
    PrefixedNothing(rest);
    assert t + rest == Rewrite(kinds, path);
    WalkThroughLink(kinds, d, rest);
    LinkChainEnds(kinds, d);
    FinalOfTarget(kinds, d);
    assert FinalPrefix(kinds, t) + "" == FinalPrefix(kinds, t);
    if IsLink(kinds, t) {
      WalkThroughLink(kinds, t, rest);
    } else {
      FinalOfEnd(kinds, t);
      if t in kinds && kinds[t] == Dir {
        WalkFromRoot(kinds, t, rest);
      } else {
        NothingBelow(kinds, t, rest);
        TargetStops(kinds, d);
        StopsAtWalk(kinds, t + rest);
      }
    }
  }

  lemma LinkChainEnds(kinds: map<Path, Kind>, d: Path)
    requires ChainsEnd(kinds) && IsLink(kinds, d)
    ensures ChainEnds(kinds, d)
  {
  }

  lemma TargetStops(kinds: map<Path, Kind>, d: Path)
    requires Tree(kinds) && Straight(kinds) && IsLink(kinds, d)
    ensures kinds[d].dir !in kinds ==> !kinds[Deepest(kinds, kinds[d].dir)].Link?
  {
  }

  /** A rewrite that has to go on either moved to the next link of the chain or left less to resolve. */
  lemma RewriteMakesProgress(kinds: map<Path, Kind>, path: Path)
    requires Tree(kinds) && Straight(kinds) && path != [] && Linked(kinds, path) && Linked(kinds, Rewrite(kinds, path))
    ensures var d, path' := Deepest(kinds, path), Rewrite(kinds, path);
            var d' := Deepest(kinds, path');
            |path'| - |d'| < |path| - |d| || (|path'| - |d'| == |path| - |d| && d' == kinds[d].dir)
  {
    hide Deepest, Straight;
    var d := Deepest(kinds, path);
    SplitAt(path, d);
    var t, rest := kinds[d].dir, Prefixed(kinds[d].prefix, path[|d|..]);
    var path' := t + rest;
    TargetStops(kinds, d);
    if t in kinds && kinds[t] == Dir {
      var d' := Deepest(kinds, path');
      assert t <= path' && t != path' && t == path'[..|t|] && d' == path'[..|d'|];
      assert |d'| == |t| ==> d' == t;
    } else {
      NothingBelow(kinds, t, rest);
    }
  }

  lemma StopsResolved(kinds: map<Path, Kind>, path: Path)
    requires Tree(kinds) && path != [] && !kinds[Deepest(kinds, path)].Link?
    ensures Resolved(kinds, path)
  {
    var d := Deepest(kinds, path);
    forall q | q <= path && q != path && q in kinds ensures !kinds[q].Link? {
      assert |q| <= |d|;
      assert q <= d by { assert q == path[..|q|] && d == path[..|d|]; }
      if q != d {
        AncestorsAreDirs(kinds, d, q);
      }
    }
  }

  /** The links passed since the unresolved part last grew shorter. */
  ghost predicate Passed(kinds: map<Path, Kind>, seen: set<Path>, d: Path) {
    forall v :: v in seen ==> IsLink(kinds, v) && LeadsTo(kinds, v, d)
  }

  lemma PassOne(kinds: map<Path, Kind>, seen: set<Path>, d: Path)
    requires Acyclic(kinds) && IsLink(kinds, d) && Passed(kinds, seen, d)
    ensures AllLinks(kinds) - (seen + {d}) < AllLinks(kinds) - seen
    ensures Passed(kinds, seen + {d}, kinds[d].dir)
  {
    NotSeen(kinds, d, seen);
    forall v | v in seen + {d} ensures IsLink(kinds, v) && LeadsTo(kinds, v, kinds[d].dir) {
      LeadsOn(kinds, v, d);
    }
  }

  lemma NonePassed(kinds: map<Path, Kind>, d: Path)
    ensures Passed(kinds, {}, d)
  {
  }

  // ----- exactly when the loop ends -----

  ghost function Rewrites(kinds: map<Path, Kind>, path: Path, n: nat): (r: Path)
    requires [] in kinds && path != []
    ensures r != []
    decreases n
  {
    if n == 0 then path else Rewrites(kinds, Rewrite(kinds, path), n - 1)
  }

  /** After some number of rewrites nothing is left to rewrite. */
  ghost predicate Ends(kinds: map<Path, Kind>, path: Path)
    requires [] in kinds && path != []
  {
    exists n: nat :: !Linked(kinds, Rewrites(kinds, path, n))
  }

  lemma EndsOneLater(kinds: map<Path, Kind>, path: Path)
    requires [] in kinds && path != [] && Ends(kinds, Rewrite(kinds, path))
    ensures Ends(kinds, path)
  {
    var n: nat :| !Linked(kinds, Rewrites(kinds, Rewrite(kinds, path), n));
    assert Rewrites(kinds, path, n + 1) == Rewrites(kinds, Rewrite(kinds, path), n);
  }

  lemma {:induction false} AcyclicEnds(kinds: map<Path, Kind>, path: Path, seen: set<Path>)
    requires Tree(kinds) && Straight(kinds) && Acyclic(kinds) && path != []
    requires Linked(kinds, path) ==> Passed(kinds, seen, Deepest(kinds, path))
    ensures Ends(kinds, path)
    decreases if Linked(kinds, path) then 1 else 0, |path| - |Deepest(kinds, path)|, AllLinks(kinds) - seen
  {
    hide Deepest, Straight, Acyclic, Passed, AllLinks, Rewrite, Tree;
    RootIsThere(kinds);
    if !Linked(kinds, path) {
      assert Rewrites(kinds, path, 0) == path;
    } else {
      var path' := Rewrite(kinds, path);
      PassOne(kinds, seen, Deepest(kinds, path));
      if Linked(kinds, path') {
        RewriteMakesProgress(kinds, path);
        NonePassed(kinds, Deepest(kinds, path'));
        if |path'| - |Deepest(kinds, path')| < |path| - |Deepest(kinds, path)| {
          AcyclicEnds(kinds, path', {});
        } else {
          AcyclicEnds(kinds, path', seen + {Deepest(kinds, path)});
        }
      } else {
        AcyclicEnds(kinds, path', {});
      }
      EndsOneLater(kinds, path);
    }
  }

  lemma RootIsThere(kinds: map<Path, Kind>)
    requires Tree(kinds)
    ensures [] in kinds
  {
  }

  lemma {:induction false} RoundAndRound(kinds: map<Path, Kind>, q: Path, n: nat, m: nat)
    requires IsLink(kinds, q) && n > 0 && Follow(kinds, q, n) == q
    ensures Follow(kinds, q, m * n) == q
    decreases m
  {
    if m > 0 {
      RoundAndRound(kinds, q, n, m - 1);
      assert m * n == (m - 1) * n + n;
      FollowMore(kinds, q, (m - 1) * n, n);
    }
  }

  /** On a cycle there is always a next link. */
  lemma CycleGoesOn(kinds: map<Path, Kind>, q: Path, n: nat, m: nat)
    requires IsLink(kinds, q) && n > 0 && Follow(kinds, q, n) == q
    ensures IsLink(kinds, Follow(kinds, q, m))
  {
    if !IsLink(kinds, Follow(kinds, q, m)) {
      RoundAndRound(kinds, q, n, m);
      assert m * n >= m;
      StaysAtEnd(kinds, q, m, m * n);
    }
  }

  lemma LinkIsDeepest(kinds: map<Path, Kind>, q: Path, x: string)
    requires [] in kinds && IsLink(kinds, q)
    ensures Deepest(kinds, q + [x]) == q && Rewrite(kinds, q + [x]) == kinds[q].dir + [kinds[q].prefix + x]
  {
    assert Parent(q + [x]) == q;
    assert (q + [x])[|q|..] == [x];
  }

  lemma RewritesAtLink(kinds: map<Path, Kind>, q: Path, x: string, m: nat)
    requires [] in kinds && IsLink(kinds, q) && m > 0
    ensures Rewrites(kinds, q + [x], m) == Rewrites(kinds, kinds[q].dir + [kinds[q].prefix + x], m - 1)
  {
    hide Rewrite;
    LinkIsDeepest(kinds, q, x);
  }

  lemma {:induction false} RewritesFollow(kinds: map<Path, Kind>, q: Path, x: string, m: nat)
    requires [] in kinds && forall k: nat :: k < m ==> IsLink(kinds, Follow(kinds, q, k))
    ensures Rewrites(kinds, q + [x], m) == Follow(kinds, q, m) + [Gather(kinds, q, m) + x]
    decreases m
  {
    hide Rewrite, Rewrites, Follow, Gather;
    FollowNone(kinds, q);
    if m == 0 {
      assert "" + x == x;
      NoRewrites(kinds, q + [x]);
    } else {
      assert IsLink(kinds, Follow(kinds, q, 0));
      RewritesAtLink(kinds, q, x, m);
      var t, g := kinds[q].dir, kinds[q].prefix;
      forall k: nat | k < m - 1 ensures IsLink(kinds, Follow(kinds, t, k)) {
        FollowOne(kinds, q, k + 1);
      }
      RewritesFollow(kinds, t, g + x, m - 1);
      FollowOne(kinds, q, m);
      AssocText(Gather(kinds, t, m - 1), g, x);
    }
  }

  lemma FollowNone(kinds: map<Path, Kind>, q: Path)
    ensures Follow(kinds, q, 0) == q && Gather(kinds, q, 0) == ""
  {
  }

  lemma FollowOne(kinds: map<Path, Kind>, q: Path, n: nat)
    requires IsLink(kinds, q) && n > 0
    ensures Follow(kinds, q, n) == Follow(kinds, kinds[q].dir, n - 1)
    ensures Gather(kinds, q, n) == Gather(kinds, kinds[q].dir, n - 1) + kinds[q].prefix
  {
  }

  lemma CycleNeverEnds(kinds: map<Path, Kind>, q: Path, n: nat, x: string)
    requires [] in kinds && IsLink(kinds, q) && n > 0 && Follow(kinds, q, n) == q
    ensures !Ends(kinds, q + [x])
  {
    forall m: nat ensures Linked(kinds, Rewrites(kinds, q + [x], m)) {
      forall k: nat | k <= m ensures IsLink(kinds, Follow(kinds, q, k)) {
        CycleGoesOn(kinds, q, n, k);
      }
      RewritesFollow(kinds, q, x, m);
      LinkIsDeepest(kinds, Follow(kinds, q, m), Gather(kinds, q, m) + x);
    }
  }

  /**
   Where links name what exists, or what is missing but not below a link, the
   loop ends on every path exactly when no chain of links returns to itself.
   */
  lemma EndsUnlessCyclic(kinds: map<Path, Kind>)
    requires Tree(kinds) && Straight(kinds)
    ensures (forall path :: path != [] ==> Ends(kinds, path)) <==> Acyclic(kinds)
  {
    hide Straight, Tree, Ends;
    RootIsThere(kinds);
    if Acyclic(kinds) {
      forall path: Path | path != [] ensures Ends(kinds, path) {
        NonePassed(kinds, Deepest(kinds, path));
        AcyclicEnds(kinds, path, {});
      }
    }
    if forall path :: path != [] ==> Ends(kinds, path) {
      forall q, n: nat | IsLink(kinds, q) && n > 0 ensures Follow(kinds, q, n) != q {
        if Follow(kinds, q, n) == q {
          CycleNeverEnds(kinds, q, n, "x");
        }
      }
    }
  }

  // ----- any links at all -----

  /** After n rewrites of a path below the link, the path is below that link again. */
  ghost predicate ComesBack(kinds: map<Path, Kind>, q: Path, n: nat)
    requires [] in kinds
  {
    var p := Rewrites(kinds, q + ["x"], n);
    q <= p && |q| < |p|
  }

  /** No link leads back to itself, be it by a chain, through a missing target or down real directories. */
  ghost predicate NoReturn(kinds: map<Path, Kind>)
    requires [] in kinds
  {
    forall q, n {:trigger ComesBack(kinds, q, n)} :: IsLink(kinds, q) && n > 0 ==> !ComesBack(kinds, q, n)
  }

  /** Below a link the link itself is what gets rewritten. */
  lemma LinkAnywhere(kinds: map<Path, Kind>, q: Path, y: Path)
    requires Tree(kinds) && IsLink(kinds, q) && y != []
    ensures Deepest(kinds, q + y) == q && Linked(kinds, q + y)
    ensures Rewrite(kinds, q + y) == kinds[q].dir + Prefixed(kinds[q].prefix, y)
  {
    hide Deepest;
    NothingBelow(kinds, q, y);
    assert (q + y)[|q|..] == y;
  }

  lemma {:induction false} RewritesMore(kinds: map<Path, Kind>, path: Path, m: nat, n: nat)
    requires [] in kinds && path != []
    ensures Rewrites(kinds, path, m + n) == Rewrites(kinds, Rewrites(kinds, path, m), n)
    decreases m
  {
    hide Rewrite;
    if m > 0 {
      RewritesMore(kinds, Rewrite(kinds, path), m - 1, n);
    }
  }

  lemma {:induction false} StaysStopped(kinds: map<Path, Kind>, path: Path, n: nat)
    requires [] in kinds && path != [] && !Linked(kinds, path)
    ensures Rewrites(kinds, path, n) == path
    decreases n
  {
    if n > 0 {
      StaysStopped(kinds, path, n - 1);
    }
  }

  lemma StoppedAt(kinds: map<Path, Kind>, path: Path, m: nat, n: nat)
    requires [] in kinds && path != [] && m <= n && !Linked(kinds, Rewrites(kinds, path, m))
    ensures Rewrites(kinds, path, n) == Rewrites(kinds, path, m)
  {
    hide Linked, Rewrites;
    RewritesMore(kinds, path, m, n - m);
    StaysStopped(kinds, Rewrites(kinds, path, m), n - m);
  }

  /**
   A rewrite works on the names before the last; what follows them makes no
   difference, but for what is put before its first name.
   */
  lemma SameWithAnyEnd(kinds: map<Path, Kind>, front: Path, x: string, end: Path) returns (front': Path, g: string)
    requires Tree(kinds) && end != [] && Linked(kinds, front + [x])
    ensures Rewrite(kinds, front + [x]) == front' + [g + x] && Rewrite(kinds, front + end) == front' + Prefixed(g, end)
  {
    hide Rewrite, Deepest, Prefixed;
    var d, rest := LinkInFront(kinds, front, x);
    LinkAnywhere(kinds, d, rest + [x]);
    LinkAnywhere(kinds, d, rest + end);
    Regroup3(d, rest, [x]);
    Regroup3(d, rest, end);
    var t, p := kinds[d].dir, kinds[d].prefix;
    PrefixedConcat(p, rest, [x]);
    PrefixedConcat(p, rest, end);
    PrefixedOne(p, x);
    if rest == [] {
      front', g := t, p;
    } else {
      front', g := t + Prefixed(p, rest), "";
      PrefixedNothing(end);
      assert "" + x == x;
      Regroup3(t, Prefixed(p, rest), [x]);
      Regroup3(t, Prefixed(p, rest), end);
    }
  }

  lemma Regroup3(a: Path, b: Path, c: Path)
    ensures a + b + c == a + (b + c)
  {
  }

  lemma LinkInFront(kinds: map<Path, Kind>, front: Path, x: string) returns (d: Path, rest: Path)
    requires Tree(kinds) && Linked(kinds, front + [x])
    ensures front == d + rest && IsLink(kinds, d)
  {
    hide Deepest;
    d := Deepest(kinds, front + [x]);
    assert d == (front + [x])[..|d|] == front[..|d|];
    rest := front[|d|..];
  }

  lemma {:induction false} SameRunWithAnyEnd(kinds: map<Path, Kind>, front: Path, x: string, end: Path, m: nat)
    returns (front': Path, g: string)
    requires Tree(kinds) && end != [] && forall j: nat :: j < m ==> Linked(kinds, Rewrites(kinds, front + [x], j))
    ensures Rewrites(kinds, front + [x], m) == front' + [g + x]
    ensures Rewrites(kinds, front + end, m) == front' + Prefixed(g, end)
    decreases m
  {
    hide Rewrite, Linked, Tree;
    RootIsThere(kinds);
    if m == 0 {
      front', g := front, "";
      PrefixedNothing(end);
      assert "" + x == x;
    } else {
      assert Rewrites(kinds, front + [x], 0) == front + [x];
      var next, h := SameWithAnyEnd(kinds, front, x, end);
      forall j: nat | j < m - 1 ensures Linked(kinds, Rewrites(kinds, next + [h + x], j)) {
        assert Rewrites(kinds, front + [x], j + 1) == Rewrites(kinds, next + [h + x], j);
      }
      front', g := SameRunWithAnyEnd(kinds, next, h + x, Prefixed(h, end), m - 1);
      PrefixedTwice(g, h, end);
      AssocText(g, h, x);
      g := g + h;
    }
  }

  lemma ReturnsLinked(kinds: map<Path, Kind>, q: Path, n: nat, j: nat)
    requires Tree(kinds) && IsLink(kinds, q) && ComesBack(kinds, q, n) && j < n
    ensures Linked(kinds, Rewrites(kinds, q + ["x"], j))
  {
    hide Rewrites, Linked;
    var p := Rewrites(kinds, q + ["x"], n);
    SplitAt(p, q);
    LinkAnywhere(kinds, q, p[|q|..]);
    if !Linked(kinds, Rewrites(kinds, q + ["x"], j)) {
      StoppedAt(kinds, q + ["x"], j, n);
    }
  }

  /** What comes back once comes back with any end, and so again and again. */
  lemma {:induction false} AgainAndAgain(kinds: map<Path, Kind>, q: Path, n: nat, end: Path, k: nat) returns (end': Path)
    requires Tree(kinds) && IsLink(kinds, q) && ComesBack(kinds, q, n) && end != []
    ensures end' != [] && Rewrites(kinds, q + end, k * n) == q + end'
    decreases k
  {
    hide Rewrites, ComesBack, Tree;
    RootIsThere(kinds);
    if k == 0 {
      NoRewrites(kinds, q + end);
      end' := end;
    } else {
      var once := OnceAround(kinds, q, n, end);
      end' := AgainAndAgain(kinds, q, n, once, k - 1);
      OneMoreTime(k, n);
      RewritesMore(kinds, q + end, n, (k - 1) * n);
    }
  }

  lemma OnceAround(kinds: map<Path, Kind>, q: Path, n: nat, end: Path) returns (end': Path)
    requires Tree(kinds) && IsLink(kinds, q) && ComesBack(kinds, q, n) && end != []
    ensures end' != [] && Rewrites(kinds, q + end, n) == q + end'
  {
    hide Rewrites, Linked, Tree, Prefixed;
    RootIsThere(kinds);
    forall j: nat | j < n ensures Linked(kinds, Rewrites(kinds, q + ["x"], j)) {
      ReturnsLinked(kinds, q, n, j);
    }
    var front', g := SameRunWithAnyEnd(kinds, q, "x", end, n);
    assert q == (front' + [g + "x"])[..|q|] == front'[..|q|];
    end' := front'[|q|..] + Prefixed(g, end);
    assert front' + Prefixed(g, end) == q + end';
  }

  lemma OneMoreTime(k: nat, n: nat)
    requires k > 0
    ensures k * n == n + (k - 1) * n
  {
  }

  lemma NoRewrites(kinds: map<Path, Kind>, path: Path)
    requires [] in kinds && path != []
    ensures Rewrites(kinds, path, 0) == path
  {
  }

  lemma ReturnNeverEnds(kinds: map<Path, Kind>, q: Path, n: nat)
    requires Tree(kinds) && IsLink(kinds, q) && n > 0 && ComesBack(kinds, q, n)
    ensures !Ends(kinds, q + ["x"])
  {
    hide Rewrites, Linked, ComesBack, Tree;
    RootIsThere(kinds);
    forall j: nat ensures Linked(kinds, Rewrites(kinds, q + ["x"], j)) {
      StillLinked(kinds, q, n, j);
    }
  }

  lemma StillLinked(kinds: map<Path, Kind>, q: Path, n: nat, j: nat)
    requires Tree(kinds) && IsLink(kinds, q) && n > 0 && ComesBack(kinds, q, n)
    ensures Linked(kinds, Rewrites(kinds, q + ["x"], j))
  {
    hide Rewrites, Linked, ComesBack, Tree;
    RootIsThere(kinds);
    var end := AgainAndAgain(kinds, q, n, ["x"], j);
    LinkAnywhere(kinds, q, end);
    if !Linked(kinds, Rewrites(kinds, q + ["x"], j)) {
      AtLeast(j, n);
      StoppedAt(kinds, q + ["x"], j, j * n);
    }
  }

  lemma AtLeast(j: nat, n: nat)
    requires n > 0
    ensures j * n >= j
  {
  }

  // resolving, as long as nothing comes back

  /** In n rewrites the path a turns into r, whatever follows, with g put before what follows. */
  ghost predicate TurnsInto(kinds: map<Path, Kind>, a: Path, n: nat, r: Path, g: string)
    requires [] in kinds
  {
    forall y: Path {:trigger Rewrites(kinds, a + y, n)} :: y != [] ==> Rewrites(kinds, a + y, n) == r + Prefixed(g, y)
  }

  /** Nothing on the way to the path, nor the path itself, is a link. */
  ghost predicate Settled(kinds: map<Path, Kind>, r: Path) {
    forall q :: q <= r ==> !IsLink(kinds, q)
  }

  /** Every link under resolution has led to a path that begins with a. */
  ghost predicate LedTo(kinds: map<Path, Kind>, seen: set<Path>, a: Path)
    requires [] in kinds
  {
    forall v :: v in seen ==> IsLink(kinds, v) && Led(kinds, v, a)
  }

  ghost predicate Led(kinds: map<Path, Kind>, v: Path, a: Path)
    requires [] in kinds
  {
    exists m: nat, y: Path :: LedBy(kinds, v, a, m, y)
  }

  ghost predicate LedBy(kinds: map<Path, Kind>, v: Path, a: Path, m: nat, y: Path)
    requires [] in kinds
  {
    m > 0 && y != [] && Rewrites(kinds, v + ["x"], m) == a + y
  }

  lemma LedOn(kinds: map<Path, Kind>, v: Path, a: Path, rest: Path, n: nat, r: Path, g: string)
    requires [] in kinds && Led(kinds, v, a + rest) && TurnsInto(kinds, a, n, r, g)
    ensures Led(kinds, v, r + Prefixed(g, rest))
  {
    hide Rewrites, TurnsInto;
    var m: nat, y: Path :| LedBy(kinds, v, a + rest, m, y);
    RewritesMore(kinds, v + ["x"], m, n);
    Regroup3(a, rest, y);
    Turned(kinds, a, n, r, g, rest + y);
    PrefixedConcat(g, rest, y);
    if rest == [] {
      assert r + Prefixed(g, rest) == r;
      assert LedBy(kinds, v, r + Prefixed(g, rest), m + n, Prefixed(g, y));
    } else {
      Regroup3(r, Prefixed(g, rest), y);
      assert LedBy(kinds, v, r + Prefixed(g, rest), m + n, y);
    }
  }

  lemma Turned(kinds: map<Path, Kind>, a: Path, n: nat, r: Path, g: string, y: Path)
    requires [] in kinds && TurnsInto(kinds, a, n, r, g) && y != []
    ensures Rewrites(kinds, a + y, n) == r + Prefixed(g, y)
  {
  }

  lemma OneHop(kinds: map<Path, Kind>, q: Path)
    requires Tree(kinds) && IsLink(kinds, q)
    ensures TurnsInto(kinds, q, 1, kinds[q].dir, kinds[q].prefix)
  {
    hide Prefixed;
    forall y: Path | y != [] ensures Rewrites(kinds, q + y, 1) == kinds[q].dir + Prefixed(kinds[q].prefix, y) {
      LinkAnywhere(kinds, q, y);
      assert Rewrites(kinds, q + y, 1) == Rewrites(kinds, Rewrite(kinds, q + y), 0);
    }
  }

  lemma InTurn(kinds: map<Path, Kind>, a: Path, n: nat, b: Path, g: string, rest: Path, m: nat, r: Path, h: string)
    requires [] in kinds && TurnsInto(kinds, a, n, b, g) && TurnsInto(kinds, b + Prefixed(g, rest), m, r, h)
    ensures TurnsInto(kinds, a + rest, n + m, r, if rest == [] then h + g else h)
  {
    hide Rewrites, Prefixed;
    var k := if rest == [] then h + g else h;
    forall y: Path | y != [] ensures Rewrites(kinds, a + rest + y, n + m) == r + Prefixed(k, y) {
      Regroup3(a, rest, y);
      Turned(kinds, a, n, b, g, rest + y);
      RewritesMore(kinds, a + (rest + y), n, m);
      PrefixedConcat(g, rest, y);
      if rest == [] {
        assert b + Prefixed(g, rest) == b;
        Turned(kinds, b + Prefixed(g, rest), m, r, h, Prefixed(g, y));
        PrefixedTwice(h, g, y);
      } else {
        Regroup3(b, Prefixed(g, rest), y);
        Turned(kinds, b + Prefixed(g, rest), m, r, h, y);
      }
    }
  }

  lemma LedComesBack(kinds: map<Path, Kind>, q: Path)
    requires [] in kinds && Led(kinds, q, q)
    ensures exists m: nat :: m > 0 && ComesBack(kinds, q, m)
  {
    hide Rewrites;
    var m: nat, y: Path :| LedBy(kinds, q, q, m, y);
    assert q <= q + y && ComesBack(kinds, q, m);
  }

  lemma NotUnderWay(kinds: map<Path, Kind>, q: Path, seen: set<Path>)
    requires [] in kinds && NoReturn(kinds) && IsLink(kinds, q) && LedTo(kinds, seen, q)
    ensures q !in seen && AllLinks(kinds) - (seen + {q}) < AllLinks(kinds) - seen
  {
    hide Led, ComesBack;
    if q in seen {
      LedComesBack(kinds, q);
    }
    assert q in AllLinks(kinds) - seen && q !in AllLinks(kinds) - (seen + {q});
  }

  lemma {:induction false} ResolveLink(kinds: map<Path, Kind>, q: Path, seen: set<Path>)
    returns (n: nat, r: Path, g: string)
    requires Tree(kinds) && NoReturn(kinds) && IsLink(kinds, q) && LedTo(kinds, seen, q)
    ensures TurnsInto(kinds, q, n, r, g) && Settled(kinds, r)
    decreases AllLinks(kinds) - seen, 0
  {
    hide TurnsInto, Settled, Led, NoReturn, Tree, AllLinks;
    RootIsThere(kinds);
    var t, p := kinds[q].dir, kinds[q].prefix;
    NotUnderWay(kinds, q, seen);
    OneHop(kinds, q);
    assert Prefixed(p, []) == [] && q + [] == q && t + [] == t && [] + t == t;
    forall v | v in seen + {q} ensures IsLink(kinds, v) && Led(kinds, v, t) {
      if v == q {
        HopLeads(kinds, q);
      } else {
        LedOn(kinds, v, q, [], 1, t, p);
      }
    }
    RootSettled(kinds);
    n, r, g := ResolvePath(kinds, [], t, seen + {q});
    InTurn(kinds, q, 1, t, p, [], n, r, g);
    n, g := 1 + n, g + p;
  }

  lemma HopLeads(kinds: map<Path, Kind>, q: Path)
    requires Tree(kinds) && IsLink(kinds, q)
    ensures Led(kinds, q, kinds[q].dir)
  {
    hide Rewrites;
    OneHop(kinds, q);
    Turned(kinds, q, 1, kinds[q].dir, kinds[q].prefix, ["x"]);
    assert LedBy(kinds, q, kinds[q].dir, 1, Prefixed(kinds[q].prefix, ["x"]));
  }

  lemma RootSettled(kinds: map<Path, Kind>)
    requires Tree(kinds)
    ensures Settled(kinds, [])
  {
  }

  lemma {:induction false} ResolvePath(kinds: map<Path, Kind>, a: Path, rest: Path, seen: set<Path>)
    returns (n: nat, r: Path, g: string)
    requires Tree(kinds) && NoReturn(kinds) && Settled(kinds, a) && LedTo(kinds, seen, a + rest)
    ensures TurnsInto(kinds, a + rest, n, r, g) && Settled(kinds, r)
    decreases AllLinks(kinds) - seen, 1 + |rest|
  {
    hide TurnsInto, Settled, Led, NoReturn, Tree, AllLinks, Prefixed;
    RootIsThere(kinds);
    if rest == [] {
      assert a + rest == a;
      Nothing(kinds, a);
      n, r, g := 0, a, "";
    } else {
      var p, more := a + [rest[0]], rest[1..];
      assert a + rest == p + more;
      if IsLink(kinds, p) {
        forall v | v in seen ensures IsLink(kinds, v) && Led(kinds, v, p) {
          LedShorter(kinds, v, p, more);
        }
        var n1, r1, g1 := ResolveLink(kinds, p, seen);
        forall v | v in seen ensures IsLink(kinds, v) && Led(kinds, v, r1 + Prefixed(g1, more)) {
          LedOn(kinds, v, p, more, n1, r1, g1);
        }
        n, r, g := ResolvePath(kinds, r1, Prefixed(g1, more), seen);
        InTurn(kinds, p, n1, r1, g1, more, n, r, g);
        n, g := n1 + n, if more == [] then g + g1 else g;
      } else {
        StillSettled(kinds, a, rest[0]);
        n, r, g := ResolvePath(kinds, p, more, seen);
      }
    }
  }

  lemma Nothing(kinds: map<Path, Kind>, a: Path)
    requires [] in kinds
    ensures TurnsInto(kinds, a, 0, a, "")
  {
    hide Prefixed;
    forall y: Path | y != [] ensures Rewrites(kinds, a + y, 0) == a + Prefixed("", y) {
      PrefixedNothing(y);
    }
  }

  lemma LedShorter(kinds: map<Path, Kind>, v: Path, p: Path, more: Path)
    requires [] in kinds && Led(kinds, v, p + more)
    ensures Led(kinds, v, p)
  {
    hide Rewrites;
    var m: nat, y: Path :| LedBy(kinds, v, p + more, m, y);
    Regroup3(p, more, y);
    assert LedBy(kinds, v, p, m, more + y);
  }

  lemma StillSettled(kinds: map<Path, Kind>, a: Path, c: string)
    requires Settled(kinds, a) && !IsLink(kinds, a + [c])
    ensures Settled(kinds, a + [c])
  {
    forall q | q <= a + [c] ensures !IsLink(kinds, q) {
      if q != a + [c] {
        assert q == (a + [c])[..|q|] == a[..|q|];
      }
    }
  }

  lemma ResolvedPathEnds(kinds: map<Path, Kind>, path: Path)
    requires Tree(kinds) && NoReturn(kinds) && path != []
    ensures Ends(kinds, path)
  {
    hide Rewrites, NoReturn, TurnsInto, Settled, Led, Tree, Linked;
    RootIsThere(kinds);
    RootSettled(kinds);
    var front, x := Parent(path), path[|path| - 1];
    assert path == front + [x] && [] + front == front;
    var n, r, g := ResolvePath(kinds, [], front, {});
    Turned(kinds, front, n, r, g, [x]);
    PrefixedOne(g, x);
    SettledStops(kinds, r, g + x);
    assert !Linked(kinds, Rewrites(kinds, path, n));
  }

  lemma SettledStops(kinds: map<Path, Kind>, r: Path, x: string)
    requires [] in kinds && Settled(kinds, r)
    ensures !Linked(kinds, r + [x])
  {
    hide Deepest;
    var d := Deepest(kinds, r + [x]);
    assert d == (r + [x])[..|d|] == r[..|d|];
    assert d <= r && !IsLink(kinds, d);
  }

  /** Whatever the links, the loop ends on every path exactly when no link leads back to itself. */
  lemma EndsUnlessReturning(kinds: map<Path, Kind>)
    requires Tree(kinds)
    ensures (forall path :: path != [] ==> Ends(kinds, path)) <==> NoReturn(kinds)
  {
    hide Ends, Tree, ComesBack;
    RootIsThere(kinds);
    if NoReturn(kinds) {
      forall path: Path | path != [] ensures Ends(kinds, path) {
        ResolvedPathEnds(kinds, path);
      }
    }
    if forall path :: path != [] ==> Ends(kinds, path) {
      forall q, n: nat | IsLink(kinds, q) && n > 0 ensures !ComesBack(kinds, q, n) {
        if ComesBack(kinds, q, n) {
          ReturnNeverEnds(kinds, q, n);
        }
      }
    }
  }

  // ----- what the loop finds -----

  /** A loop that meets no link to a file ends where the walk ends. */
  lemma {:induction false} MeaningKept(kinds: map<Path, Kind>, path: Path, n: nat)
    requires Tree(kinds) && Straight(kinds) && ChainsEnd(kinds) && path != []
    requires !Linked(kinds, Rewrites(kinds, path, n)) && !Walk(kinds, [], path).bent
    ensures Rewrites(kinds, path, n) == Walk(kinds, [], path).at
    decreases n
  {
    hide Walk, Straight, ChainsEnd, Rewrite, Rewrites, Linked, Tree;
    RootIsThere(kinds);
    if !Linked(kinds, path) {
      StaysStopped(kinds, path, n);
      StopsUnlinked(kinds, path);
    } else {
      LinkedGoesOn(kinds, path, n);
      KeptByRewrite(kinds, path);
      MeaningKept(kinds, Rewrite(kinds, path), n - 1);
    }
  }

  lemma StopsUnlinked(kinds: map<Path, Kind>, path: Path)
    requires Tree(kinds) && ChainsEnd(kinds) && path != [] && !Linked(kinds, path)
    ensures Walk(kinds, [], path) == Walked(path, false)
  {
    hide Walk, Deepest, ChainsEnd;
    StopsAtWalk(kinds, path);
  }

  lemma KeptByRewrite(kinds: map<Path, Kind>, path: Path)
    requires Tree(kinds) && Straight(kinds) && ChainsEnd(kinds) && path != [] && Linked(kinds, path)
    requires !Walk(kinds, [], path).bent
    ensures Walk(kinds, [], Rewrite(kinds, path)) == Walk(kinds, [], path)
  {
    hide Walk, Deepest, Straight, ChainsEnd, Rewrite;
    PlainUnlessBent(kinds, path);
    RewriteKeepsMeaning(kinds, path);
  }

  lemma LinkedGoesOn(kinds: map<Path, Kind>, path: Path, n: nat)
    requires [] in kinds && path != [] && Linked(kinds, path) && !Linked(kinds, Rewrites(kinds, path, n))
    ensures n > 0 && Rewrites(kinds, path, n) == Rewrites(kinds, Rewrite(kinds, path), n - 1)
  {
    hide Linked, Rewrite;
    NoRewrites(kinds, path);
  }

  lemma PlainUnlessBent(kinds: map<Path, Kind>, path: Path)
    requires Tree(kinds) && ChainsEnd(kinds) && path != [] && Linked(kinds, path)
    ensures kinds[Deepest(kinds, path)].prefix != "" ==> Walk(kinds, [], path).bent
  {
    hide Walk, Deepest, ChainsEnd, Final, FinalPrefix;
    var d := Deepest(kinds, path);
    SplitAt(path, d);
    WalkThroughLink(kinds, d, path[|d|..]);
    LinkChainEnds(kinds, d);
    FinalOfTarget(kinds, d);
  }

  /** How many names are left below the deepest existing ancestor. */
  ghost function Tail(kinds: map<Path, Kind>, path: Path): int
    requires [] in kinds && path != []
  {
    |path| - |Deepest(kinds, path)|
  }

  lemma TailBelow(kinds: map<Path, Kind>, t: Path, rest: Path)
    requires [] in kinds && t in kinds && rest != []
    ensures Tail(kinds, t + rest) <= |rest|
    ensures !IsLink(kinds, t) && Linked(kinds, t + rest) ==> Tail(kinds, t + rest) < |rest|
  {
    hide Deepest;
    var path, d := t + rest, Deepest(kinds, t + rest);
    assert t <= path && t != path && t == path[..|t|] && d == path[..|d|];
    assert |d| == |t| ==> d == t;
  }

  /** Where every link stands, rewriting never leaves more names. */
  lemma {:induction false} TailShrinks(kinds: map<Path, Kind>, path: Path, n: nat)
    requires Tree(kinds) && Standing(kinds) && path != []
    ensures Tail(kinds, Rewrites(kinds, path, n)) <= Tail(kinds, path)
    decreases n
  {
    hide Tail, Rewrite, Standing, Tree;
    RootIsThere(kinds);
    if n > 0 {
      TailStep(kinds, path);
      TailShrinks(kinds, Rewrite(kinds, path), n - 1);
    }
  }

  lemma TailStep(kinds: map<Path, Kind>, path: Path)
    requires Tree(kinds) && Standing(kinds) && path != []
    ensures Tail(kinds, Rewrite(kinds, path)) <= Tail(kinds, path)
  {
    hide Deepest, Standing, Tree, Prefixed;
    RootIsThere(kinds);
    var d := Deepest(kinds, path);
    if kinds[d].Link? {
      StandingDir(kinds, d);
      TailBelow(kinds, kinds[d].dir, Prefixed(kinds[d].prefix, path[|d|..]));
    }
  }

  /** A loop that meets a link to a file ends elsewhere than the walk. */
  lemma {:induction false} MeaningLost(kinds: map<Path, Kind>, path: Path, n: nat)
    requires Tree(kinds) && Standing(kinds) && ChainsEnd(kinds) && path != []
    requires !Linked(kinds, Rewrites(kinds, path, n)) && Walk(kinds, [], path).bent
    ensures Rewrites(kinds, path, n) != Walk(kinds, [], path).at
    decreases n
  {
    hide Walk, Standing, ChainsEnd, Rewrite, Rewrites, Linked, Tree;
    RootIsThere(kinds);
    if !Linked(kinds, path) {
      StopsUnlinked(kinds, path);
    } else {
      LinkedGoesOn(kinds, path, n);
      LostByRewrite(kinds, path, n - 1);
      if Walk(kinds, [], Rewrite(kinds, path)) == Walk(kinds, [], path) {
        MeaningLost(kinds, Rewrite(kinds, path), n - 1);
      }
    }
  }

  lemma LostByRewrite(kinds: map<Path, Kind>, path: Path, n: nat)
    requires Tree(kinds) && Standing(kinds) && ChainsEnd(kinds) && path != [] && Linked(kinds, path)
    ensures Walk(kinds, [], Rewrite(kinds, path)) == Walk(kinds, [], path) ||
            Rewrites(kinds, Rewrite(kinds, path), n) != Walk(kinds, [], path).at
  {
    hide Walk, Deepest, Standing, ChainsEnd, Rewrite, Rewrites, Tree;
    RootIsThere(kinds);
    var d := Deepest(kinds, path);
    SplitAt(path, d);
    if kinds[d].prefix == "" {
      StandingIsStraight(kinds);
      RewriteKeepsMeaning(kinds, path);
    } else {
      Bent(kinds, d, path[|d|..], n);
    }
  }

  /** Past a link to a file: the file's name and the next one have become one name. */
  lemma Bent(kinds: map<Path, Kind>, d: Path, rest: Path, n: nat)
    requires Tree(kinds) && Standing(kinds) && ChainsEnd(kinds) && IsLink(kinds, d) && kinds[d].prefix != "" && rest != []
    ensures Walk(kinds, [], d + rest) == Walked(Target(kinds[d]) + rest, true)
    ensures Rewrite(kinds, d + rest) != [] && Rewrites(kinds, Rewrite(kinds, d + rest), n) != Target(kinds[d]) + rest
  {
    hide Walk, Deepest, ChainsEnd, Rewrite, Rewrites, Final, FinalPrefix, Prefixed;
    var t, g := kinds[d].dir, kinds[d].prefix;
    StandingDir(kinds, d);
    WalkThroughLink(kinds, d, rest);
    LinkChainEnds(kinds, d);
    FinalOfTarget(kinds, d);
    FinalOfEnd(kinds, t);
    assert "" + g == g;
    LinkAnywhere(kinds, d, rest);
    var path', file := t + Prefixed(g, rest), t + [g];
    NothingBelow(kinds, file, rest);
    if Linked(kinds, path') {
      TailBelow(kinds, t, Prefixed(g, rest));
      TailShrinks(kinds, path', n);
    } else {
      StaysStopped(kinds, path', n);
    }
  }

  /**
   The resolving loop of setPath ends, at a path none of whose existing
   ancestors is a link. Where links name what exists, it is the path the walk
   from the root reaches exactly when no link to a file is met before the last
   name; the same with missing targets that are not below a link, one way.
   */
  method SetPath(kinds: map<Path, Kind>, path: Path) returns (ret: int, found: Path, parentFound: bool)
    requires Tree(kinds) && NoReturn(kinds)
    ensures path == [] ==> found == [] && ret == 0
    ensures path != [] ==> Resolved(kinds, found) && found != [] && exists n: nat :: found == Rewrites(kinds, path, n)
    ensures path != [] ==> ret == if kinds[Deepest(kinds, found)] == File then ENOTDIR else 0
    ensures path != [] && Standing(kinds) && ChainsEnd(kinds) ==>
              (found == Walk(kinds, [], path).at <==> !Walk(kinds, [], path).bent)
    ensures path != [] && Straight(kinds) && ChainsEnd(kinds) && !Walk(kinds, [], path).bent ==>
              found == Walk(kinds, [], path).at
  {
    hide Walk, Deepest, ChainsEnd, Straight, Standing, NoReturn, Rewrites, Rewrite, Linked, Resolved, Tree, Prefixed;
    RootIsThere(kinds);
    found, parentFound := path, false;
    if path == [] {
      return 0, found, false;
    }
    ResolvedPathEnds(kinds, path);
    ghost var left: nat :| !Linked(kinds, Rewrites(kinds, path, left));
    ghost var done: nat := 0;
    NoRewrites(kinds, path);
    ret := EAGAIN;
    while ret == EAGAIN
      invariant found != [] && found == Rewrites(kinds, path, done)
      invariant !Linked(kinds, Rewrites(kinds, found, left))
      invariant ret != EAGAIN ==> !Linked(kinds, found)
      invariant ret != EAGAIN ==> ret == if kinds[Deepest(kinds, found)] == File then ENOTDIR else 0
      decreases if ret == EAGAIN then 1 else 0, left
    {
      ghost var before := found;
      ret, found, parentFound := MakeRealPath(kinds, found);
      RewriteIs(kinds, before);
      if Linked(kinds, before) {
        OneRewrite(kinds, path, done, before, left);
        done, left := done + 1, left - 1;
      }
    }
    RewriteIs(kinds, found);
    FoundMeans(kinds, path, done);
    StopsResolved(kinds, found);
  }

  /** Where every link stands, the loop finds what the walk finds exactly when no link to a file is met. */
  lemma FoundMeans(kinds: map<Path, Kind>, path: Path, n: nat)
    requires Tree(kinds) && path != [] && !Linked(kinds, Rewrites(kinds, path, n))
    ensures Standing(kinds) && ChainsEnd(kinds) ==>
              (Rewrites(kinds, path, n) == Walk(kinds, [], path).at <==> !Walk(kinds, [], path).bent)
    ensures Straight(kinds) && ChainsEnd(kinds) && !Walk(kinds, [], path).bent ==>
              Rewrites(kinds, path, n) == Walk(kinds, [], path).at
  {
    hide Walk, Straight, Standing, ChainsEnd, Rewrites, Linked;
    if ChainsEnd(kinds) {
      if Standing(kinds) {
        StandingIsStraight(kinds);
        if Walk(kinds, [], path).bent {
          MeaningLost(kinds, path, n);
        }
      }
      if Straight(kinds) && !Walk(kinds, [], path).bent {
        MeaningKept(kinds, path, n);
      }
    }
  }

  lemma RewriteIs(kinds: map<Path, Kind>, path: Path)
    requires [] in kinds && path != []
    ensures var d := Deepest(kinds, path);
            && (Linked(kinds, path) <==> kinds[d].Link?)
            && Rewrite(kinds, path) == if kinds[d].Link? then kinds[d].dir + Prefixed(kinds[d].prefix, path[|d|..]) else path
  {
    hide Deepest, Prefixed;
  }

  lemma OneRewrite(kinds: map<Path, Kind>, path: Path, done: nat, before: Path, left: nat)
    requires [] in kinds && path != [] && before == Rewrites(kinds, path, done) && Linked(kinds, before)
    requires !Linked(kinds, Rewrites(kinds, before, left))
    ensures Rewrite(kinds, before) == Rewrites(kinds, path, done + 1)
    ensures left > 0 && Rewrites(kinds, Rewrite(kinds, before), left - 1) == Rewrites(kinds, before, left)
  {
    hide Rewrite, Linked;
    RewritesMore(kinds, path, done, 1);
    assert Rewrites(kinds, before, 1) == Rewrites(kinds, Rewrite(kinds, before), 0);
    assert Rewrites(kinds, before, 0) == before;
  }

  // ----- links that go wrong -----

  /**
   A directory link that names itself, such as one made through an object whose
   directory was removed after it was opened, under the name of that directory.
   */
  lemma SelfLinkNeverResolves(name: string, file: string)
    ensures var kinds := map[[] := Dir, [name] := Link([name], "")];
            Tree(kinds) && Straight(kinds) && !Ends(kinds, [name, file])
  {
    var kinds := map[[] := Dir, [name] := Link([name], "")];
    assert Follow(kinds, [name], 1) == [name] by { assert Follow(kinds, kinds[[name]].dir, 0) == [name]; }
    CycleNeverEnds(kinds, [name], 1, file);
    assert [name] + [file] == [name, file];
  }

  /** A link recorded as the name of a file, its own: one rewrite leads out of it. */
  lemma SelfFileLinkEnds(link: string, name: string)
    requires link != ""
    ensures var kinds := map[[] := Dir, [link] := Link([], link)];
            Tree(kinds) && Target(kinds[[link]]) == [link] &&
            Rewrite(kinds, [link, name]) == [link + name] && !Linked(kinds, [link + name])
  {
    hide Tree, Rewrite, Prefixed;
    var kinds := map[[] := Dir, [link] := Link([], link)];
    OneLink(link);
    LinkAnywhere(kinds, [link], [name]);
    assert [link] + [name] == [link, name];
    PrefixedOne(link, name);
    BelowRoot(kinds, link + name);
  }

  lemma OneLink(link: string)
    ensures var kinds := map[[] := Dir, [link] := Link([], link)];
            Tree(kinds) && IsLink(kinds, [link]) && (link != "" ==> Target(kinds[[link]]) == [link])
  {
    assert [] + [link] == [link];
  }

  /** A link to a file: one name further on, link and name are taken for a single name beside the file. */
  lemma FileLinkIsGlued(file: string, link: string, name: string)
    requires file != "" && file != link
    ensures var kinds := map[[] := Dir, [file] := File, [link] := Link([], file)];
            && Tree(kinds) && SoundLinks(kinds)
            && Rewrite(kinds, [link, name]) == [file + name] && !Linked(kinds, [file + name])
            && ChainsEnd(kinds) && Walk(kinds, [], [link, name]) == Walked([file, name], true)
  {
    hide Tree, SoundLinks, Standing, ChainsEnd, Acyclic, Straight, Walk, Deepest, Rewrite, Prefixed;
    var kinds := map[[] := Dir, [file] := File, [link] := Link([], file)];
    OneFileLink(file, link);
    SoundLinksResolve(kinds);
    AcyclicChainsEnd(kinds);
    Bent(kinds, [link], [name], 0);
    LinkAnywhere(kinds, [link], [name]);
    assert [link] + [name] == [link, name] && [file] + [name] == [file, name];
    PrefixedOne(file, name);
    BelowRoot(kinds, file + name);
  }

  lemma OneFileLink(file: string, link: string)
    requires file != "" && file != link
    ensures var kinds := map[[] := Dir, [file] := File, [link] := Link([], file)];
            Tree(kinds) && SoundLinks(kinds) && IsLink(kinds, [link]) && Target(kinds[[link]]) == [file]
  {
    hide Tree, SoundLinks;
    var kinds := map[[] := Dir, [file] := File, [link] := Link([], file)];
    assert [] + [file] == [file];
    assert kinds[[]] == Dir && kinds[[file]] == File && kinds[[link]] == Link([], file);
    forall p | p in kinds && p != [] ensures |p| == 1 && (p == [link] || kinds[p] == File) {
      assert p == [file] || p == [link];
    }
    FlatTree(kinds);
    LinksSound(kinds, [link]);
  }

  /** Everything lies directly below the root. */
  lemma FlatTree(kinds: map<Path, Kind>)
    requires [] in kinds && kinds[[]] == Dir && forall p :: p in kinds && p != [] ==> |p| == 1
    ensures Tree(kinds)
  {
    forall p | p in kinds && p != [] ensures Parent(p) == [] {
    }
  }

  lemma LinksSound(kinds: map<Path, Kind>, q: Path)
    requires IsLink(kinds, q) && Target(kinds[q]) in kinds && kinds[q].prefix != "" && kinds[Target(kinds[q])] == File
    requires forall p :: p in kinds && p != [] ==> p == q || kinds[p] == File
    requires [] in kinds && kinds[[]] == Dir
    ensures SoundLinks(kinds)
  {
  }

  lemma BelowRoot(kinds: map<Path, Kind>, n: string)
    requires Tree(kinds)
    ensures !Linked(kinds, [n])
  {
    assert Parent([n]) == [];
  }

  lemma BelowItself(name: string, below: string, rest: Path)
    requires rest != []
    ensures var kinds := map[[] := Dir, [name] := Link([name, below], "")];
            Tree(kinds) && !Straight(kinds) && Linked(kinds, [name] + rest) &&
            Rewrite(kinds, [name] + rest) == [name] + ([below] + rest)
  {
    var kinds := map[[] := Dir, [name] := Link([name, below], "")];
    NothingBelow(kinds, [name], rest);
    NothingBelow(kinds, [name], [below]);
    assert [name] + [below] == [name, below] && IsLink(kinds, [name]);
    assert ([name] + rest)[1..] == rest && [name, below] + rest == [name] + ([below] + rest);
    PrefixedNothing(rest);
  }

  /** A link that names a missing place below itself: every rewrite makes the path longer. */
  lemma {:induction false} LinkBelowItselfNeverResolves(name: string, below: string, rest: Path, n: nat)
    requires rest != []
    ensures var kinds := map[[] := Dir, [name] := Link([name, below], "")];
            Tree(kinds) && Linked(kinds, Rewrites(kinds, [name] + rest, n)) &&
            |Rewrites(kinds, [name] + rest, n)| == 1 + |rest| + n
    decreases n
  {
    hide Linked, Rewrite;
    BelowItself(name, below, rest);
    if n > 0 {
      LinkBelowItselfNeverResolves(name, below, [below] + rest, n - 1);
    }
  }

  // ----- the text of paths -----

  /** The names with separators between them. */
  function Joined(names: Path): string
    requires names != []
  {
    if |names| == 1 then names[0] else names[0] + "/" + Joined(names[1..])
  }

  /** The text of a path that does not end in a separator. */
  function Text(path: Path): string
    requires path != []
  {
    Render(Parent(path)) + path[|path| - 1]
  }

  lemma {:induction false} TextSplit(d: Path, rest: Path)
    requires rest != []
    ensures Text(d + rest) == Render(d) + Joined(rest)
    decreases |rest|
  {
    if |rest| == 1 {
      assert Parent(d + rest) == d;
    } else {
      var d', more := d + [rest[0]], rest[1..];
      assert d + rest == d' + more && Parent(d') == d;
      TextSplit(d', more);
      AssocText(Render(d) + rest[0], "/", Joined(more));
      AssocText(Render(d), rest[0] + "/", Joined(more));
      AssocText(Render(d), rest[0], "/");
    }
  }

  lemma JoinedPrefixed(g: string, names: Path)
    requires names != []
    ensures Joined(Prefixed(g, names)) == g + Joined(names)
  {
    var r := Prefixed(g, names);
    assert r[1..] == names[1..] && r[0] == g + names[0];
    if |names| > 1 {
      AssocText(g, names[0] + "/", Joined(names[1..]));
      AssocText(g, names[0], "/");
    }
  }

  /**
   The rewrite is the one makeRealPath does on text: the ancestor's text is
   erased from the front and the recorded text of the link put there.
   */
  lemma RewriteIsTextual(kinds: map<Path, Kind>, path: Path)
    requires [] in kinds && path != [] && Linked(kinds, path)
    ensures var d := Deepest(kinds, path);
            && Render(d) <= Text(path)
            && Text(Rewrite(kinds, path)) == (Render(kinds[d].dir) + kinds[d].prefix) + Text(path)[|Render(d)|..]
  {
    hide Deepest, Render, Text, Joined;
    var d := Deepest(kinds, path);
    SplitAt(path, d);
    var rest, k := path[|d|..], kinds[d];
    TextSplit(d, rest);
    TextSplit(k.dir, Prefixed(k.prefix, rest));
    JoinedPrefixed(k.prefix, rest);
    AssocText(Render(k.dir), k.prefix, Joined(rest));
  }
}
