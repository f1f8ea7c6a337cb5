/**
 What a directory log leaves for an entry and each of its metadata keys, told
 from the lines alone.
 */
module EntryMetadata {
  import opened LogText
  import opened LogLines
  import opened DirLog

  /** The entry exists after these lines: the last line about it inserted it, or found it and did not delete it. */
  predicate Live(ps: seq<Parsed>, n: string) {
    ps != [] &&
    var before := Live(ps[..|ps| - 1], n);
    if ps[|ps| - 1].name == n then !(before && ps[|ps| - 1].delete) else before
  }

  /** Line i found no such entry and so inserted it. */
  predicate Inserts(ps: seq<Parsed>, n: string, i: nat)
    requires i < |ps|
  {
    ps[i].name == n && !Live(ps[..i], n)
  }

  predicate LastInserted(ps: seq<Parsed>, n: string, i: nat) {
    i < |ps| && Inserts(ps, n, i) && forall m :: i < m < |ps| ==> !Inserts(ps, n, m)
  }

  /** The line sets or removes this key of this entry. */
  predicate About(p: Parsed, n: string, k: string) {
    p.name == n && (k in p.adds || k in p.dels)
  }

  /** Line j is the last one about the key after line i. */
  predicate LastAbout(ps: seq<Parsed>, n: string, k: string, i: nat, j: nat) {
    i < j < |ps| && About(ps[j], n, k) && forall m :: j < m < |ps| ==> !About(ps[m], n, k)
  }

  /** What replaying the lines leaves for an entry and a key, given the line that inserted the entry last. */
  ghost predicate Left(ps: seq<Parsed>, md: map<string, string>, n: string, k: string, i: nat) {
    && (k in md <==> exists j: nat :: LastAbout(ps, n, k, i, j) && k !in ps[j].dels)
    && (forall j: nat :: LastAbout(ps, n, k, i, j) && k !in ps[j].dels ==> k in md && md[k] == ps[j].adds[k])
  }

  lemma ReplayedLine(c: Cache, p: Parsed, n: string)
    requires Whole(p.name)
    ensures var c' := ReplayLine(c, p);
            && (p.name != n ==> (n in c'.contents <==> n in c.contents) && (n in c.contents ==> c'.contents[n] == c.contents[n]))
            && (p.name == n && n !in c.contents ==> n in c'.contents && c'.contents[n] == map[])
            && (p.name == n && n in c.contents && p.delete ==> n !in c'.contents)
            && (p.name == n && n in c.contents && !p.delete ==>
                  n in c'.contents && c'.contents[n] == (c.contents[n] + p.adds) - p.dels)
  {
    hide CString;
    if p.name in c.contents {
      assert (c.contents[p.name] + map[]) - {} == c.contents[p.name];
    }
  }

  lemma LastLine(front: seq<Parsed>, p: Parsed, n: string)
    ensures Live(front + [p], n) == if p.name == n then !(Live(front, n) && p.delete) else Live(front, n)
    ensures forall i :: 0 <= i < |front| ==> (Inserts(front + [p], n, i) <==> Inserts(front, n, i))
    ensures Inserts(front + [p], n, |front|) <==> p.name == n && !Live(front, n)
  {
    var ps := front + [p];
    assert ps[..|front|] == front;
    forall i | 0 <= i < |front| ensures Inserts(ps, n, i) <==> Inserts(front, n, i) {
      assert ps[..i] == front[..i];
    }
  }

  lemma AboutLast(front: seq<Parsed>, p: Parsed, n: string, k: string, i: nat)
    ensures About(p, n, k) && i < |front| ==>
              forall j: nat :: LastAbout(front + [p], n, k, i, j) <==> j == |front|
    ensures !About(p, n, k) ==>
              forall j: nat :: LastAbout(front + [p], n, k, i, j) <==> LastAbout(front, n, k, i, j)
  {
    hide About;
    var ps := front + [p];
    assert ps[|front|] == p;
    forall j: nat ensures !About(p, n, k) ==> (LastAbout(ps, n, k, i, j) <==> LastAbout(front, n, k, i, j)) {
      if !About(p, n, k) && LastAbout(ps, n, k, i, j) {
        assert forall m :: j < m < |front| ==> front[m] == ps[m];
      }
    }
  }

  lemma LeftStep(front: seq<Parsed>, p: Parsed, md: map<string, string>, n: string, k: string, i: nat)
    requires i < |front| && p.name == n && Left(front, md, n, k, i)
    ensures Left(front + [p], (md + p.adds) - p.dels, n, k, i)
  {
    var ps := front + [p];
    AboutLast(front, p, n, k, i);
    hide LastAbout;
    assert ps[|front|] == p && forall j :: 0 <= j < |front| ==> ps[j] == front[j];
    AboutBounds(front, n, k, i);
  }

  lemma AboutBounds(ps: seq<Parsed>, n: string, k: string, i: nat)
    ensures forall j: nat :: LastAbout(ps, n, k, i, j) ==> i < j < |ps| && ps[j].name == n && (k in ps[j].adds || k in ps[j].dels)
  {
  }

  lemma LeftOther(front: seq<Parsed>, p: Parsed, md: map<string, string>, n: string, k: string, i: nat)
    requires p.name != n && Left(front, md, n, k, i)
    ensures Left(front + [p], md, n, k, i)
  {
    var ps := front + [p];
    AboutLast(front, p, n, k, i);
    AboutBounds(front, n, k, i);
    hide LastAbout;
    assert forall j :: 0 <= j < |front| ==> ps[j] == front[j];
  }

  /** A live entry has a last insertion. */
  lemma {:induction false} LiveWasInserted(ps: seq<Parsed>, n: string) returns (i: nat)
    requires Live(ps, n)
    ensures LastInserted(ps, n, i)
    ensures forall i': nat :: LastInserted(ps, n, i') ==> i' == i
  {
    var front, p := ps[..|ps| - 1], ps[|ps| - 1];
    assert ps == front + [p];
    LastLine(front, p, n);
    if p.name == n && !Live(front, n) {
      i := |front|;
    } else {
      hide Live;
      i := LiveWasInserted(front, n);
    }
  }

  /**
   What a log leaves, from its lines alone: an entry is there exactly when it is
   live; a key is in its metadata exactly when the last line about the key
   since the entry was last inserted sets it and does not also remove it; and
   the value is the one that line gives.
   */
  lemma {:induction false} MetadataLeft(ps: seq<Parsed>, n: string, k: string, i: nat)
    requires AllWhole(ps)
    ensures n in ReplayAll(EMPTY, ps).contents <==> Live(ps, n)
    ensures Live(ps, n) && LastInserted(ps, n, i) ==> Left(ps, ReplayAll(EMPTY, ps).contents[n], n, k, i)
  {
    hide ReplayLine, Left;
    if ps != [] {
      var front, p := ps[..|ps| - 1], ps[|ps| - 1];
      assert ps == front + [p];
      var c := ReplayAll(EMPTY, front);
      MetadataLeft(front, n, k, i);
      ReplayedLine(c, p, n);
      LastLine(front, p, n);
      hide Live;
      if Live(ps, n) && LastInserted(ps, n, i) {
        if p.name != n {
          LeftOther(front, p, c.contents[n], n, k, i);
        } else if Live(front, n) {
          LeftStep(front, p, c.contents[n], n, k, i);
        } else {
          NewHasNone(ps, n, k, i);
        }
      }
    }
  }

  lemma NewHasNone(ps: seq<Parsed>, n: string, k: string, i: nat)
    requires ps != [] && LastInserted(ps, n, i) && Inserts(ps, n, |ps| - 1)
    ensures Left(ps, map[], n, k, i)
  {
    hide Live;
  }

  // ----- from the printed text on -----

  lemma OneLineMore(log: string, text: string, p: Parsed)
    requires Terminated(log) && '\n' !in text && ParseLine(text) == p
    ensures Replay(EMPTY, log + (text + "\n")) == ReplayLine(Replay(EMPTY, log), p)
  {
    hide ParsedLines, ParseLine, ReplayLine;
    ReplayConcat(EMPTY, log, text + "\n");
    OneLine(text);
    var c := Replay(EMPTY, log);
    assert [p][..0] == [];
    assert ReplayAll(c, []) == c;
  }

  /**
   Setting metadata of an entry that exists, as text appended to any log of
   whole lines: the keys set get their values, the others keep theirs, and so
   do the other entries.
   */
  lemma SettingMetadata(log: string, name: string, md: seq<(string, string)>)
    requires Terminated(log) && Loggable(name) && CleanFields(md) && name in Replay(EMPTY, log).contents
    ensures var c := Replay(EMPTY, log).contents;
            Replay(EMPTY, log + (MetadataText(name, md, '+') + "\n")).contents == c[name := c[name] + AddAll(map[], md)]
  {
    hide Replay, MetadataText, ParseLine, AddAll, CString;
    PrintedLinesHaveNoNewline(name, md, '+');
    MetadataLineParses(name, md);
    OneLineMore(log, MetadataText(name, md, '+'), Parsed(name, false, AddAll(map[], md), {}));
    var c := Replay(EMPTY, log).contents;
    assert (c[name] + AddAll(map[], md)) - {} == c[name] + AddAll(map[], md);
    assert c[name] + map[] == c[name];
    assert c[name := c[name]] == c;
  }

  /** Removing one metadata key of an entry that exists takes just that key away. */
  lemma RemovingMetadata(log: string, name: string, k: string, v: string)
    requires Terminated(log) && Loggable(name) && Clean(k) && Clean(v) && name in Replay(EMPTY, log).contents
    ensures var c := Replay(EMPTY, log).contents;
            Replay(EMPTY, log + (MetadataText(name, [(k, v)], '-') + "\n")).contents == c[name := c[name] - {k}]
  {
    hide Replay, MetadataText, ParseLine, CString;
    var md := [(k, v)];
    PrintedLinesHaveNoNewline(name, md, '-');
    RemoveLineParses(name, md);
    OneLineMore(log, MetadataText(name, md, '-'), Parsed(name, false, map[], {Merged(md)}));
    var c := Replay(EMPTY, log).contents;
    assert (c[name] + map[]) - {k} == c[name] - {k};
  }
}
