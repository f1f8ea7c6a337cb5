/**
 The directory cache: the log is replayed line by line, read incrementally,
 and compacted into one line per entry.
 */
module DirLog {
  import opened TextOrder
  import opened LogText
  import opened LogLines

  /** mContents (entry name to metadata), mEntryNames and mLogNrLines. */
  datatype Cache = Cache(contents: map<string, map<string, string>>, names: set<string>, lines: nat)

  const EMPTY: Cache := Cache(map[], {}, 0)

  // ----- replay -----

  /** No zero character, so that c_str() stands for the whole name. */
  predicate Whole(n: string) { '\0' !in n }

  /** std::string(n.c_str()): the part before the first zero character. */
  function CString(n: string): (s: string)
    ensures Whole(n) ==> s == n
  {
    if n == [] || n[0] == '\0' then [] else [n[0]] + CString(n[1..])
  }

  function MetadataOf(c: Cache, n: string): map<string, string> {
    if n in c.contents then c.contents[n] else map[]
  }

  /**
   What parseContents does with a parsed line. A line for an entry not yet
   known inserts it, even when it was meant to delete, and without metadata.
   The entry is looked up and deleted as a C string; its metadata, and the
   entry set, go by the whole name.
   */
  function ReplayLine(c: Cache, p: Parsed): Cache {
    if CString(p.name) !in c.contents then
      Cache(c.contents[p.name := map[]], c.names + {p.name}, c.lines + 1)
    else if p.delete then
      Cache(c.contents - {CString(p.name)}, c.names - {p.name}, c.lines + 1)
    else if p.adds == map[] && p.dels == {} then
      Cache(c.contents, c.names, c.lines + 1)
    else
      Cache(c.contents[p.name := (MetadataOf(c, p.name) + p.adds) - p.dels], c.names, c.lines + 1)
  }

  function ReplayAll(c: Cache, ps: seq<Parsed>): Cache {
    if ps == [] then c else ReplayLine(ReplayAll(c, ps[..|ps| - 1]), ps[|ps| - 1])
  }

  /** Where the first line of a text ends. */
  function LineEnd(text: string): (k: nat)
    ensures k <= |text|
    ensures forall i :: 0 <= i < k ==> text[i] != '\n'
    ensures k < |text| ==> text[k] == '\n'
  {
    if text == [] || text[0] == '\n' then 0 else 1 + LineEnd(text[1..])
  }

  function AfterLine(text: string): (rest: string)
    ensures text != [] ==> |rest| < |text|
  {
    if LineEnd(text) < |text| then text[LineEnd(text) + 1..] else []
  }

  /** The lines getline yields, parsed. */
  function ParsedLines(text: string): seq<Parsed>
    decreases |text|
  {
    if text == [] then [] else [ParseLine(text[..LineEnd(text)])] + ParsedLines(AfterLine(text))
  }

  function Replay(c: Cache, text: string): Cache {
    ReplayAll(c, ParsedLines(text))
  }

  predicate Terminated(text: string) {
    text == [] || text[|text| - 1] == '\n'
  }

  lemma {:induction false} ReplayAllConcat(c: Cache, ps: seq<Parsed>, qs: seq<Parsed>)
    ensures ReplayAll(c, ps + qs) == ReplayAll(ReplayAll(c, ps), qs)
  {
    if qs == [] {
      assert ps + qs == ps;
    } else {
      assert (ps + qs)[..|ps + qs| - 1] == ps + qs[..|qs| - 1];
      ReplayAllConcat(c, ps, qs[..|qs| - 1]);
    }
  }

  lemma {:induction false} LineEndConcat(a: string, b: string)
    requires LineEnd(a) < |a|
    ensures LineEnd(a + b) == LineEnd(a)
  {
    if a[0] != '\n' {
      assert (a + b)[1..] == a[1..] + b;
      LineEndConcat(a[1..], b);
    }
  }

  lemma TerminatedHasLine(a: string)
    requires a != [] && Terminated(a)
    ensures LineEnd(a) < |a| && Terminated(AfterLine(a))
  {
  }

  lemma NoLines()
    ensures ParsedLines("") == []
  {
  }

  lemma ParsedLinesStep(text: string, k: nat)
    requires k == LineEnd(text) < |text|
    ensures ParsedLines(text) == [ParseLine(text[..k])] + ParsedLines(text[k + 1..])
  {
  }

  lemma {:induction false} ParsedLinesConcat(a: string, b: string)
    requires Terminated(a)
    ensures ParsedLines(a + b) == ParsedLines(a) + ParsedLines(b)
    decreases |a|
  {
    hide ParseLine, ParsedLines;
    NoLines();
    if a == [] {
      assert a + b == b;
    } else {
      TerminatedHasLine(a);
      LineEndConcat(a, b);
      var k := LineEnd(a);
      assert (a + b)[..k] == a[..k] && (a + b)[k + 1..] == a[k + 1..] + b;
      ParsedLinesStep(a, k);
      ParsedLinesStep(a + b, k);
      ParsedLinesConcat(a[k + 1..], b);
      var line := [ParseLine(a[..k])];
      assert line + (ParsedLines(a[k + 1..]) + ParsedLines(b)) == line + ParsedLines(a[k + 1..]) + ParsedLines(b);
    }
  }

  /** Replaying on top of a log that ends with a whole line continues its replay. */
  lemma ReplayConcat(c: Cache, a: string, b: string)
    requires Terminated(a)
    ensures Replay(c, a + b) == Replay(Replay(c, a), b)
  {
    ParsedLinesConcat(a, b);
    ReplayAllConcat(c, ParsedLines(a), ParsedLines(b));
  }

  lemma OneLine(text: string)
    requires '\n' !in text
    ensures ParsedLines(text + "\n") == [ParseLine(text)]
  {
    LineEndOfText(text);
    assert (text + "\n")[..|text|] == text;
    assert AfterLine(text + "\n") == [];
  }

  lemma {:induction false} LineEndOfText(text: string)
    requires '\n' !in text
    ensures LineEnd(text + "\n") == |text|
  {
    if text != [] {
      assert (text + "\n")[1..] == text[1..] + "\n";
      LineEndOfText(text[1..]);
    }
  }

  /** The name set is the key set, and there are at most as many entries as lines. */
  ghost predicate Sound(c: Cache) {
    c.names == c.contents.Keys && |c.contents| <= c.lines
  }

  ghost predicate AllWhole(ps: seq<Parsed>) {
    forall k :: 0 <= k < |ps| ==> Whole(ps[k].name)
  }

  lemma ReplayLineSound(c: Cache, p: Parsed)
    requires Sound(c) && Whole(p.name)
    ensures Sound(ReplayLine(c, p))
    ensures |ReplayLine(c, p).contents| <= if p.name in c.contents then |c.contents| else |c.contents| + 1
  {
    var c' := ReplayLine(c, p);
    if p.name in c.contents {
      if p.delete {
        assert c'.contents.Keys == c.contents.Keys - {p.name};
      } else {
        assert c'.contents.Keys == c.contents.Keys;
      }
    } else {
      assert c'.contents.Keys == c.contents.Keys + {p.name};
    }
    assert |c'.contents| == |c'.contents.Keys| && |c.contents| == |c.contents.Keys|;
  }

  lemma {:induction false} ReplayAllSound(c: Cache, ps: seq<Parsed>)
    requires Sound(c) && AllWhole(ps)
    ensures Sound(ReplayAll(c, ps)) && ReplayAll(c, ps).lines == c.lines + |ps|
  {
    if ps != [] {
      ReplayAllSound(c, ps[..|ps| - 1]);
      ReplayLineSound(ReplayAll(c, ps[..|ps| - 1]), ps[|ps| - 1]);
    }
  }

  // ----- names: the code's replay against plain add and remove -----

  /** The effect of a line on the cached name set, as the code has it. */
  function NameStep(names: set<string>, name: string, delete: bool): set<string> {
    if name in names && delete then names - {name} else names + {name}
  }

  /** The effect of a line as its author meant it. */
  function PlainStep(names: set<string>, name: string, delete: bool): set<string> {
    if delete then names - {name} else names + {name}
  }

  function PlainNames(ps: seq<Parsed>): set<string> {
    if ps == [] then {} else PlainStep(PlainNames(ps[..|ps| - 1]), ps[|ps| - 1].name, ps[|ps| - 1].delete)
  }

  lemma ReplayLineNames(c: Cache, p: Parsed)
    requires Sound(c) && Whole(p.name)
    ensures ReplayLine(c, p).names == NameStep(c.names, p.name, p.delete)
  {
  }

  /** Every removing line names an entry that is live at that point. */
  ghost predicate RemovesOnlyLive(ps: seq<Parsed>) {
    forall k :: 0 <= k < |ps| && ps[k].delete ==> ps[k].name in PlainNames(ps[..k])
  }

  ghost predicate NamesAgree(ps: seq<Parsed>) {
    forall k :: 0 <= k <= |ps| ==> ReplayAll(EMPTY, ps[..k]).names == PlainNames(ps[..k])
  }

  lemma NamesAgreeStep(ps: seq<Parsed>, k: nat)
    requires k < |ps| && AllWhole(ps) && ReplayAll(EMPTY, ps[..k]).names == PlainNames(ps[..k])
    ensures ReplayAll(EMPTY, ps[..k + 1]).names == PlainNames(ps[..k + 1]) <==>
            (ps[k].delete ==> ps[k].name in PlainNames(ps[..k]))
  {
    assert ps[..k + 1][..k] == ps[..k];
    ReplayAllSound(EMPTY, ps[..k]);
    ReplayLineNames(ReplayAll(EMPTY, ps[..k]), ps[k]);
  }

  lemma {:induction false} NamesAgreeUpTo(ps: seq<Parsed>, n: nat)
    requires n <= |ps| && AllWhole(ps) && RemovesOnlyLive(ps)
    ensures ReplayAll(EMPTY, ps[..n]).names == PlainNames(ps[..n])
  {
    if n > 0 {
      NamesAgreeUpTo(ps, n - 1);
      NamesAgreeStep(ps, n - 1);
    }
  }

  /**
   After every line the cached names are the plain add/remove set, exactly
   when each removing line names an entry that is live. No name has a zero
   character.
   */
  lemma CachedNamesArePlain(ps: seq<Parsed>)
    requires AllWhole(ps)
    ensures NamesAgree(ps) <==> RemovesOnlyLive(ps)
  {
    if RemovesOnlyLive(ps) {
      forall k | 0 <= k <= |ps| ensures ReplayAll(EMPTY, ps[..k]).names == PlainNames(ps[..k]) {
        NamesAgreeUpTo(ps, k);
      }
    } else if NamesAgree(ps) {
      var k :| 0 <= k < |ps| && ps[k].delete && ps[k].name !in PlainNames(ps[..k]);
      NamesAgreeStep(ps, k);
    }
  }

  /** A live name with a zero character is not found by the line that removes it. */
  lemma ZeroCharacterNotFound()
    ensures var insert := NOTHING.(name := "a\0b");
            var ps := [insert, insert.(delete := true)];
            RemovesOnlyLive(ps) && PlainNames(ps) == {} && ReplayAll(EMPTY, ps).names == {"a\0b"}
  {
    var insert := NOTHING.(name := "a\0b");
    var ps := [insert, insert.(delete := true)];
    assert ps[..1] == [insert] && [insert][..0] == [];
    assert PlainNames([insert]) == {"a\0b"};
    assert "a\0b"[1..] == "\0b" && "a\0b"[0] == 'a' && "\0b"[0] == '\0';
    assert CString("a\0b") == ['a'];
    assert ReplayAll(EMPTY, []) == EMPTY;
    assert ReplayAll(EMPTY, [insert]).contents == map["a\0b" := map[]];
    assert ['a'] != "a\0b" by { assert |['a']| != |"a\0b"|; }
  }

  // ----- incremental reading -----

  /** The cache and the number of log bytes it has read (mLastCachedSize, mLastReadByte). */
  datatype Reader = Reader(cache: Cache, size: nat)

  const FRESH: Reader := Reader(EMPTY, 0)

  /** DirCache::update against the log as it is now. */
  function Update(r: Reader, log: string): Reader {
    var r' := if |log| < r.size then FRESH else r;
    if |log| == r'.size then r' else Reader(Replay(r'.cache, log[r'.size..]), |log|)
  }

  /** The reader has read exactly this log. */
  ghost predicate InStep(r: Reader, log: string) {
    Terminated(log) && r.size == |log| && r.cache == Replay(EMPTY, log)
  }

  predicate ExtendsOrShorter(seen: string, log: string) {
    seen <= log || |log| < |seen|
  }

  lemma UpdateKeepsStep(r: Reader, seen: string, log: string)
    requires InStep(r, seen) && Terminated(log) && ExtendsOrShorter(seen, log)
    ensures InStep(Update(r, log), log)
  {
    if |log| < r.size {
      assert log[0..] == log;
    } else {
      assert log == seen + log[|seen|..];
      ReplayConcat(EMPTY, seen, log[|seen|..]);
      assert |log| == r.size ==> log == seen;
    }
  }

  function Updates(logs: seq<string>): Reader {
    if logs == [] then FRESH else Update(Updates(logs[..|logs| - 1]), logs[|logs| - 1])
  }

  /**
   Over every run in which the log, at each update, extends what was read
   before or is shorter than it, the cache equals a replay of the whole log.
   */
  lemma {:induction false} IncrementalEqualsReplay(logs: seq<string>)
    requires logs != []
    requires forall k :: 0 <= k < |logs| ==> Terminated(logs[k])
    requires forall k :: 0 < k < |logs| ==> ExtendsOrShorter(logs[k - 1], logs[k])
    ensures Updates(logs).cache == Replay(EMPTY, logs[|logs| - 1])
    ensures InStep(Updates(logs), logs[|logs| - 1])
  {
    var front := logs[..|logs| - 1];
    if front == [] {
      UpdateKeepsStep(FRESH, [], logs[0]);
    } else {
      IncrementalEqualsReplay(front);
      UpdateKeepsStep(Updates(front), front[|front| - 1], logs[|logs| - 1]);
    }
  }

  /** Against a log as long as the part read, an update is right exactly when both replay to the same cache. */
  lemma SameSizeRight(r: Reader, seen: string, log: string)
    requires InStep(r, seen) && Terminated(log) && |log| == |seen|
    ensures InStep(Update(r, log), log) <==> Replay(EMPTY, seen) == Replay(EMPTY, log)
  {
    hide Replay;
  }

  /** A rewrite to a different log of the same length goes unseen. */
  lemma SameSizeRewriteUnseen()
    ensures var seen, log := IndexLine("a", '+'), IndexLine("b", '+');
            InStep(Update(FRESH, seen), seen) && |seen| == |log| &&
            Update(Update(FRESH, seen), log).cache.names == {"a"} && Replay(EMPTY, log).names == {"b"}
  {
    hide ParsedLines, InStep, ReplayLine;
    var seen, log := IndexLine("a", '+'), IndexLine("b", '+');
    OneEntry("a");
    OneEntry("b");
    assert |Escape("a")| == 1 == |Escape("b")|;
    UpdateOnce(seen);
  }

  lemma UpdateOnce(log: string)
    requires Terminated(log)
    ensures InStep(Update(FRESH, log), log) && Update(FRESH, log) == Reader(Replay(EMPTY, log), |log|)
  {
    UpdateKeepsStep(FRESH, [], log);
  }

  lemma OneEntry(n: string)
    requires Clean(n)
    ensures Terminated(IndexLine(n, '+')) && Replay(EMPTY, IndexLine(n, '+')).names == {n}
  {
    EntryLine(n, '+');
    var p := NOTHING.(name := n);
    assert ReplayAll(EMPTY, [p][..0]) == EMPTY;
    assert ReplayAll(EMPTY, [p]) == ReplayLine(EMPTY, p);
  }

  /** What a printed entry line replays as, whatever the name. */
  lemma AnyEntryLine(name: string, op: char)
    requires op == '+' || op == '-'
    ensures ParsedLines(IndexLine(name, op)) == [NOTHING.(name := LoggedName(name), delete := op == '-')]
    ensures Terminated(IndexLine(name, op)) && IndexLine(name, op) != []
  {
    hide ParseLine, IndexText, LoggedName;
    PrintedLinesHaveNoNewline(name, [], op);
    OneLine(IndexText(name, op));
    AnyIndexLine(name, op);
  }

  lemma EntryLine(name: string, op: char)
    requires Clean(name) && (op == '+' || op == '-')
    ensures ParsedLines(IndexLine(name, op)) == [NOTHING.(name := name, delete := op == '-')]
    ensures Terminated(IndexLine(name, op)) && IndexLine(name, op) != []
  {
    hide ParsedLines, IndexLine;
    CleanClosesWell(name);
    AnyEntryLine(name, op);
    EscapeRoundTrip(name);
  }

  lemma {:induction false} EscapeWhole(s: string)
    requires Whole(s)
    ensures Whole(Escape(s))
  {
    if s != "" {
      EscapeWhole(s[1..]);
    }
  }

  lemma {:induction false} UnescapeWhole(t: string)
    requires Whole(t)
    ensures Whole(Unescape(t))
    decreases |t|
  {
    if |t| > 1 {
      UnescapeWhole(t[if t[0] == '\\' then 2 else 1..]);
    }
  }

  /** Printing and parsing a name brings no zero character into it. */
  lemma LoggedWhole(name: string)
    requires Whole(name)
    ensures Whole(LoggedName(name))
  {
    hide Escape, Unescape;
    var s := if ClosesWell(name) then name else name[..|name| - 1] + "\" ";
    EscapeWhole(s);
    UnescapeWhole(Escape(s));
  }

  /** A log of whole lines whose replay keeps the entries and their names in step. */
  ghost predicate Tidy(log: string) {
    Terminated(log) && Sound(Replay(EMPTY, log))
  }

  // ----- compaction -----

  /** Compaction prints metadata without its prefix and without escaping. */
  ghost function RawFields(md: map<string, string>, keys: seq<string>): string
    requires forall k :: k in keys ==> k in md
  {
    if keys == [] then ""
    else "+" + keys[0] + "=\"" + md[keys[0]] + "\" " + RawFields(md, keys[1..])
  }

  ghost function CompactLine(name: string, md: map<string, string>): string {
    NameField('+', name) + " " + RawFields(md, InOrder(md.Keys))
  }

  ghost function CompactLines(contents: map<string, map<string, string>>, names: seq<string>): string
    requires forall n :: n in names ==> n in contents
  {
    if names == [] then ""
    else CompactLine(names[0], contents[names[0]]) + "\n" + CompactLines(contents, names[1..])
  }

  /** The log compactDirOpLog writes: one line per entry, in map order. */
  ghost function CompactText(contents: map<string, map<string, string>>): string {
    CompactLines(contents, InOrder(contents.Keys))
  }

  ghost predicate NoMetadata(contents: map<string, map<string, string>>) {
    forall n :: n in contents ==> contents[n] == map[]
  }

  /** Neither a backslash nor a zero character. */
  predicate Loggable(n: string) { Clean(n) && Whole(n) }

  ghost predicate CleanNames(contents: map<string, map<string, string>>) {
    forall n :: n in contents ==> Loggable(n)
  }

  function Inserts(names: seq<string>): seq<Parsed> {
    seq(|names|, i requires 0 <= i < |names| => NOTHING.(name := names[i]))
  }

  lemma BareCompactLine(name: string)
    ensures CompactLine(name, map[]) == IndexText(name, '+')
  {
    var none: map<string, string> := map[];
    assert none.Keys == {} && InOrder({}) == [];
    assert NameField('+', name) + " " + "" == NameField('+', name) + " ";
  }

  lemma {:induction false} CompactLinesParse(contents: map<string, map<string, string>>, names: seq<string>)
    requires forall n :: n in names ==> n in contents && Clean(n) && contents[n] == map[]
    ensures Terminated(CompactLines(contents, names))
    ensures ParsedLines(CompactLines(contents, names)) == Inserts(names)
  {
    hide CompactLine, IndexLine, ParsedLines;
    NoLines();
    if names != [] {
      var n, rest := names[0], CompactLines(contents, names[1..]);
      CompactLinesParse(contents, names[1..]);
      OneCompactLine(n);
      ParsedLinesConcat(IndexLine(n, '+'), rest);
      assert Inserts(names) == [NOTHING.(name := n)] + Inserts(names[1..]);
      TerminatedConcat(IndexLine(n, '+'), rest);
    }
  }

  lemma TerminatedConcat(a: string, b: string)
    requires Terminated(a) && Terminated(b)
    ensures Terminated(a + b)
  {
  }

  lemma OneCompactLine(n: string)
    requires Clean(n)
    ensures CompactLine(n, map[]) + "\n" == IndexLine(n, '+')
    ensures ParsedLines(IndexLine(n, '+')) == [NOTHING.(name := n)]
    ensures Terminated(IndexLine(n, '+')) && IndexLine(n, '+') != []
  {
    BareCompactLine(n);
    EntryLine(n, '+');
  }

  lemma {:induction false} ReplayInserts(names: seq<string>)
    requires forall i, j :: 0 <= i < j < |names| ==> names[i] != names[j]
    requires forall n :: n in names ==> Whole(n)
    ensures var c := ReplayAll(EMPTY, Inserts(names));
            c.contents.Keys == (set n | n in names) && NoMetadata(c.contents) && c.names == c.contents.Keys &&
            c.lines == |names|
  {
    hide ReplayLine, Whole;
    if names != [] {
      var front, n := names[..|names| - 1], names[|names| - 1];
      ReplayInserts(front);
      assert Inserts(names)[..|names| - 1] == Inserts(front);
      assert names == front + [n] && n !in front;
      InsertNew(ReplayAll(EMPTY, Inserts(front)), n);
    }
  }

  lemma InsertNew(c: Cache, n: string)
    requires Whole(n) && n !in c.contents
    ensures ReplayLine(c, NOTHING.(name := n)) == Cache(c.contents[n := map[]], c.names + {n}, c.lines + 1)
  {
  }

  lemma NamesAreClean(contents: map<string, map<string, string>>, names: seq<string>)
    requires CleanNames(contents) && forall n :: n in names ==> n in contents
    ensures forall n :: n in names ==> Clean(n) && Whole(n)
  {
  }

  /**
   Replaying the compacted log gives back exactly the cache: same entries,
   one line each; so compacting it again gives the same bytes.
   */
  lemma CompactionPreservesNames(contents: map<string, map<string, string>>)
    requires NoMetadata(contents) && CleanNames(contents)
    ensures Terminated(CompactText(contents))
    ensures Replay(EMPTY, CompactText(contents)) == Cache(contents, contents.Keys, |contents|)
    ensures CompactText(Replay(EMPTY, CompactText(contents)).contents) == CompactText(contents)
  {
    hide ParsedLines, CompactLines, ReplayAll, Inserts, InOrder, CleanNames;
    var names := InOrder(contents.Keys);
    AscendingDistinct(names);
    assert forall n :: n in names ==> n in contents && contents[n] == map[];
    NamesAreClean(contents, names);
    CompactLinesParse(contents, names);
    ReplayInserts(names);
    var c := Replay(EMPTY, CompactText(contents));
    assert (set n | n in names) == contents.Keys;
    assert c.contents == contents;
  }

  /** A compacted line as it stands in the object: keys without prefix, nothing escaped but the names. */
  lemma CompactWrittenOut(name: string, k: string, v: string)
    ensures CompactText(map[name := map[k := v]]) ==
            "+" + "name=\"" + Escape(name) + "\" " + ("+" + k + "=\"" + v + "\" ") + "\n"
  {
    hide Escape, NameField, InOrder;
    var md, contents := map[k := v], map[name := map[k := v]];
    assert md.Keys == {k} && contents.Keys == {name};
    OneInOrder(k);
    OneInOrder(name);
    OneField(md, k);
    NameFieldText(name);
    assert contents[name] == md;
    OneEntryText(contents, name);
  }

  lemma OneField(md: map<string, string>, k: string)
    requires k in md
    ensures RawFields(md, [k]) == "+" + k + "=\"" + md[k] + "\" "
  {
    assert [k][1..] == [];
  }

  lemma OneEntryText(contents: map<string, map<string, string>>, n: string)
    requires n in contents
    ensures CompactLines(contents, [n]) == CompactLine(n, contents[n]) + "\n"
  {
    hide CompactLine;
    assert [n][1..] == [];
  }

  lemma OneInOrder(x: string)
    ensures InOrder({x}) == [x]
  {
    assert {x} - {x} == {};
  }

  // ----- first lines -----

  /** A log with as many entries as lines carries no metadata. */
  lemma {:induction false} FirstLinesDropMetadata(ps: seq<Parsed>)
    requires AllWhole(ps) && |ReplayAll(EMPTY, ps).contents| == |ps|
    ensures NoMetadata(ReplayAll(EMPTY, ps).contents)
  {
    if ps != [] {
      var front, p := ps[..|ps| - 1], ps[|ps| - 1];
      var c := ReplayAll(EMPTY, front);
      ReplayAllSound(EMPTY, front);
      ReplayLineSound(c, p);
      FirstLinesDropMetadata(front);
    }
  }
}
