/**
 What becomes of metadata in a compaction, which prints it raw: the compacted
 log never gives it back. The proof weighs the text. A line can yield no more
 metadata than it is long, and the first line of an entry yields none.
 */
module RawMetadata {
  import opened TextOrder
  import opened LogText
  import opened LogLines
  import opened DirLog

  // ----- weights -----

  /** The weight of a metadata map: what its fields take in print. */
  ghost function Weight(m: map<string, string>): nat
    decreases |m|
  {
    if m == map[] then 0 else
      var k :| k in m;
      FieldWeight(k, m[k]) + Weight(m - {k})
  }

  function FieldWeight(k: string, v: string): nat { |k| + |v| + 5 }

  lemma {:induction false} WeightWithout(m: map<string, string>, k: string)
    requires k in m
    ensures Weight(m) == FieldWeight(k, m[k]) + Weight(m - {k})
    decreases |m|
  {
    var x :| x in m && Weight(m) == FieldWeight(x, m[x]) + Weight(m - {x});
    if x != k {
      WeightWithout(m - {x}, k);
      WeightWithout(m - {k}, x);
      assert m - {x} - {k} == m - {k} - {x};
    }
  }

  lemma WeightSet(m: map<string, string>, k: string, v: string)
    ensures Weight(m[k := v]) <= Weight(m) + FieldWeight(k, v)
  {
    WeightWithout(m[k := v], k);
    assert m[k := v] - {k} == m - {k};
    WeightMinus(m, {k});
  }

  lemma {:induction false} WeightMinus(m: map<string, string>, s: set<string>)
    ensures Weight(m - s) <= Weight(m)
    decreases |m|
  {
    hide Weight;
    if m == map[] {
      assert m - s == m;
    } else {
      var k :| k in m;
      WeightWithout(m, k);
      WeightMinus(m - {k}, s);
      MinusBoth(m, k, s);
      if k !in s {
        WeightWithout(m - s, k);
      }
    }
  }

  lemma MinusBoth<V>(m: map<string, V>, k: string, s: set<string>)
    requires k in m
    ensures k in s ==> m - s == m - {k} - s
    ensures k !in s ==> k in m - s && (m - s)[k] == m[k] && m - s - {k} == m - {k} - s
    ensures |m - {k}| < |m|
  {
    assert (m - {k}).Keys == m.Keys - {k};
  }

  lemma {:induction false} WeightMerge(m: map<string, string>, a: map<string, string>)
    ensures Weight(m + a) <= Weight(m) + Weight(a)
    decreases |a|
  {
    hide Weight;
    if a == map[] {
      assert m + a == m;
    } else {
      var k :| k in a;
      WeightWithout(a, k);
      MinusBoth(a, k, {});
      WeightMerge(m, a - {k});
      WeightSet(m + (a - {k}), k, a[k]);
      MergeOne(m, a, k);
    }
  }

  lemma MergeOne<V>(m: map<string, V>, a: map<string, V>, k: string)
    requires k in a
    ensures (m + (a - {k}))[k := a[k]] == m + a
  {
  }

  /** The weight of all the metadata of a directory. */
  ghost function Total(c: map<string, map<string, string>>): nat
    decreases |c|
  {
    if c == map[] then 0 else
      var n :| n in c;
      Weight(c[n]) + Total(c - {n})
  }

  lemma {:induction false} TotalWithout(c: map<string, map<string, string>>, n: string)
    requires n in c
    ensures Total(c) == Weight(c[n]) + Total(c - {n})
    decreases |c|
  {
    var x :| x in c && Total(c) == Weight(c[x]) + Total(c - {x});
    if x != n {
      TotalWithout(c - {x}, n);
      TotalWithout(c - {n}, x);
      assert c - {x} - {n} == c - {n} - {x};
    }
  }

  lemma TotalSet(c: map<string, map<string, string>>, n: string, m: map<string, string>)
    ensures Total(c[n := m]) == Weight(m) + Total(c - {n})
  {
    TotalWithout(c[n := m], n);
    assert c[n := m] - {n} == c - {n};
  }

  lemma TotalShrinks(c: map<string, map<string, string>>, n: string)
    ensures Total(c - {n}) <= Total(c)
  {
    if n in c {
      TotalWithout(c, n);
    } else {
      assert c - {n} == c;
    }
  }

  /** A line adds at most the weight of its fields, and nothing when it inserts its entry. */
  lemma ReplayLineTotal(c: Cache, p: Parsed)
    ensures Total(ReplayLine(c, p).contents) <=
            Total(c.contents) + if CString(p.name) in c.contents then Weight(p.adds) else 0
  {
    hide CString, Weight;
    var n, md := p.name, MetadataOf(c, p.name);
    TotalShrinks(c.contents, n);
    TotalShrinks(c.contents, CString(n));
    TotalSet(c.contents, n, map[]);
    TotalSet(c.contents, n, (md + p.adds) - p.dels);
    WeightMinus(md + p.adds, p.dels);
    WeightMerge(md, p.adds);
    WeightOfNothing();
    if n in c.contents {
      TotalWithout(c.contents, n);
    }
  }

  // ----- budgets -----

  function Sum(bs: seq<nat>): nat { if bs == [] then 0 else Sum(bs[..|bs| - 1]) + bs[|bs| - 1] }

  lemma {:induction false} SumConcat(a: seq<nat>, b: seq<nat>)
    ensures Sum(a + b) == Sum(a) + Sum(b)
  {
    if b == [] {
      assert a + b == a;
    } else {
      assert (a + b)[..|a + b| - 1] == a + b[..|b| - 1];
      SumConcat(a, b[..|b| - 1]);
    }
  }

  /** Each line's metadata is within its budget, and a line without budget names none of the chosen entries. */
  ghost predicate Paid(ps: seq<Parsed>, bs: seq<nat>, chosen: set<string>) {
    |ps| == |bs| && forall k :: 0 <= k < |ps| ==> PaidOne(ps[k], bs[k], chosen)
  }

  ghost predicate PaidOne(p: Parsed, b: nat, chosen: set<string>) {
    Weight(p.adds) <= b && (b == 0 ==> p.name !in chosen)
  }

  lemma PaidConcat(ps: seq<Parsed>, bs: seq<nat>, ps': seq<Parsed>, bs': seq<nat>, chosen: set<string>)
    requires Paid(ps, bs, chosen) && Paid(ps', bs', chosen)
    ensures Paid(ps + ps', bs + bs', chosen)
  {
  }

  /** A replay never weighs more than the budgets, and less once it holds a chosen entry. */
  lemma {:induction false} Outweighed(ps: seq<Parsed>, bs: seq<nat>, chosen: set<string>)
    requires Paid(ps, bs, chosen) && forall n :: n in chosen ==> Whole(n)
    ensures Total(ReplayAll(EMPTY, ps).contents) <= Sum(bs)
    ensures (exists n :: n in chosen && n in ReplayAll(EMPTY, ps).contents) ==>
              Total(ReplayAll(EMPTY, ps).contents) < Sum(bs)
  {
    if ps != [] {
      var front, p, b := ps[..|ps| - 1], ps[|ps| - 1], bs[|bs| - 1];
      Outweighed(front, bs[..|bs| - 1], chosen);
      assert PaidOne(p, b, chosen);
      ReplayLineTotal(ReplayAll(EMPTY, front), p);
    }
  }

  // ----- what a line can yield -----

  /** What the scan has taken up so far: key, token, and the equals sign between them. */
  function Taken(key: string, token: string, gotKey: bool): nat {
    |key| + |token| + if gotKey then 1 else 0
  }

  /** The weight a token can stand for. */
  function Worth(t: Token): nat { |t.key| + |t.value| + 1 }

  function Upto(line: string, pos: nat): nat { if pos < |line| then pos else |line| }

  /**
   A token is worth no more than the characters it takes, but for one more at
   the end of the line; not even that when the line ends in a space, unless a
   quote is open.
   */
  ghost predicate Bounded(line: string, i: nat, taken: nat, open: bool, t: Token) {
    && i <= t.pos
    && Worth(t) <= taken + (Upto(line, t.pos) - Upto(line, i)) + 1
    && (t.pos < |line| ==> Worth(t) <= taken + (t.pos - i))
    && (i < |line| <= t.pos && line[|line| - 1] == ' ' ==>
          Worth(t) <= taken + (|line| - i) + if open then 1 else 0)
  }

  lemma FinishBounded(line: string, i: nat, pos: nat, key: string, token: string, gotKey: bool, open: bool)
    requires i <= pos && (!gotKey ==> key == "") && (gotKey || pos >= |line|)
    requires i < |line| ==> gotKey || pos > |line|
    ensures Bounded(line, i, Taken(key, token, gotKey), open, Finish(pos, key, token, gotKey))
  {
  }

  lemma {:induction false} ScanBounded(line: string, i: nat, key: string, token: string, gotKey: bool, quote: char)
    requires i <= |line| + 1 && (!gotKey ==> key == "")
    ensures Bounded(line, i, Taken(key, token, gotKey), quote != '\0', Scan(line, i, key, token, gotKey, quote))
    decreases |line| + 1 - i, 1
  {
    hide Finish;
    if i >= |line| {
      FinishBounded(line, i, i, key, token, gotKey, quote != '\0');
    } else if IsQuote(line, i) && quote == '\0' {
      ScanBounded(line, i + 1, key, token, gotKey, line[i]);
    } else if IsQuote(line, i) && quote == line[i] {
      if gotKey {
        FinishBounded(line, i, i + 1, key, token, gotKey, true);
      } else {
        BareBounded(line, i + 1, key, token, gotKey);
      }
    } else if quote == '\0' {
      BareBounded(line, i, key, token, gotKey);
    } else {
      ScanBounded(line, i + 1, key, token + [line[i]], gotKey, quote);
    }
  }

  /** Past the end of the line the bare part still takes the null character that follows. */
  ghost predicate BareOk(line: string, i: nat, taken: nat, t: Token) {
    if i < |line| then Bounded(line, i, taken, false, t) else Worth(t) <= taken + 2 && t.pos > |line|
  }

  lemma {:induction false} BareBounded(line: string, i: nat, key: string, token: string, gotKey: bool)
    requires i <= |line| && (!gotKey ==> key == "")
    ensures BareOk(line, i, Taken(key, token, gotKey), ScanBare(line, i, key, token, gotKey))
    decreases |line| + 1 - i, 0
  {
    hide Finish;
    var c := At(line, i);
    if c == '=' {
      ScanBounded(line, i + 1, token, "", true, '\0');
    } else if c == ' ' {
      if token != "" && gotKey {
        FinishBounded(line, i, i, key, token, gotKey, false);
      } else {
        ScanBounded(line, i + 1, key, token, gotKey, '\0');
      }
    } else {
      ScanBounded(line, i + 1, key, token + [c], gotKey, '\0');
    }
  }

  lemma {:induction false} UnescapeShrinks(t: string)
    ensures |Unescape(t)| <= |t|
    decreases |t|
  {
    if |t| > 1 {
      UnescapeShrinks(t[if t[0] == '\\' then 2 else 1..]);
    }
  }

  /** A token adds at most what it is worth to the metadata of its line. */
  lemma AbsorbWeight(acc: Parsed, t: Token)
    requires t.key != ""
    ensures Weight(Absorb(acc, t.key, t.value).adds) <= Weight(acc.adds) + Worth(t)
  {
    if |t.key| >= 4 {
      UnescapeShrinks(t.key[4..]);
      UnescapeShrinks(t.value);
      WeightSet(acc.adds, Unescape(t.key[4..]), Unescape(t.value));
    }
  }

  /** From a place in a line on, what can still be added: the rest of the line, and one more unless it ends in a space. */
  ghost function Rest(line: string, start: nat): nat {
    if start > |line| then 0
    else |line| - start + if start == |line| || line[|line| - 1] == ' ' then 0 else 1
  }

  lemma {:induction false} LineWeight(line: string, start: nat, acc: Parsed)
    requires start <= |line| + 1
    ensures Weight(ParseFrom(line, start, acc).adds) <= Weight(acc.adds) + Rest(line, start)
    decreases |line| + 1 - start
  {
    hide Scan, Absorb;
    var t := TokenAt(line, start);
    ScanBounded(line, start, "", "", false, '\0');
    if t.pos != start {
      if t.key == "" {
        LineWeight(line, t.pos, acc);
      } else {
        AbsorbWeight(acc, t);
        if !Absorb(acc, t.key, t.value).delete {
          LineWeight(line, t.pos, Absorb(acc, t.key, t.value));
        }
      }
    }
  }

  lemma WeightOfNothing()
    ensures Weight(map[]) == 0
  {
  }

  // ----- the line an entry begins with -----

  /** Inside the quotes of a value the key stays. */
  lemma {:induction false} KeyStays(line: string, i: nat, key: string, token: string)
    requires i <= |line|
    ensures Scan(line, i, key, token, true, '"').key == key
    decreases |line| - i
  {
    if i < |line| && !(IsQuote(line, i) && line[i] == '"') {
      KeyStays(line, i + 1, key, token + [line[i]]);
    }
  }

  /** The first token of an entry's line is its name, and takes in the whole name field. */
  lemma NameFirst(line: string, n: string)
    requires Has(line, 0, IndexText(n, '+'))
    ensures var t, k := TokenAt(line, 0), |IndexText(n, '+')|;
            k <= |line| && k >= 8 && t.key == "+name" && (t.pos >= k || (t.pos == k - 1 && line[t.pos] == ' '))
  {
    hide Scan, ScanBare, Escape, Has;
    var w, e := "+name", Escape(n);
    NameShape3(n);
    HasSplit(line, 0, w, "=" + ("\"" + (e + "\" ")));
    HasSplit(line, 5, "=", "\"" + (e + "\" "));
    HasSplit(line, 6, "\"", e + "\" ");
    HasSplit(line, 7, e, "\" ");
    assert "\"" + " " == "\" ";
    HasSplit(line, 7 + |e|, "\"", " ");
    HasChar(line, 5, '=');
    HasChar(line, 6, '"');
    HasChar(line, 7 + |e|, '"');
    HasChar(line, 8 + |e|, ' ');
    ScanWord(line, 0, "", "", false, w);
    assert "" + w == w;
    EqualsStep(line, 5, w);
    OpenQuote(line, 6, w, "", true);
    ScanQuoted(line, 7, w, "", true, n);
    assert "" + e == e;
    PastName(line, 7 + |e|, w, e);
  }

  lemma NameShape3(n: string)
    ensures IndexText(n, '+') == "+name" + ("=" + ("\"" + (Escape(n) + "\" ")))
    ensures |IndexText(n, '+')| == 9 + |Escape(n)|
  {
    hide Escape;
    assert ['+'] + "name" == "+name" && "\"" + " " == "\" ";
    NamePlusSpace("+name", "=", "\"", Escape(n), " ");
  }

  lemma NamePlusSpace<T>(w: seq<T>, eq: seq<T>, q: seq<T>, e: seq<T>, sp: seq<T>)
    ensures (w + (eq + (q + e + q))) + sp == w + (eq + (q + (e + (q + sp))))
  {
  }

  lemma PastName(line: string, j: nat, key: string, token: string)
    requires 2 <= j && j + 1 < |line| && line[j] == '"' && line[j + 1] == ' '
    ensures var t := Scan(line, j, key, token, true, '"');
            t.key == key && (t.pos >= j + 2 || (t.pos == j + 1 && line[t.pos] == ' '))
  {
    KeyStays(line, j, key, token);
    if line[j - 1] == '\\' {
      var token' := token + [line[j]];
      assert Scan(line, j, key, token, true, '"') == Scan(line, j + 1, key, token', true, '"');
      assert Scan(line, j + 1, key, token', true, '"') == Scan(line, j + 2, key, token' + [line[j + 1]], true, '"');
    }
  }

  lemma SkipLeadingSpace(line: string, start: nat, acc: Parsed)
    requires start < |line| && line[start] == ' '
    ensures ParseFrom(line, start, acc) == ParseFrom(line, start + 1, acc)
  {
    hide Absorb;
    SpaceStep(line, start);
    var t := TokenAt(line, start);
    assert t == TokenAt(line, start + 1);
    if t.pos == start + 1 {
      NothingTaken(line, start + 1);
    }
  }

  lemma NothingTaken(line: string, i: nat)
    requires i <= |line|
    ensures TokenAt(line, i).pos == i ==> TokenAt(line, i).key == ""
  {
    ScanBounded(line, i, "", "", false, '\0');
  }

  /** What an entry's line can yield beyond its name field. */
  lemma EntryLineWeight(n: string, r: string)
    ensures Weight(ParseLine(IndexText(n, '+') + r).adds) <= Rest(r, 0)
  {
    hide TokenAt, IndexText, ParseFrom;
    var line, k := IndexText(n, '+') + r, |IndexText(n, '+')|;
    assert line[0..k] == IndexText(n, '+');
    NameFirst(line, n);
    var t := TokenAt(line, 0);
    var acc := Absorb(NOTHING, t.key, t.value);
    AfterName(line, t);
    WeightOfNothing();
    if t.pos < k {
      SkipLeadingSpace(line, t.pos, acc);
      LineWeight(line, k, acc);
    } else {
      LineWeight(line, t.pos, acc);
    }
    assert r != "" ==> line[|line| - 1] == r[|r| - 1];
  }

  lemma AfterName(line: string, t: Token)
    requires t == TokenAt(line, 0) && t.key == "+name" && t.pos > 0
    ensures var acc := Absorb(NOTHING, t.key, t.value);
            ParseLine(line) == ParseFrom(line, t.pos, acc) && acc.adds == map[]
  {
    hide TokenAt;
    assert "+name"[1..] == "name";
  }

  // ----- budgets of the compacted log -----

  predicate EndsInSpace(r: string) { r != "" && r[|r| - 1] == ' ' }

  /** The lines of raw text that ends in a space: together at most its length, each at least one. */
  lemma {:induction false} RestBudget(r: string, chosen: set<string>) returns (bs: seq<nat>)
    requires EndsInSpace(r)
    ensures Paid(ParsedLines(r + "\n"), bs, chosen) && Sum(bs) == |r|
    decreases |r|
  {
    hide ParseFrom, ParsedLines;
    WeightOfNothing();
    var k := LineEnd(r);
    if k == |r| {
      OneLine(r);
      LineWeight(r, 0, NOTHING);
      bs := [|r|];
      assert bs[..0] == [];
    } else {
      var a, r' := r[..k], r[k + 1..];
      assert r + "\n" == a + "\n" + (r' + "\n");
      SplitLine(a, r' + "\n");
      LineWeight(a, 0, NOTHING);
      var more := RestBudget(r', chosen);
      bs := [k + 1] + more;
      assert [k + 1][..0] == [];
      SumConcat([k + 1], more);
      assert Paid([ParseLine(a)], [k + 1], chosen);
      PaidConcat([ParseLine(a)], [k + 1], ParsedLines(r' + "\n"), more, chosen);
    }
  }

  lemma SplitLine(a: string, b: string)
    requires '\n' !in a
    ensures ParsedLines(a + "\n" + b) == [ParseLine(a)] + ParsedLines(b)
  {
    hide ParseLine, ParsedLines;
    OneLine(a);
    ParsedLinesConcat(a + "\n", b);
  }

  /** The lines of one entry. */
  lemma EntryBudget(n: string, r: string, chosen: set<string>) returns (bs: seq<nat>)
    requires r == "" ==> LoggedName(n) !in chosen
    requires r != "" ==> EndsInSpace(r)
    ensures Paid(ParsedLines(IndexText(n, '+') + r + "\n"), bs, chosen) && Sum(bs) == |r|
  {
    hide ParseLine, ParsedLines, IndexText, LoggedName, Rest;
    var head, k := IndexText(n, '+'), LineEnd(r);
    PrintedLinesHaveNoNewline(n, [], '+');
    WeightOfNothing();
    if k == |r| {
      OneLine(head + r);
      EntryLineWeight(n, r);
      AnyIndexLine(n, '+');
      assert head + "" == head;
      RestOfAll(r);
      bs := [|r|];
      assert bs[..0] == [];
    } else {
      var a, r' := r[..k], r[k + 1..];
      assert head + r + "\n" == head + a + "\n" + (r' + "\n");
      SplitLine(head + a, r' + "\n");
      EntryLineWeight(n, a);
      RestOfPart(a);
      assert r'[|r'| - 1] == r[|r| - 1];
      var more := RestBudget(r', chosen);
      bs := [k + 1] + more;
      assert [k + 1][..0] == [];
      SumConcat([k + 1], more);
      assert Paid([ParseLine(head + a)], [k + 1], chosen);
      PaidConcat([ParseLine(head + a)], [k + 1], ParsedLines(r' + "\n"), more, chosen);
    }
  }

  lemma RestOfAll(r: string)
    requires r != "" ==> EndsInSpace(r)
    ensures Rest(r, 0) == |r|
  {
  }

  lemma RestOfPart(r: string)
    ensures Rest(r, 0) <= |r| + 1
  {
  }

  lemma {:induction false} RawEndsInSpace(md: map<string, string>, keys: seq<string>)
    requires forall k :: k in keys ==> k in md
    ensures keys == [] ==> RawFields(md, keys) == ""
    ensures keys != [] ==> EndsInSpace(RawFields(md, keys))
  {
    if keys != [] {
      RawEndsInSpace(md, keys[1..]);
    }
  }

  /** A map whose keys are listed once each, without the first. */
  lemma WithoutFirst<V>(m: map<string, V>, keys: seq<string>)
    requires keys != [] && m.Keys == (set k | k in keys) && forall i, j :: 0 <= i < j < |keys| ==> keys[i] != keys[j]
    ensures keys[0] in m && (m - {keys[0]}).Keys == (set k | k in keys[1..])
    ensures forall k :: k in keys[1..] ==> k in m && k in m - {keys[0]} && m[k] == (m - {keys[0]})[k]
  {
    var k, more := keys[0], keys[1..];
    assert keys == [k] + more;
    forall x | x in more ensures x != k {
      var i :| 0 <= i < |more| && more[i] == x;
      assert keys[i + 1] == x;
    }
  }

  lemma NoKeys<V>(m: map<string, V>)
    requires m.Keys == {}
    ensures m == map[]
  {
  }

  /** The raw fields of an entry weigh what they take in print. */
  lemma {:induction false} RawWeight(md: map<string, string>, keys: seq<string>)
    requires md.Keys == (set k | k in keys) && forall i, j :: 0 <= i < j < |keys| ==> keys[i] != keys[j]
    ensures |RawFields(md, keys)| == Weight(md)
    decreases |keys|
  {
    hide Weight;
    if keys == [] {
      NoKeys(md);
      WeightOfNothing();
    } else {
      WithoutFirst(md, keys);
      WeightWithout(md, keys[0]);
      RawWeight(md - {keys[0]}, keys[1..]);
      RawSame(md, md - {keys[0]}, keys[1..]);
    }
  }

  lemma {:induction false} RawSame(md: map<string, string>, md': map<string, string>, keys: seq<string>)
    requires forall k :: k in keys ==> k in md && k in md' && md[k] == md'[k]
    ensures RawFields(md, keys) == RawFields(md', keys)
  {
    if keys != [] {
      RawSame(md, md', keys[1..]);
    }
  }

  ghost function Raw(md: map<string, string>): string {
    RawFields(md, InOrder(md.Keys))
  }

  lemma RawOf(md: map<string, string>)
    ensures |Raw(md)| == Weight(md)
    ensures Raw(md) == "" <==> md == map[]
    ensures Raw(md) != "" ==> EndsInSpace(Raw(md))
  {
    hide RawFields, EndsInSpace;
    var keys := InOrder(md.Keys);
    AscendingDistinct(keys);
    assert md.Keys == set k | k in keys;
    RawWeight(md, keys);
    RawEndsInSpace(md, keys);
    NoSpaceInNothing();
    assert keys == [] <==> md.Keys == {};
    assert md.Keys == {} <==> md == map[];
  }

  lemma NoSpaceInNothing()
    ensures !EndsInSpace("")
  {
  }

  /** The budgets of the compacted log add up to the weight of the metadata. */
  lemma {:induction false} CompactBudget(contents: map<string, map<string, string>>, names: seq<string>, chosen: set<string>)
    returns (bs: seq<nat>)
    requires contents.Keys == (set n | n in names) && forall i, j :: 0 <= i < j < |names| ==> names[i] != names[j]
    requires forall n :: n in contents && contents[n] == map[] ==> LoggedName(n) !in chosen
    ensures Paid(ParsedLines(CompactLines(contents, names)), bs, chosen) && Sum(bs) == Total(contents)
    decreases |names|
  {
    hide ParsedLines, Raw, LoggedName, EndsInSpace, IndexText, CompactLine, Paid, Weight, Total;
    if names == [] {
      NoKeys(contents);
      NoBudget(chosen);
      bs := [];
    } else {
      var n, more := names[0], names[1..];
      WithoutFirst(contents, names);
      var md, others := contents[n], contents - {n};
      RawOf(md);
      var first := EntryBudget(n, Raw(md), chosen);
      var rest := CompactBudget(others, more, chosen);
      bs := first + rest;
      SumConcat(first, rest);
      TotalWithout(contents, n);
      CompactSame(contents, others, more);
      EntryText(n, md);
      ParsedLinesConcat(IndexText(n, '+') + Raw(md) + "\n", CompactLines(others, more));
      PaidConcat(ParsedLines(IndexText(n, '+') + Raw(md) + "\n"), first, ParsedLines(CompactLines(others, more)), rest, chosen);
    }
  }

  lemma NoBudget(chosen: set<string>)
    ensures Paid(ParsedLines(""), [], chosen) && Total(map[]) == 0
  {
    NoLines();
  }

  lemma EntryText(n: string, md: map<string, string>)
    ensures CompactLine(n, md) == IndexText(n, '+') + Raw(md)
    ensures Terminated(IndexText(n, '+') + Raw(md) + "\n")
  {
    hide RawFields, NameField;
  }

  lemma {:induction false} CompactSame(c: map<string, map<string, string>>, c': map<string, map<string, string>>, names: seq<string>)
    requires forall n :: n in names ==> n in c && n in c' && c[n] == c'[n]
    ensures CompactLines(c, names) == CompactLines(c', names)
  {
    hide CompactLine;
    if names != [] {
      CompactSame(c, c', names[1..]);
    }
  }

  // ----- the result -----

  /** No replay of the compacted log gives the contents back while it holds a chosen entry. */
  lemma NotGivenBack(contents: map<string, map<string, string>>, chosen: set<string>, n: string)
    requires n in chosen && n in contents && forall x :: x in chosen ==> Whole(x)
    requires forall x :: x in contents && contents[x] == map[] ==> LoggedName(x) !in chosen
    ensures Replay(EMPTY, CompactText(contents)).contents != contents
  {
    hide ParsedLines, CompactLines, ReplayAll, LoggedName, InOrder;
    var names := InOrder(contents.Keys);
    AscendingDistinct(names);
    assert contents.Keys == set x | x in names;
    var bs := CompactBudget(contents, names, chosen);
    Outweighed(ParsedLines(CompactText(contents)), bs, chosen);
  }

  /**
   The compacted log replays to the cached contents, which have no zero
   character in a name, exactly when no entry has metadata and no name has a
   backslash.
   */
  lemma CompactionGivesBack(contents: map<string, map<string, string>>)
    requires forall n :: n in contents ==> Whole(n)
    ensures Replay(EMPTY, CompactText(contents)).contents == contents <==> NoMetadata(contents) && CleanNames(contents)
  {
    hide Replay, CompactText, LoggedName;
    if !CleanNames(contents) {
      var n :| n in contents && !Clean(n);
      var chosen := set x | x in contents && !Clean(x);
      forall x | x in contents ensures LoggedName(x) !in chosen {
        AnyIndexLine(x, '+');
      }
      NotGivenBack(contents, chosen, n);
    } else if !NoMetadata(contents) {
      var n :| n in contents && contents[n] != map[];
      var chosen := set x | x in contents && contents[x] != map[];
      forall x | x in contents && contents[x] == map[] ensures LoggedName(x) !in chosen {
        CleanLoggedName(x);
      }
      NotGivenBack(contents, chosen, n);
    } else {
      CompactionPreservesNames(contents);
    }
  }

  lemma CleanLoggedName(n: string)
    requires Clean(n)
    ensures LoggedName(n) == n
  {
    CleanClosesWell(n);
    EscapeRoundTrip(n);
  }
}
