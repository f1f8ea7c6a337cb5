/**
 Which names, keys and values come back from a metadata line: exactly those
 without a backslash.
 */
module MetadataLines {
  import opened LogText
  import opened LogLines

  // ----- what a line can yield -----

  /** The texts that parsing a line gives: the name, and the keys and values it sets. */
  ghost predicate Yields(p: Parsed, x: string) {
    x == p.name || exists k :: k in p.adds && (x == k || x == p.adds[k])
  }

  ghost predicate AllClean(p: Parsed) {
    Clean(p.name) && forall k :: k in p.adds ==> Clean(k) && Clean(p.adds[k])
  }

  ghost predicate AllUnescaped(p: Parsed) {
    Unescaped(p.name) && forall k :: k in p.adds ==> Unescaped(k) && Unescaped(p.adds[k])
  }

  lemma {:induction false} ParsedUnescaped(line: string, start: nat, acc: Parsed)
    requires start <= |line| + 1 && AllUnescaped(acc)
    ensures AllUnescaped(ParseFrom(line, start, acc))
    decreases |line| + 1 - start
  {
    hide TokenAt, Unescape;
    var t := TokenAt(line, start);
    if t.pos != start {
      if t.key == "" {
        ParsedUnescaped(line, t.pos, acc);
      } else {
        AbsorbUnescaped(acc, t.key, t.value);
        var acc' := Absorb(acc, t.key, t.value);
        if !acc'.delete {
          ParsedUnescaped(line, t.pos, acc');
        }
      }
    }
  }

  lemma AbsorbUnescaped(acc: Parsed, key: string, value: string)
    requires AllUnescaped(acc) && key != ""
    ensures AllUnescaped(Absorb(acc, key, value))
  {
    hide Unescape;
  }

  /** A text with a backslash before its last character is not one of them. */
  lemma NotYielded(line: string, x: string)
    requires !BackslashOnlyLast(x)
    ensures !Yields(ParseLine(line), x)
  {
    hide ParseFrom;
    assert Unescape("") == "";
    ParsedUnescaped(line, 0, NOTHING);
    if Unescaped(x) {
      var t :| x == Unescape(t);
      var i :| 0 <= i < |x| - 1 && x[i] == '\\';
      UnescapedBackslash(t, i);
    }
  }

  // ----- lines in which no token ends in a backslash -----

  /** No backslash comes right before a space or an equals sign. */
  predicate Tame(s: string) {
    forall i :: 0 <= i < |s| - 1 && s[i] == '\\' ==> s[i + 1] != ' ' && s[i + 1] != '='
  }

  /** A token ends in a backslash only just after it was read. */
  ghost predicate Trails(line: string, i: nat, token: string) {
    !ClosesWell(token) ==> 0 < i <= |line| && line[i - 1] == '\\'
  }

  lemma {:induction false} ScanCloses(line: string, i: nat, key: string, token: string, gotKey: bool, quote: char)
    requires Tame(line) && ClosesWell(line) && i <= |line| + 1 && ClosesWell(key) && Trails(line, i, token)
    ensures var t := Scan(line, i, key, token, gotKey, quote); ClosesWell(t.key) && ClosesWell(t.value)
    decreases |line| + 1 - i, 1
  {
    if i < |line| {
      if IsQuote(line, i) && quote == '\0' {
        ScanCloses(line, i + 1, key, token, gotKey, line[i]);
      } else if IsQuote(line, i) && quote == line[i] {
        if !gotKey {
          BareCloses(line, i + 1, key, token, gotKey);
        }
      } else if quote == '\0' {
        BareCloses(line, i, key, token, gotKey);
      } else {
        ScanCloses(line, i + 1, key, token + [line[i]], gotKey, quote);
      }
    }
  }

  lemma {:induction false} BareCloses(line: string, i: nat, key: string, token: string, gotKey: bool)
    requires Tame(line) && ClosesWell(line) && i <= |line| && ClosesWell(key) && Trails(line, i, token)
    ensures var t := ScanBare(line, i, key, token, gotKey); ClosesWell(t.key) && ClosesWell(t.value)
    decreases |line| + 1 - i, 0
  {
    var c := At(line, i);
    if c == '=' {
      ScanCloses(line, i + 1, token, "", true, '\0');
    } else if c == ' ' {
      if !(token != "" && gotKey) {
        ScanCloses(line, i + 1, key, token, gotKey, '\0');
      }
    } else {
      ScanCloses(line, i + 1, key, token + [c], gotKey, '\0');
    }
  }

  lemma AbsorbClean(acc: Parsed, key: string, value: string)
    requires AllClean(acc) && key != "" && ClosesWell(key) && ClosesWell(value)
    ensures AllClean(Absorb(acc, key, value))
  {
    NoBackslashLeft(value);
    if |key| >= 4 {
      assert key[4..] != "" ==> key[4..][|key| - 5] == key[|key| - 1];
      NoBackslashLeft(key[4..]);
    }
    hide Unescape, Clean;
  }

  lemma {:induction false} ParsedClean(line: string, start: nat, acc: Parsed)
    requires Tame(line) && ClosesWell(line) && start <= |line| + 1 && AllClean(acc)
    ensures AllClean(ParseFrom(line, start, acc))
    decreases |line| + 1 - start
  {
    hide Scan, Absorb, Tame, Clean;
    var t := TokenAt(line, start);
    ScanCloses(line, start, "", "", false, '\0');
    if t.pos != start {
      if t.key == "" {
        ParsedClean(line, t.pos, acc);
      } else {
        AbsorbClean(acc, t.key, t.value);
        var acc' := Absorb(acc, t.key, t.value);
        if !acc'.delete {
          ParsedClean(line, t.pos, acc');
        }
      }
    }
  }

  // ----- printed lines are such lines -----

  lemma TameConcat(a: string, b: string)
    requires Tame(a) && Tame(b) && (ClosesWell(a) || b == "" || (b[0] != ' ' && b[0] != '='))
    ensures Tame(a + b) && (ClosesWell(b) && ClosesWell(a) ==> ClosesWell(a + b))
    ensures ClosesWell(b) && b != "" ==> ClosesWell(a + b)
  {
    forall i | 0 <= i < |a + b| - 1 && (a + b)[i] == '\\' ensures (a + b)[i + 1] != ' ' && (a + b)[i + 1] != '=' {
      if i >= |a| {
        assert b[i - |a|] == '\\' && b[i - |a| + 1] == (a + b)[i + 1];
      }
    }
  }

  lemma {:induction false} EscapeTame(s: string)
    requires Tame(s)
    ensures Tame(Escape(s))
    ensures s != "" ==> Escape(s) != "" && Escape(s)[0] == EscapeChar(s[0])[0]
  {
    if s != "" {
      var rest := s[1..];
      forall i | 0 <= i < |rest| - 1 && rest[i] == '\\' ensures rest[i + 1] != ' ' && rest[i + 1] != '=' {
        assert s[i + 1] == '\\' && s[i + 2] == rest[i + 1];
      }
      EscapeTame(rest);
      TameConcat(EscapeChar(s[0]), Escape(rest));
    }
  }

  lemma QuotedTame(s: string)
    requires Tame(s)
    ensures Tame(Quoted(s)) && ClosesWell(Quoted(s)) && Quoted(s) != ""
  {
    hide Escape;
    EscapeTame(s);
    TameConcat("\"", Escape(s));
    TameConcat("\"" + Escape(s), "\"");
  }

  lemma NameFieldTame(name: string)
    requires Tame(name)
    ensures Tame(NameField('+', name)) && ClosesWell(NameField('+', name))
  {
    hide Quoted;
    QuotedTame(name);
    TameConcat("=", Quoted(name));
    TameConcat(['+'] + "name", "=" + Quoted(name));
  }

  lemma AddFieldTame(k: string, v: string)
    requires Tame(k) && Tame(v)
    ensures Tame(AddField(k, v)) && ClosesWell(AddField(k, v)) && AddField(k, v) != ""
  {
    hide Quoted;
    QuotedTame(k);
    QuotedTame(v);
    TameConcat("=", Quoted(v));
    TameConcat(Quoted(k), "=" + Quoted(v));
    TameConcat("+md.", Quoted(k) + ("=" + Quoted(v)));
  }

  ghost predicate TameFields(md: seq<(string, string)>) {
    forall i :: 0 <= i < |md| ==> Tame(md[i].0) && Tame(md[i].1)
  }

  lemma {:induction false} AddFieldsTame(md: seq<(string, string)>)
    requires TameFields(md)
    ensures Tame(AddFields(md)) && ClosesWell(AddFields(md)) && AddFields(md) != ""
  {
    hide AddField, Tame;
    SpaceTame();
    if md != [] {
      AddFieldsTame(md[1..]);
      AddFieldTame(md[0].0, md[0].1);
      TameConcat(" ", AddField(md[0].0, md[0].1));
      TameConcat(" " + AddField(md[0].0, md[0].1), AddFields(md[1..]));
    }
  }

  lemma SpaceTame()
    ensures Tame(" ") && ClosesWell(" ")
  {
  }

  lemma LineTame(name: string, md: seq<(string, string)>)
    requires Tame(name) && TameFields(md)
    ensures Tame(MetadataText(name, md, '+')) && ClosesWell(MetadataText(name, md, '+'))
  {
    hide Tame, NameField, AddFields;
    NameFieldTame(name);
    AddFieldsTame(md);
    TameConcat(NameField('+', name), AddFields(md));
  }

  // ----- the result -----

  predicate DistinctKeys(md: seq<(string, string)>) {
    forall i, j :: 0 <= i < j < |md| ==> md[i].0 != md[j].0
  }

  lemma {:induction false} AddedEach(m: map<string, string>, md: seq<(string, string)>, k: string)
    requires DistinctKeys(md)
    ensures (forall i :: 0 <= i < |md| ==> md[i].0 != k) ==>
              (k in AddAll(m, md) <==> k in m) && (k in m ==> AddAll(m, md)[k] == m[k])
    ensures forall i :: 0 <= i < |md| && md[i].0 == k ==> k in AddAll(m, md) && AddAll(m, md)[k] == md[i].1
    decreases |md|
  {
    if md != [] {
      AddedEach(m[md[0].0 := md[0].1], md[1..], k);
      assert forall i :: 1 <= i < |md| ==> md[i] == md[1..][i - 1];
    }
  }

  /** The line as it was meant: the entry name and every key with its value. */
  ghost predicate ComesBack(name: string, md: seq<(string, string)>) {
    ParseLine(MetadataText(name, md, '+')) == Parsed(name, false, AddAll(map[], md), {})
  }

  lemma YieldsEach(name: string, md: seq<(string, string)>, i: nat)
    requires DistinctKeys(md) && ComesBack(name, md) && i < |md|
    ensures var p := ParseLine(MetadataText(name, md, '+'));
            p.name == name && md[i].0 in p.adds && p.adds[md[i].0] == md[i].1 &&
            Yields(p, name) && Yields(p, md[i].0) && Yields(p, md[i].1)
  {
    hide ParseLine, MetadataText;
    AddedEach(map[], md, md[i].0);
  }

  lemma NotTame(x: string)
    requires !Tame(x)
    ensures !BackslashOnlyLast(x)
  {
  }

  lemma OnlyTameComesBack(name: string, md: seq<(string, string)>)
    requires DistinctKeys(md) && ComesBack(name, md)
    ensures Tame(name) && TameFields(md)
  {
    hide ParseLine, MetadataText, Tame, BackslashOnlyLast, AddAll, Yields;
    var line := MetadataText(name, md, '+');
    NameYielded(name, md);
    if !Tame(name) {
      NotTame(name);
      NotYielded(line, name);
    }
    forall i | 0 <= i < |md| ensures Tame(md[i].0) && Tame(md[i].1) {
      YieldsEach(name, md, i);
      if !Tame(md[i].0) {
        NotTame(md[i].0);
        NotYielded(line, md[i].0);
      }
      if !Tame(md[i].1) {
        NotTame(md[i].1);
        NotYielded(line, md[i].1);
      }
    }
  }

  lemma NameYielded(name: string, md: seq<(string, string)>)
    requires ComesBack(name, md)
    ensures Yields(ParseLine(MetadataText(name, md, '+')), name)
  {
    hide ParseLine, MetadataText;
  }

  /**
   A metadata line, with its keys distinct as in the map it is printed from,
   gives back its name, keys and values exactly when none has a backslash.
   */
  lemma MetadataLineRoundTrip(name: string, md: seq<(string, string)>)
    requires DistinctKeys(md)
    ensures ComesBack(name, md) <==> Clean(name) && CleanFields(md)
  {
    hide ParseLine, MetadataText, Clean, Tame, AddAll;
    if Clean(name) && CleanFields(md) {
      MetadataLineParses(name, md);
    }
    if ComesBack(name, md) {
      OnlyTameComesBack(name, md);
      TameIsClean(name, md);
    }
  }

  lemma TameIsClean(name: string, md: seq<(string, string)>)
    requires DistinctKeys(md) && ComesBack(name, md) && Tame(name) && TameFields(md)
    ensures Clean(name) && CleanFields(md)
  {
    hide ParseFrom, MetadataText, Clean, Tame, AddAll, Yields;
    var line := MetadataText(name, md, '+');
    LineTame(name, md);
    NothingIsClean();
    ParsedClean(line, 0, NOTHING);
    forall i | 0 <= i < |md| ensures Clean(md[i].0) && Clean(md[i].1) {
      YieldsEach(name, md, i);
    }
  }

  lemma NothingIsClean()
    ensures AllClean(NOTHING)
  {
  }

  // ----- what comes back instead -----

  /** A line with one field whose texts close well gives them escaped and unescaped. */
  lemma OneFieldGives(name: string, k: string, v: string)
    requires ClosesWell(name) && ClosesWell(k) && ClosesWell(v)
    ensures ParseLine(MetadataText(name, [(k, v)], '+')) ==
            Parsed(Unescape(Escape(name)), false, map[Unescape(Escape(k)) := Unescape(Escape(v))], {})
  {
    hide Scan, TokenAt, NameField, AddField, Escape, Unescape, Absorb;
    var line, n := MetadataText(name, [(k, v)], '+'), |NameField('+', name)|;
    var field := " " + AddField(k, v);
    assert [(k, v)][1..] == [];
    assert AddFields([(k, v)]) == field + " ";
    HasAll(line);
    HasSplit(line, 0, NameField('+', name), field + " ");
    HasSplit(line, n, field, " ");
    NameToken(line, '+', name);
    NameAbsorbed(NOTHING, '+', name);
    AddToken(line, n, k, v);
    var named := NOTHING.(name := Unescape(Escape(name)));
    KeyAbsorbed(named, k, v);
    assert ParseLine(line) == ParseFrom(line, n, named);
    TrailingSpace(line, n + |field|, named.(adds := map[Unescape(Escape(k)) := Unescape(Escape(v))]));
  }

  lemma KeyAbsorbed(acc: Parsed, k: string, v: string)
    ensures Absorb(acc, "+md." + Escape(k), Escape(v)) ==
            acc.(adds := acc.adds[Unescape(Escape(k)) := Unescape(Escape(v))])
  {
    hide Escape, Unescape;
    var key := "+md." + Escape(k);
    assert key[4..] == Escape(k) && key[1..4] == "md.";
    assert key[1] != "name"[0];
  }

  /** A key or a value with a backslash inside comes back without it and the character after it. */
  lemma BackslashInFields()
    ensures ParseLine(MetadataText("e", [("a\\bc", "v")], '+')).adds == map["ac" := "v"]
    ensures ParseLine(MetadataText("e", [("k", "a\\bc")], '+')).adds == map["k" := "ac"]
  {
    hide ParseLine, MetadataText;
    OneFieldGives("e", "a\\bc", "v");
    OneFieldGives("e", "k", "a\\bc");
    EscapeRoundTrip("v");
    EscapeRoundTrip("k");
    SkippedCharacter();
  }

  lemma SkippedCharacter()
    ensures Unescape(Escape("a\\bc")) == "ac"
  {
    var s := "a\\bc";
    assert s[1..] == "\\bc" && "\\bc"[1..] == "bc" && "bc"[1..] == "c" && "c"[1..] == "";
    assert Escape("c") == "c";
    assert Escape("bc") == "bc";
    assert Escape("\\bc") == "\\bc";
    assert Escape(s) == s;
    assert "\\bc"[2..] == "c";
    assert Unescape("c") == "c";
    assert Unescape("\\bc") == "c";
  }
}
