/**
 The lines of the directory log: printed by getObjectIndexLine and
 indexObjectMetadata, parsed back by the inner loop of parseContents.
 */
module LogLines {
  import opened LogText

  // ----- printing -----

  function Quoted(s: string): (q: string)
    ensures |q| == |Escape(s)| + 2
  {
    "\"" + Escape(s) + "\""
  }

  /** The name field every line begins with. */
  function NameField(op: char, name: string): string {
    ([op] + "name") + ("=" + Quoted(name))
  }

  function AddField(k: string, v: string): string {
    "+md." + (Quoted(k) + ("=" + Quoted(v)))
  }

  function RemoveField(k: string): string {
    "-md." + Quoted(k)
  }

  function IndexText(name: string, op: char): string {
    NameField(op, name) + " "
  }

  /** getObjectIndexLine. */
  function IndexLine(name: string, op: char): string {
    IndexText(name, op) + "\n"
  }

  function AddFields(md: seq<(string, string)>): string {
    if md == [] then " " else " " + AddField(md[0].0, md[0].1) + AddFields(md[1..])
  }

  function RemoveFields(md: seq<(string, string)>): string {
    if md == [] then " " else " " + RemoveField(md[0].0) + RemoveFields(md[1..])
  }

  /** The line of indexObjectMetadata, without its newline. */
  function MetadataText(name: string, md: seq<(string, string)>, op: char): string {
    NameField('+', name) + if op == '+' then AddFields(md) else RemoveFields(md)
  }

  /** One metadata field as indexObjectMetadata prints it. */
  method PrintField(key: string, value: string, op: char) returns (field: string)
    requires op == '+' || op == '-'
    ensures field == Field((key, value), op)
  {
    hide Escape;
    var escaped := EscapeObjName(key);
    field := [op] + "md.\"" + escaped + "\"";
    KeyShape([op], "md.", "\"", escaped);
    assert "md." + "\"" == "md.\"" && ['+'] + "md." == "+md." && ['-'] + "md." == "-md.";
    if op == '+' {
      escaped := EscapeObjName(value);
      ValueShape(field, "=", "\"", escaped);
      assert "=" + "\"" == "=\"";
      Assoc("+md.", Quoted(key), "=" + Quoted(value));
      field := field + "=\"" + escaped + "\"";
    }
  }

  lemma KeyShape<T>(op: seq<T>, md: seq<T>, q: seq<T>, e: seq<T>)
    ensures op + (md + q) + e + q == (op + md) + (q + e + q)
  {
  }

  lemma ValueShape<T>(f: seq<T>, eq: seq<T>, q: seq<T>, e: seq<T>)
    ensures f + (eq + q) + e + q == f + (eq + (q + e + q))
  {
  }

  /** indexObjectMetadata up to the append; md is the metadata in iteration order. */
  method IndexObjectMetadata(name: string, md: seq<(string, string)>, op: char) returns (contents: string)
    requires op == '+' || op == '-'
    ensures contents == MetadataText(name, md, op) + "\n"
  {
    hide MoreFields, MetadataText, Field;
    var escaped := EscapeObjName(name);
    contents := "+" + "name=\"" + escaped + "\" ";
    FirstFields(name, md, op);
    NameFieldText(name);
    for i := 0 to |md|
      invariant contents + MoreFields(md[i..], op) == MetadataText(name, md, op)
    {
      var field := PrintField(md[i].0, md[i].1, op);
      NextField(contents, md, i, op);
      contents := contents + field + " ";
    }
    assert md[|md|..] == [];
    NoMoreFields(op);
    assert contents + [] == contents;
    contents := contents + "\n";
  }

  /** The name field and the space after it, as the code puts them together. */
  lemma NameFieldText(name: string)
    ensures "+" + "name=\"" + Escape(name) + "\" " == NameField('+', name) + " "
  {
    hide Escape;
    NameShape("+", "name", "=", "\"", Escape(name), " ");
    assert "name=\"" == "name" + "=" + "\"" && "\" " == "\"" + " ";
  }

  lemma NameShape<T>(op: seq<T>, name: seq<T>, eq: seq<T>, q: seq<T>, e: seq<T>, sp: seq<T>)
    ensures op + (name + eq + q) + e + (q + sp) == ((op + name) + (eq + (q + e + q))) + sp
  {
  }

  lemma NoMoreFields(op: char)
    ensures MoreFields([], op) == []
  {
  }

  lemma FirstFields(name: string, md: seq<(string, string)>, op: char)
    requires op == '+' || op == '-'
    ensures NameField('+', name) + " " + MoreFields(md, op) == MetadataText(name, md, op)
  {
    FieldsAfterSpace(md, op);
    var n, more := NameField('+', name), MoreFields(md, op);
    assert n + " " + more == n + (" " + more);
  }

  lemma NextField(contents: string, md: seq<(string, string)>, i: nat, op: char)
    requires i < |md|
    ensures contents + MoreFields(md[i..], op) ==
            contents + Field((md[i].0, md[i].1), op) + " " + MoreFields(md[i + 1..], op)
  {
    assert md[i..][1..] == md[i + 1..];
    var field, more := Field(md[i], op), MoreFields(md[i + 1..], op);
    assert contents + (field + " " + more) == contents + field + " " + more;
  }

  function Field(entry: (string, string), op: char): string {
    if op == '+' then AddField(entry.0, entry.1) else RemoveField(entry.0)
  }

  /** The fields still to print, each with the space that follows it. */
  function MoreFields(md: seq<(string, string)>, op: char): string {
    if md == [] then "" else Field(md[0], op) + " " + MoreFields(md[1..], op)
  }

  lemma {:induction false} FieldsAfterSpace(md: seq<(string, string)>, op: char)
    requires op == '+' || op == '-'
    ensures " " + MoreFields(md, op) == if op == '+' then AddFields(md) else RemoveFields(md)
  {
    hide AddField, RemoveField;
    if md != [] {
      FieldsAfterSpace(md[1..], op);
      Regroup2(" ", Field(md[0], op), MoreFields(md[1..], op));
    }
  }

  lemma Regroup2<T>(a: seq<T>, b: seq<T>, c: seq<T>)
    ensures a + (b + a + c) == a + b + (a + c)
  {
  }

  lemma Regroup3<T>(a: seq<T>, b: seq<T>, c: seq<T>, d: seq<T>)
    ensures a + b + c + d == a + (b + c + d)
  {
  }

  // ----- parsing -----

  datatype Parsed = Parsed(name: string, delete: bool, adds: map<string, string>, dels: set<string>)

  const NOTHING: Parsed := Parsed("", false, map[], {})

  /** What one token of a line adds to what has been read so far. */
  function Absorb(acc: Parsed, key: string, value: string): Parsed
    requires key != ""
  {
    if key[1..] == "name" then acc.(name := Unescape(value), delete := key[0] == '-')
    else if |key| >= 4 && key[1..4] == "md." then
      var k := Unescape(key[4..]);
      if key[0] == '-' then acc.(dels := acc.dels + {k}) else acc.(adds := acc.adds[k := Unescape(value)])
    else acc
  }

  /** The token loop of parseContents: a removing name field ends the line. */
  function ParseFrom(line: string, start: nat, acc: Parsed): Parsed
    requires start <= |line| + 1
    decreases |line| + 1 - start
  {
    var t := TokenAt(line, start);
    if t.pos == start then acc
    else if t.key == "" then ParseFrom(line, t.pos, acc)
    else
      var acc' := Absorb(acc, t.key, t.value);
      if acc'.delete then acc' else ParseFrom(line, t.pos, acc')
  }

  function ParseLine(line: string): Parsed {
    ParseFrom(line, 0, NOTHING)
  }

  /** The token loop of parseContents. */
  method ParseTokens(line: string) returns (p: Parsed)
    ensures p == ParseLine(line)
  {
    p := NOTHING;
    var startPos := 0;
    while true
      invariant startPos <= |line| + 1
      invariant !p.delete && ParseFrom(line, startPos, p) == ParseLine(line)
      decreases |line| + 1 - startPos
    {
      var t := SplitToken(line, startPos);
      if t.pos == startPos {
        return;
      }
      if t.key != "" {
        var value := UnescapeObjName(t.value);
        if t.key[1..] == "name" {
          p := p.(name := value);
          if t.key[0] == '-' {
            p := p.(delete := true);
            return;
          }
        } else if |t.key| >= 4 && t.key[1..4] == "md." {
          var metadataKey := UnescapeObjName(t.key[4..]);
          if t.key[0] == '-' {
            p := p.(dels := p.dels + {metadataKey});
          } else {
            p := p.(adds := p.adds[metadataKey := value]);
          }
        }
      }
      startPos := t.pos;
    }
  }

  // ----- scanning known text -----

  predicate Has(line: string, i: nat, w: string) {
    i + |w| <= |line| && line[i..i + |w|] == w
  }

  lemma HasSplit(line: string, i: nat, u: string, v: string)
    requires Has(line, i, u + v)
    ensures Has(line, i, u) && Has(line, i + |u|, v)
  {
    assert line[i..i + |u|] == (u + v)[..|u|];
    assert line[i + |u|..i + |u| + |v|] == (u + v)[|u|..];
  }

  lemma HasChar(line: string, i: nat, c: char)
    requires Has(line, i, [c])
    ensures i < |line| && line[i] == c
  {
    assert line[i..i + 1][0] == c;
  }

  predicate Bare(w: string) {
    forall i :: 0 <= i < |w| ==> w[i] != '"' && w[i] != '\'' && w[i] != '=' && w[i] != ' '
  }

  /** A run of ordinary characters outside quotes joins the token. */
  lemma {:induction false} ScanWord(line: string, i: nat, key: string, token: string, gotKey: bool, w: string)
    requires Has(line, i, w) && Bare(w)
    ensures Scan(line, i, key, token, gotKey, '\0') == Scan(line, i + |w|, key, token + w, gotKey, '\0')
    decreases |w|
  {
    if w == [] {
      assert token + w == token;
    } else {
      assert w == [w[0]] + w[1..];
      HasSplit(line, i, [w[0]], w[1..]);
      HasChar(line, i, w[0]);
      ScanWord(line, i + 1, key, token + [w[0]], gotKey, w[1..]);
      assert token + [w[0]] + w[1..] == token + w;
    }
  }

  predicate Clean(s: string) { '\\' !in s }

  /** Text after which a quote closes: it does not end in a backslash. */
  predicate ClosesWell(s: string) { s == "" || s[|s| - 1] != '\\' }

  lemma CleanClosesWell(s: string)
    requires Clean(s)
    ensures ClosesWell(s)
  {
  }

  /** An escaped character inside double quotes joins the token; a quote has its own backslash before it. */
  lemma ScanEscapedChar(line: string, i: nat, key: string, token: string, gotKey: bool, c: char)
    requires Has(line, i, EscapeChar(c)) && i >= 2
    ensures Scan(line, i, key, token, gotKey, '"') ==
            Scan(line, i + |EscapeChar(c)|, key, token + EscapeChar(c), gotKey, '"')
    ensures line[i + |EscapeChar(c)| - 1] == '\\' <==> c == '\\'
  {
    var e := EscapeChar(c);
    if |e| == 1 {
      HasChar(line, i, e[0]);
    } else {
      assert e == [e[0]] + [e[1]];
      HasSplit(line, i, [e[0]], [e[1]]);
      HasChar(line, i, e[0]);
      HasChar(line, i + 1, e[1]);
      assert Scan(line, i, key, token, gotKey, '"') == Scan(line, i + 1, key, token + [e[0]], gotKey, '"');
      assert token + [e[0]] + [e[1]] == token + e;
    }
  }

  /** Escaped text inside quotes is taken over whole, up to the closing quote. */
  lemma {:induction false} ScanQuoted(line: string, i: nat, key: string, token: string, gotKey: bool, s: string)
    requires Has(line, i, Escape(s)) && i >= 2
    ensures Scan(line, i, key, token, gotKey, '"') ==
            Scan(line, i + |Escape(s)|, key, token + Escape(s), gotKey, '"')
    ensures s != "" ==> (line[i + |Escape(s)| - 1] == '\\' <==> s[|s| - 1] == '\\')
    decreases |s|
  {
    hide Scan, EscapeChar, Has;
    InLine(line, i, Escape(s));
    if s == [] {
      assert token + [] == token;
    } else {
      var e, rest := EscapeChar(s[0]), Escape(s[1..]);
      HasSplit(line, i, e, rest);
      InLine(line, i, e);
      ScanEscapedChar(line, i, key, token, gotKey, s[0]);
      ScanQuoted(line, i + |e|, key, token + e, gotKey, s[1..]);
      Assoc(token, e, rest);
      assert s[1..] != "" ==> s[1..][|s[1..]| - 1] == s[|s| - 1];
    }
  }

  lemma OpenQuote(line: string, i: nat, key: string, token: string, gotKey: bool)
    requires 2 <= i < |line| && line[i] == '"' && line[i - 1] != '\\'
    ensures Scan(line, i, key, token, gotKey, '\0') == Scan(line, i + 1, key, token, gotKey, '"')
  {
  }

  lemma CloseQuote(line: string, i: nat, key: string, token: string, gotKey: bool)
    requires 2 <= i < |line| && line[i] == '"' && line[i - 1] != '\\'
    ensures Scan(line, i, key, token, gotKey, '"') ==
            if gotKey then Finish(i + 1, key, token, gotKey) else ScanBare(line, i + 1, key, token, gotKey)
  {
  }

  /** From an opening quote to just before the closing one. */
  lemma ScanToClose(line: string, i: nat, key: string, token: string, gotKey: bool, s: string)
    requires Has(line, i, Quoted(s)) && ClosesWell(s) && i >= 2 && line[i - 1] != '\\'
    ensures var j := i + 1 + |Escape(s)|;
            j < |line| && line[j] == '"' && line[j - 1] != '\\' &&
            Scan(line, i, key, token, gotKey, '\0') == Scan(line, j, key, token + Escape(s), gotKey, '"')
  {
    hide Scan, Has, Escape;
    var e := Escape(s);
    EscapeNothing();
    HasSplit(line, i, "\"" + e, "\"");
    HasSplit(line, i, "\"", e);
    HasChar(line, i, '"');
    HasChar(line, i + 1 + |e|, '"');
    OpenQuote(line, i, key, token, gotKey);
    InLine(line, i + 1, e);
    ScanQuoted(line, i + 1, key, token, gotKey, s);
  }

  lemma EscapeNothing()
    ensures Escape("") == ""
  {
  }

  lemma InLine(line: string, i: nat, w: string)
    requires Has(line, i, w)
    ensures i + |w| <= |line|
  {
  }

  /** An opening quote, escaped text and a closing quote. */
  lemma ScanQuotedValue(line: string, i: nat, key: string, s: string)
    requires Has(line, i, Quoted(s)) && ClosesWell(s) && i >= 2 && line[i - 1] != '\\'
    ensures Scan(line, i, key, "", true, '\0') == Token(i + |Escape(s)| + 2, key, Escape(s))
  {
    hide Scan, Has, Escape;
    ScanToClose(line, i, key, "", true, s);
    assert "" + Escape(s) == Escape(s);
    CloseQuote(line, i + 1 + |Escape(s)|, key, Escape(s), true);
  }

  lemma SpaceStep(line: string, pos: nat)
    requires pos < |line| && line[pos] == ' '
    ensures TokenAt(line, pos) == Scan(line, pos + 1, "", "", false, '\0')
  {
    assert At(line, pos) == ' ';
    assert Scan(line, pos, "", "", false, '\0') == ScanBare(line, pos, "", "", false);
  }

  lemma EqualsStep(line: string, i: nat, token: string)
    requires i < |line| && line[i] == '='
    ensures ScanBare(line, i, "", token, false) == Scan(line, i + 1, token, "", true, '\0')
    ensures Scan(line, i, "", token, false, '\0') == Scan(line, i + 1, token, "", true, '\0')
  {
  }

  lemma NameToken(line: string, op: char, name: string)
    requires Has(line, 0, NameField(op, name)) && ClosesWell(name) && (op == '+' || op == '-')
    ensures |NameField(op, name)| >= 8
    ensures TokenAt(line, 0) == Token(|NameField(op, name)|, [op] + "name", Escape(name))
  {
    hide Scan, ScanBare, Quoted, Escape, Has;
    var w, q := [op] + "name", Quoted(name);
    HasSplit(line, 0, w, "=" + q);
    HasSplit(line, 5, "=", q);
    HasChar(line, 5, '=');
    ScanWord(line, 0, "", "", false, w);
    assert "" + w == w;
    EqualsStep(line, 5, w);
    ScanQuotedValue(line, 6, w, name);
  }

  /** A quoted key, up to and including its closing quote. */
  lemma ScanQuotedKey(line: string, i: nat, token: string, s: string)
    requires Has(line, i, Quoted(s)) && ClosesWell(s) && i >= 2 && line[i - 1] != '\\'
    ensures i + |Quoted(s)| <= |line|
    ensures Scan(line, i, "", token, false, '\0') ==
            ScanBare(line, i + |Escape(s)| + 2, "", token + Escape(s), false)
  {
    hide Scan, ScanBare, Has, Escape;
    ScanToClose(line, i, "", token, false, s);
    CloseQuote(line, i + 1 + |Escape(s)|, "", token + Escape(s), false);
  }

  lemma AddToken(line: string, pos: nat, k: string, v: string)
    requires Has(line, pos, " " + AddField(k, v)) && ClosesWell(k) && ClosesWell(v) && pos >= 1
    ensures TokenAt(line, pos) == Token(pos + 1 + |AddField(k, v)|, "+md." + Escape(k), Escape(v))
  {
    hide Scan, ScanBare, TokenAt, Quoted, Escape, Has;
    var qk, qv := Quoted(k), Quoted(v);
    var mid := pos + 5 + |qk|;
    HasSplit(line, pos, " ", AddField(k, v));
    HasChar(line, pos, ' ');
    SpaceStep(line, pos);
    ScanKeyWord(line, pos + 1, "+md.", qk + ("=" + qv));
    HasSplit(line, pos + 5, qk, "=" + qv);
    HasSplit(line, mid, "=", qv);
    HasChar(line, mid, '=');
    ScanQuotedKey(line, pos + 5, "+md.", k);
    EqualsStep(line, mid, "+md." + Escape(k));
    ScanQuotedValue(line, mid + 1, "+md." + Escape(k), v);
  }

  lemma ScanKeyWord(line: string, i: nat, w: string, rest: string)
    requires Has(line, i, w + rest) && (w == "+md." || w == "-md.")
    ensures Has(line, i + 4, rest) && line[i + 3] == '.'
    ensures Scan(line, i, "", "", false, '\0') == Scan(line, i + 4, "", w, false, '\0')
  {
    HasSplit(line, i, w, rest);
    ScanWord(line, i, "", "", false, w);
    assert "" + w == w;
    assert line[i + 3] == line[i..i + 4][3];
  }

  // ----- lines parse back -----

  lemma NameAbsorbed(acc: Parsed, op: char, name: string)
    ensures Absorb(acc, [op] + "name", Escape(name)) == acc.(name := Unescape(Escape(name)), delete := op == '-')
    ensures Clean(name) ==> Unescape(Escape(name)) == name
  {
    EscapeRoundTrip(name);
    assert ([op] + "name")[1..] == "name";
  }

  lemma FieldAbsorbed(acc: Parsed, op: char, k: string, v: string)
    requires Clean(k) && Clean(v)
    ensures Absorb(acc, [op] + "md." + Escape(k), Escape(v)) ==
            if op == '-' then acc.(dels := acc.dels + {k}) else acc.(adds := acc.adds[k := v])
  {
    EscapeRoundTrip(k);
    EscapeRoundTrip(v);
    var key := [op] + "md." + Escape(k);
    assert key[4..] == Escape(k) && key[1..4] == "md.";
    assert key[1] != "name"[0];
  }

  ghost predicate CleanFields(md: seq<(string, string)>) {
    forall i :: 0 <= i < |md| ==> Clean(md[i].0) && Clean(md[i].1)
  }

  function AddAll(m: map<string, string>, md: seq<(string, string)>): map<string, string>
    decreases |md|
  {
    if md == [] then m else AddAll(m[md[0].0 := md[0].1], md[1..])
  }

  /** A space at the end of a line yields an empty token and then nothing. */
  lemma TrailingSpace(line: string, pos: nat, acc: Parsed)
    requires Has(line, pos, " ") && pos + 1 == |line|
    ensures ParseFrom(line, pos, acc) == acc
  {
    HasChar(line, pos, ' ');
    SpaceStep(line, pos);
    assert TokenAt(line, pos + 1) == Token(pos + 1, "", "");
  }

  lemma {:induction false} AddFieldsParse(line: string, pos: nat, md: seq<(string, string)>, acc: Parsed)
    requires Has(line, pos, AddFields(md)) && pos + |AddFields(md)| == |line|
    requires CleanFields(md) && pos >= 1 && !acc.delete
    ensures ParseFrom(line, pos, acc) == acc.(adds := AddAll(acc.adds, md))
    decreases |md|
  {
    hide Scan, TokenAt, Absorb, AddField;
    if md == [] {
      TrailingSpace(line, pos, acc);
    } else {
      var (k, v) := md[0];
      var field := " " + AddField(k, v);
      HasSplit(line, pos, field, AddFields(md[1..]));
      CleanClosesWell(k);
      CleanClosesWell(v);
      AddToken(line, pos, k, v);
      FieldAbsorbed(acc, '+', k, v);
      assert ['+'] + "md." == "+md.";
      AddFieldsParse(line, pos + |field|, md[1..], acc.(adds := acc.adds[k := v]));
    }
  }

  /** A metadata line gives back its entry name and every key with its value. */
  lemma MetadataLineParses(name: string, md: seq<(string, string)>)
    requires Clean(name) && CleanFields(md)
    ensures ParseLine(MetadataText(name, md, '+')) == Parsed(name, false, AddAll(map[], md), {})
  {
    hide Scan, TokenAt, Absorb, NameField;
    var line := MetadataText(name, md, '+');
    assert line[0..|line|] == line;
    HasSplit(line, 0, NameField('+', name), AddFields(md));
    NameToken(line, '+', name);
    NameAbsorbed(NOTHING, '+', name);
    AddFieldsParse(line, |NameField('+', name)|, md, NOTHING.(name := name));
  }

  /** An entry line gives back its operation and its name, escaped and unescaped. */
  lemma IndexLineGives(name: string, op: char)
    requires ClosesWell(name) && (op == '+' || op == '-')
    ensures ParseLine(IndexText(name, op)) == NOTHING.(name := Unescape(Escape(name)), delete := op == '-')
  {
    hide Scan, TokenAt, Absorb, NameField, Escape, Unescape;
    var line := IndexText(name, op);
    assert line[0..|line|] == line;
    HasSplit(line, 0, NameField(op, name), " ");
    NameToken(line, op, name);
    NameAbsorbed(NOTHING, op, name);
    if op == '+' {
      TrailingSpace(line, |NameField(op, name)|, NOTHING.(name := Unescape(Escape(name))));
    }
  }

  lemma IndexLineParses(name: string, op: char)
    requires Clean(name) && (op == '+' || op == '-')
    ensures ParseLine(IndexText(name, op)) == NOTHING.(name := name, delete := op == '-')
  {
    hide ParseLine, IndexText;
    CleanClosesWell(name);
    IndexLineGives(name, op);
    EscapeRoundTrip(name);
  }

  // ----- lines that remove metadata -----

  function RemoveKeys(md: seq<(string, string)>): string {
    if md == [] then "" else "-md." + Escape(md[0].0) + RemoveKeys(md[1..])
  }

  /** The keys of a removing line run together into one. */
  function Merged(md: seq<(string, string)>): string
    requires md != []
  {
    if |md| == 1 then md[0].0 else md[0].0 + "-md." + Merged(md[1..])
  }

  lemma SkipSpace(line: string, i: nat, token: string)
    requires i < |line| && line[i] == ' '
    ensures Scan(line, i, "", token, false, '\0') == Scan(line, i + 1, "", token, false, '\0')
    ensures ScanBare(line, i, "", token, false) == Scan(line, i + 1, "", token, false, '\0')
  {
    assert At(line, i) == ' ';
  }

  lemma StartsWithSpace(line: string, i: nat, md: seq<(string, string)>)
    requires Has(line, i, RemoveFields(md))
    ensures i < |line| && line[i] == ' '
  {
    if md == [] {
      HasChar(line, i, ' ');
    } else {
      HasSplit(line, i, " " + RemoveField(md[0].0), RemoveFields(md[1..]));
      HasSplit(line, i, " ", RemoveField(md[0].0));
      HasChar(line, i, ' ');
    }
  }

  lemma RemoveStep(line: string, i: nat, token: string, k: string)
    requires Has(line, i, RemoveField(k)) && Clean(k) && i >= 1
    ensures Scan(line, i, "", token, false, '\0') ==
            ScanBare(line, i + |RemoveField(k)|, "", token + "-md." + Escape(k), false)
  {
    hide Scan, ScanBare;
    HasSplit(line, i, "-md.", Quoted(k));
    ScanWord(line, i, "", token, false, "-md.");
    assert line[i + 3] == line[i..i + 4][3];
    ScanQuotedKey(line, i + 4, token + "-md.", k);
  }

  lemma {:induction false} RemoveFieldsScan(line: string, i: nat, token: string, md: seq<(string, string)>)
    requires Has(line, i, RemoveFields(md)) && i + |RemoveFields(md)| == |line| && i >= 1 && CleanFields(md)
    ensures Scan(line, i, "", token, false, '\0') == Finish(|line|, "", token + RemoveKeys(md), false)
    decreases |md|
  {
    hide Scan, ScanBare, RemoveField, Escape, Has;
    if md == [] {
      LastSpace(line, i, token);
      assert token + [] == token;
    } else {
      StartsWithSpace(line, i, md);
      SkipSpace(line, i, token);
      var k, rest := md[0].0, RemoveFields(md[1..]);
      var field := " " + RemoveField(k);
      HasSplit(line, i, field, rest);
      HasSplit(line, i, " ", RemoveField(k));
      RemoveStep(line, i + 1, token, k);
      var token' := token + "-md." + Escape(k);
      StartsWithSpace(line, i + |field|, md[1..]);
      SkipSpace(line, i + |field|, token');
      RemoveFieldsScan(line, i + |field|, token', md[1..]);
      Regroup3(token, "-md.", Escape(k), RemoveKeys(md[1..]));
    }
  }

  lemma LastSpace(line: string, i: nat, token: string)
    requires Has(line, i, " ") && i + 1 == |line|
    ensures Scan(line, i, "", token, false, '\0') == Finish(|line|, "", token, false)
  {
    HasChar(line, i, ' ');
    SkipSpace(line, i, token);
  }

  lemma {:induction false} RemoveKeysMerged(md: seq<(string, string)>)
    requires md != [] && CleanFields(md)
    ensures RemoveKeys(md) == "-md." + Escape(Merged(md)) && Clean(Merged(md))
    ensures |md| >= 2 ==> |Merged(md)| > |md[0].0|
  {
    PlainEscape();
    hide Escape;
    var w := "-md.";
    if |md| == 1 {
      assert RemoveKeys(md[1..]) == [];
      assert w + Escape(md[0].0) + [] == w + Escape(md[0].0);
    } else {
      var k, m := md[0].0, Merged(md[1..]);
      RemoveKeysMerged(md[1..]);
      EscapeConcat(k + w, m);
      EscapeConcat(k, w);
      Regroup(w, Escape(k), w, Escape(m));
      CleanConcat(k, w);
      CleanConcat(k + w, m);
    }
  }

  lemma Regroup<T>(a: seq<T>, b: seq<T>, c: seq<T>, d: seq<T>)
    ensures a + b + (c + d) == a + ((b + c) + d)
  {
  }

  lemma CleanConcat(a: string, b: string)
    requires Clean(a) && Clean(b)
    ensures Clean(a + b)
  {
  }

  lemma PlainEscape()
    ensures Escape("-md.") == "-md."
  {
    assert "-md."[1..] == "md." && "md."[1..] == "d." && "d."[1..] == "." && "."[1..] == "";
    assert Escape(".") == ".";
    assert Escape("d.") == "d.";
    assert Escape("md.") == "md.";
  }

  lemma RemoveToken(line: string, pos: nat, md: seq<(string, string)>)
    requires Has(line, pos, RemoveFields(md)) && pos + |RemoveFields(md)| == |line| && pos >= 1
    requires CleanFields(md) && md != []
    ensures TokenAt(line, pos) == Token(|line|, "-md." + Escape(Merged(md)), "")
  {
    hide Scan, RemoveKeys;
    RemoveFieldsScan(line, pos, "", md);
    RemoveKeysMerged(md);
    assert "" + RemoveKeys(md) == RemoveKeys(md);
  }

  function Keys(md: seq<(string, string)>): set<string> {
    set i | 0 <= i < |md| :: md[i].0
  }

  lemma OneKeyMeant(md: seq<(string, string)>)
    requires md != [] && CleanFields(md)
    ensures {Merged(md)} == Keys(md) <==> |md| == 1
  {
    RemoveKeysMerged(md);
    assert md[0].0 in Keys(md);
    hide RemoveKeys, Escape;
    if |md| == 1 {
      assert Keys(md) == {md[0].0};
    } else {
      assert md[0].0 != Merged(md);
    }
  }

  /**
   A removing line names one key: with a single key it is that key, with more
   they are read as one key run together, so the line does what was meant
   exactly when it has one key.
   */
  lemma RemoveLineParses(name: string, md: seq<(string, string)>)
    requires Clean(name) && CleanFields(md) && md != []
    ensures ParseLine(MetadataText(name, md, '-')) == Parsed(name, false, map[], {Merged(md)})
    ensures ParseLine(MetadataText(name, md, '-')).dels == Keys(md) <==> |md| == 1
  {
    hide ParseFrom, TokenAt, NameField, RemoveFields, Merged, Keys;
    OneKeyMeant(md);
    var line := MetadataText(name, md, '-');
    assert line[0..|line|] == line;
    HasSplit(line, 0, NameField('+', name), RemoveFields(md));
    NameToken(line, '+', name);
    NameParses(line, '+', name);
    RemoveTailParses(line, |NameField('+', name)|, md, NOTHING.(name := name));
  }

  lemma NameParses(line: string, op: char, name: string)
    requires TokenAt(line, 0) == Token(|NameField(op, name)|, [op] + "name", Escape(name))
    requires Clean(name) && |NameField(op, name)| > 0 && op != '-'
    ensures ParseLine(line) == ParseFrom(line, |NameField(op, name)|, NOTHING.(name := name))
  {
    hide TokenAt, Absorb, NameField, Escape;
    NameAbsorbed(NOTHING, op, name);
  }

  lemma RemoveTailParses(line: string, pos: nat, md: seq<(string, string)>, acc: Parsed)
    requires Has(line, pos, RemoveFields(md)) && pos + |RemoveFields(md)| == |line| && pos >= 1
    requires CleanFields(md) && md != [] && !acc.delete
    ensures ParseFrom(line, pos, acc) == acc.(dels := acc.dels + {Merged(md)})
  {
    StartsWithSpace(line, pos, md);
    RemoveKeysMerged(md);
    RemoveToken(line, pos, md);
    FieldAbsorbed(acc, '-', Merged(md), "");
    hide TokenAt, Absorb, RemoveFields, Merged, Escape;
    assert ['-'] + "md." == "-md.";
    EndOfLine(line, acc.(dels := acc.dels + {Merged(md)}));
  }

  lemma EndOfLine(line: string, acc: Parsed)
    ensures ParseFrom(line, |line|, acc) == acc
  {
  }

  // ----- lines in general -----

  /** No printed line contains a newline but the one that ends it. */
  lemma {:induction false} PrintedLinesHaveNoNewline(name: string, md: seq<(string, string)>, op: char)
    requires op == '+' || op == '-'
    ensures '\n' !in IndexText(name, op)
    ensures '\n' !in MetadataText(name, md, op)
  {
    EscapeHasNoNewline(name);
    FieldsHaveNoNewline(md);
  }

  lemma {:induction false} FieldsHaveNoNewline(md: seq<(string, string)>)
    ensures '\n' !in AddFields(md) && '\n' !in RemoveFields(md)
  {
    if md != [] {
      EscapeHasNoNewline(md[0].0);
      EscapeHasNoNewline(md[0].1);
      FieldsHaveNoNewline(md[1..]);
    }
  }

  ghost predicate Unescaped(s: string) {
    exists t :: s == Unescape(t)
  }

  lemma {:induction false} ParsedNameIsUnescaped(line: string, start: nat, acc: Parsed)
    requires start <= |line| + 1 && Unescaped(acc.name)
    ensures Unescaped(ParseFrom(line, start, acc).name)
    decreases |line| + 1 - start
  {
    hide TokenAt;
    var t := TokenAt(line, start);
    if t.pos != start {
      if t.key == "" {
        ParsedNameIsUnescaped(line, t.pos, acc);
      } else {
        var acc' := Absorb(acc, t.key, t.value);
        assert Unescaped(acc'.name);
        if !acc'.delete {
          ParsedNameIsUnescaped(line, t.pos, acc');
        }
      }
    }
  }

  lemma SwallowText(n: string, op: char)
    ensures IndexText(n + "\\", op) == ([op] + "name") + ("=" + ("\"" + (Escape(n) + "\\\" ")))
  {
    hide Escape;
    BackslashAlone();
    EscapeConcat(n, "\\");
    SwallowShape([op] + "name", "=", "\"", Escape(n), "\\", " ");
    assert "\\" + "\"" + " " == "\\\" ";
  }

  lemma BackslashAlone()
    ensures Escape("\\") == "\\"
  {
    assert "\\"[1..] == "";
  }

  lemma SwallowShape<T>(w: seq<T>, eq: seq<T>, q: seq<T>, e: seq<T>, b: seq<T>, sp: seq<T>)
    ensures (w + (eq + (q + (e + b) + q))) + sp == w + (eq + (q + (e + (b + q + sp))))
  {
  }

  lemma SwallowToken(line: string, w: string, n: string)
    requires |w| == 5 && Bare(w) && line == w + ("=" + ("\"" + (Escape(n) + "\\\" ")))
    ensures TokenAt(line, 0) == Token(|line|, w, Escape(n) + "\\\" ")
  {
    hide Scan, ScanBare, Escape, Has, Bare;
    var e := Escape(n);
    HasAll(line);
    HasSplit(line, 0, w, "=" + ("\"" + (e + "\\\" ")));
    HasSplit(line, 5, "=", "\"" + (e + "\\\" "));
    HasSplit(line, 6, "\"", e + "\\\" ");
    HasSplit(line, 7, e, "\\\" ");
    HasChar(line, 5, '=');
    HasChar(line, 6, '"');
    ScanWord(line, 0, "", "", false, w);
    assert "" + w == w;
    EqualsStep(line, 5, w);
    OpenQuote(line, 6, w, "", true);
    ScanQuoted(line, 7, w, "", true, n);
    assert "" + e == e;
    OpenTail(line, 7 + |e|, w, e);
  }

  lemma HasAll(line: string)
    ensures Has(line, 0, line)
  {
    assert line[0..|line|] == line;
  }

  lemma SwallowedName(n: string)
    ensures Escape(n) + "\\\" " == Escape(n + "\" ")
  {
    EscapeConcat(n, "\" ");
    assert "\" "[1..] == " " && " "[1..] == "";
    assert Escape(" ") == " ";
  }

  /** A name ending in a backslash swallows the closing quote of its field. */
  lemma BackslashEatsQuote(n: string, op: char)
    requires op == '+' || op == '-'
    ensures ParseLine(IndexText(n + "\\", op)) ==
            NOTHING.(name := Unescape(Escape(n + "\" ")), delete := op == '-')
    ensures Clean(n) ==> ParseLine(IndexText(n + "\\", op)).name == n + "\" "
  {
    hide Absorb, Scan, TokenAt, Escape, Unescape, IndexText;
    var line, w := IndexText(n + "\\", op), [op] + "name";
    SwallowText(n, op);
    SwallowToken(line, w, n);
    SwallowedName(n);
    NameAbsorbed(NOTHING, op, n + "\" ");
    EndOfLine(line, NOTHING.(name := Unescape(Escape(n + "\" "))));
  }

  /** The name as it comes out of the log: what a printed entry line parses to, whatever the name. */
  function LoggedName(name: string): string {
    Unescape(Escape(if ClosesWell(name) then name else name[..|name| - 1] + "\" "))
  }

  lemma AnyIndexLine(name: string, op: char)
    requires op == '+' || op == '-'
    ensures ParseLine(IndexText(name, op)) == NOTHING.(name := LoggedName(name), delete := op == '-')
    ensures Clean(LoggedName(name))
  {
    hide ParseLine, IndexText, Escape, Unescape;
    if ClosesWell(name) {
      IndexLineGives(name, op);
      UnescapedIsClean(name);
    } else {
      var n := name[..|name| - 1];
      assert name == n + "\\";
      BackslashEatsQuote(n, op);
      UnescapedIsClean(n + "\" ");
    }
  }

  /** Escaping and unescaping leaves no backslash, but for one at the very end. */
  lemma UnescapedIsClean(s: string)
    requires ClosesWell(s)
    ensures Clean(Unescape(Escape(s)))
  {
    hide Unescape;
    EscapeEnd(s);
    NoBackslashLeft(Escape(s));
  }

  lemma {:induction false} EscapeEnd(s: string)
    requires ClosesWell(s)
    ensures ClosesWell(Escape(s))
  {
    if s != "" {
      EscapeEnd(s[1..]);
      if s[1..] != "" {
        EscapeLonger(s[1..]);
      }
    }
  }

  lemma EscapeLonger(s: string)
    requires s != ""
    ensures Escape(s) != ""
  {
  }

  lemma {:induction false} NoBackslashLeft(t: string)
    requires ClosesWell(t)
    ensures Clean(Unescape(t))
    decreases |t|
  {
    if |t| > 1 {
      NoBackslashLeft(t[if t[0] == '\\' then 2 else 1..]);
    }
  }

  lemma OpenTail(line: string, i: nat, key: string, token: string)
    requires Has(line, i, "\\\" ") && i + 3 == |line| && i >= 2
    ensures Scan(line, i, key, token, true, '"') == Token(|line|, key, token + "\\\" ")
  {
    assert "\\\" " == "\\" + ("\"" + " ");
    HasSplit(line, i, "\\", "\"" + " ");
    HasSplit(line, i + 1, "\"", " ");
    HasChar(line, i, '\\');
    HasChar(line, i + 1, '"');
    HasChar(line, i + 2, ' ');
    assert Scan(line, i, key, token, true, '"') == Scan(line, i + 1, key, token + "\\", true, '"');
    assert Scan(line, i + 1, key, token + "\\", true, '"') == Scan(line, i + 2, key, token + "\\" + "\"", true, '"');
    assert Scan(line, i + 2, key, token + "\\" + "\"", true, '"') ==
           Scan(line, i + 3, key, token + "\\" + "\"" + " ", true, '"');
    assert token + "\\" + "\"" + " " == token + "\\\" ";
  }

  /** An entry line gives its name back exactly when the name has no backslash. */
  lemma IndexLineRoundTrip(name: string, op: char)
    requires op == '+' || op == '-'
    ensures ParseLine(IndexText(name, op)).name == name <==> Clean(name)
  {
    hide ParseLine, IndexText;
    AnyIndexLine(name, op);
    if Clean(name) {
      IndexLineParses(name, op);
    }
  }

  lemma EntryWrittenOut(name: string, op: char)
    ensures IndexLine(name, op) == [op] + "name=\"" + Escape(name) + "\" \n"
  {
    hide Escape;
    LineShape([op], "name", "=", "\"", Escape(name), " ", "\n");
    assert "name=\"" == "name" + "=" + "\"" && "\" \n" == "\"" + " " + "\n";
  }

  lemma AddWrittenOut(k: string, v: string)
    ensures AddField(k, v) + " " == "+md.\"" + Escape(k) + "\"=\"" + Escape(v) + "\" "
  {
    hide Escape;
    FieldShape("+md.", "\"", Escape(k), "=", Escape(v), " ");
    assert "+md.\"" == "+md." + "\"" && "\"=\"" == "\"" + "=" + "\"" && "\" " == "\"" + " ";
  }

  lemma RemoveWrittenOut(k: string)
    ensures RemoveField(k) + " " == "-md.\"" + Escape(k) + "\" "
  {
    hide Escape;
    KeyOnly("-md.", "\"", Escape(k), " ");
    assert "-md.\"" == "-md." + "\"" && "\" " == "\"" + " ";
  }

  lemma OneFieldText(name: string, k: string, v: string)
    ensures MetadataText(name, [(k, v)], '+') == NameField('+', name) + " " + (AddField(k, v) + " ")
    ensures MetadataText(name, [(k, v)], '-') == NameField('+', name) + " " + (RemoveField(k) + " ")
  {
    hide NameField, AddField, RemoveField;
    var md, none: seq<(string, string)> := [(k, v)], [];
    assert md[1..] == none && md[0] == (k, v) && AddFields(none) == " " == RemoveFields(none);
    assert AddFields(md) == " " + AddField(k, v) + " " && RemoveFields(md) == " " + RemoveField(k) + " ";
    TailShape(NameField('+', name), " ", AddField(k, v));
    TailShape(NameField('+', name), " ", RemoveField(k));
  }

  /** The lines as they stand in the log, for every name, key and value. */
  lemma WrittenOut(name: string, k: string, v: string, op: char)
    ensures IndexLine(name, op) == [op] + "name=\"" + Escape(name) + "\" \n"
    ensures MetadataText(name, [(k, v)], '+') ==
            "+" + "name=\"" + Escape(name) + "\" " + ("+md.\"" + Escape(k) + "\"=\"" + Escape(v) + "\" ")
    ensures MetadataText(name, [(k, v)], '-') == "+" + "name=\"" + Escape(name) + "\" " + ("-md.\"" + Escape(k) + "\" ")
  {
    hide Escape, IndexLine, MetadataText, NameField, AddField, RemoveField;
    EntryWrittenOut(name, op);
    OneFieldText(name, k, v);
    NameFieldText(name);
    AddWrittenOut(k, v);
    RemoveWrittenOut(k);
  }

  lemma LineShape<T>(op: seq<T>, name: seq<T>, eq: seq<T>, q: seq<T>, e: seq<T>, sp: seq<T>, nl: seq<T>)
    ensures ((op + name) + (eq + (q + e + q))) + sp + nl == op + (name + eq + q) + e + (q + sp + nl)
  {
  }

  lemma FieldShape<T>(w: seq<T>, q: seq<T>, k: seq<T>, eq: seq<T>, v: seq<T>, sp: seq<T>)
    ensures w + ((q + k + q) + (eq + (q + v + q))) + sp == (w + q) + k + (q + eq + q) + v + (q + sp)
  {
  }

  lemma KeyOnly<T>(w: seq<T>, q: seq<T>, k: seq<T>, sp: seq<T>)
    ensures w + (q + k + q) + sp == (w + q) + k + (q + sp)
  {
  }

  lemma TailShape<T>(n: seq<T>, sp: seq<T>, field: seq<T>)
    ensures n + (sp + field + sp) == n + sp + (field + sp)
  {
  }

  /** The three characters that are escaped. */
  lemma EscapedOut()
    ensures Escape("a\"b\n%") == "a\\\"b%\\%"
    ensures Escape("e") == "e" && Escape("k") == "k" && Escape("v") == "v"
  {
    var s := "a\"b\n%";
    assert s[1..] == "\"b\n%" && "\"b\n%"[1..] == "b\n%" && "b\n%"[1..] == "\n%" && "\n%"[1..] == "%" && "%"[1..] == "";
    assert Escape("%") == "\\%";
    assert Escape("\n%") == "%\\%";
    assert Escape("b\n%") == "b%\\%";
    assert Escape("\"b\n%") == "\\\"b%\\%";
  }

  /** A removing name field ends its line, whatever comes after. */
  lemma RemovalEndsLine(name: string, rest: string)
    requires ClosesWell(name)
    ensures ParseLine(NameField('-', name) + rest) == NOTHING.(name := Unescape(Escape(name)), delete := true)
  {
    hide Scan, TokenAt, Absorb, NameField, Escape, Unescape;
    var line := NameField('-', name) + rest;
    HasAll(line);
    HasSplit(line, 0, NameField('-', name), rest);
    NameToken(line, '-', name);
    NameAbsorbed(NOTHING, '-', name);
  }

  /** Text between quotes of one kind, with none of that kind in it, joins the token. */
  lemma {:induction false} ScanInside(line: string, i: nat, key: string, token: string, w: string, quote: char)
    requires Has(line, i, w) && quote !in w && quote != '\0'
    ensures Scan(line, i, key, token, true, quote) == Scan(line, i + |w|, key, token + w, true, quote)
    decreases |w|
  {
    if w == [] {
      assert token + w == token;
    } else {
      assert w == [w[0]] + w[1..];
      HasSplit(line, i, [w[0]], w[1..]);
      HasChar(line, i, w[0]);
      ScanInside(line, i + 1, key, token + [w[0]], w[1..], quote);
      assert token + [w[0]] + w[1..] == token + w;
    }
  }

  lemma QuoteSteps(line: string, i: nat, key: string, token: string, quote: char)
    requires 2 <= i < |line| && line[i] == quote && (quote == '"' || quote == '\'') && line[i - 1] != '\\'
    ensures Scan(line, i, key, token, true, '\0') == Scan(line, i + 1, key, token, true, quote)
    ensures Scan(line, i, key, token, true, quote) == Finish(i + 1, key, token, true)
  {
  }

  lemma QuotedFrom(line: string, i: nat, key: string, value: string, quote: char)
    requires i >= 2 && i + 2 + |value| <= |line| && line[i - 1] != '\\' && Has(line, i + 1, value)
    requires (quote == '"' || quote == '\'') && line[i] == quote && line[i + 1 + |value|] == quote
    requires quote !in value && ClosesWell(value)
    ensures Scan(line, i, key, "", true, '\0') == Token(i + 2 + |value|, key, value)
  {
    hide Scan, Has, ClosesWell;
    QuoteSteps(line, i, key, "", quote);
    ScanInside(line, i + 1, key, "", value, quote);
    assert "" + value == value;
    BeforeQuote(line, i + 1, value);
    QuoteSteps(line, i + 1 + |value|, key, value, quote);
  }

  lemma FourParts(line: string, a: string, b: string, c: string, d: string, rest: string)
    requires line == a + (b + (c + (d + rest)))
    ensures Has(line, 0, a) && Has(line, |a|, b) && Has(line, |a| + |b|, c) && Has(line, |a| + |b| + |c|, d)
  {
    hide Has;
    HasAll(line);
    HasSplit(line, 0, a, b + (c + (d + rest)));
    HasSplit(line, |a|, b, c + (d + rest));
    HasSplit(line, |a| + |b|, c, d + rest);
    HasSplit(line, |a| + |b| + |c|, d, rest);
  }

  lemma KeyToken(line: string, key: string)
    requires Bare(key) && Has(line, 0, key) && Has(line, |key|, "=")
    ensures |key| < |line| && line[|key|] == '='
    ensures TokenAt(line, 0) == Scan(line, |key| + 1, key, "", true, '\0')
  {
    hide Scan, ScanBare, Has, Bare;
    HasChar(line, |key|, '=');
    ScanWord(line, 0, "", "", false, key);
    assert "" + key == key;
    EqualsStep(line, |key|, key);
  }

  /** A value in single or double quotes with no such quote in it is read as it is, spaces and equals signs included. */
  lemma QuotedToken(key: string, value: string, quote: char, rest: string)
    requires key != "" && Bare(key) && (quote == '"' || quote == '\'') && quote !in value && ClosesWell(value)
    ensures var line := (key + "=") + ([quote] + (value + ([quote] + rest)));
            TokenAt(line, 0) == Token(|key| + 3 + |value|, key, value)
  {
    hide Scan, TokenAt, Has, Bare, ClosesWell;
    var line, n := (key + "=") + ([quote] + (value + ([quote] + rest))), |key|;
    FourParts(line, key + "=", [quote], value, [quote], rest);
    HasSplit(line, 0, key, "=");
    KeyToken(line, key);
    HasChar(line, n + 1, quote);
    HasChar(line, n + 2 + |value|, quote);
    QuotedFrom(line, n + 1, key, value, quote);
  }

  lemma BeforeQuote(line: string, i: nat, value: string)
    requires i > 0 && Has(line, i, value) && ClosesWell(value) && line[i - 1] != '\\'
    ensures line[i + |value| - 1] != '\\'
  {
    if value != "" {
      assert line[i + |value| - 1] == line[i..i + |value|][|value| - 1];
    }
  }

  /** A value without quotes ends at the next space. */
  lemma BareToken(key: string, value: string, rest: string)
    requires key != "" && value != "" && Bare(key) && Bare(value)
    ensures TokenAt(key + ("=" + (value + (" " + rest))), 0) == Token(|key| + 1 + |value|, key, value)
  {
    hide Scan, TokenAt, Has, Bare;
    var line, n := key + ("=" + (value + (" " + rest))), |key|;
    FourParts(line, key, "=", value, " ", rest);
    KeyToken(line, key);
    HasChar(line, n + 1 + |value|, ' ');
    ScanWord(line, n + 1, key, "", true, value);
    assert "" + value == value;
    SpaceEnds(line, n + 1 + |value|, key, value);
  }

  lemma SpaceEnds(line: string, i: nat, key: string, token: string)
    requires i < |line| && line[i] == ' ' && token != ""
    ensures Scan(line, i, key, token, true, '\0') == Token(i, key, token)
  {
    assert At(line, i) == ' ';
  }
}
