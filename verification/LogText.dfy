/**
 The text of a directory's operation log: escaping of names and the tokens of
 a line.
 */
module LogText {

  lemma Assoc<T>(a: seq<T>, b: seq<T>, c: seq<T>)
    ensures a + b + c == a + (b + c)
  {
  }

  // ----- escaping -----

  function EscapeChar(c: char): string {
    if c == '"' then "\\\"" else if c == '\n' then "%" else if c == '%' then "\\%" else [c]
  }

  function Escape(s: string): string {
    if s == [] then [] else EscapeChar(s[0]) + Escape(s[1..])
  }

  /** escapeObjName. */
  method EscapeObjName(obj: string) returns (str: string)
    ensures str == Escape(obj)
  {
    str := "";
    for i := 0 to |obj|
      invariant str + Escape(obj[i..]) == Escape(obj)
    {
      assert obj[i..][1..] == obj[i + 1..];
      Assoc(str, EscapeChar(obj[i]), Escape(obj[i + 1..]));
      if obj[i] == '"' {
        str := str + "\\\"";
      } else if obj[i] == '\n' {
        str := str + "%";
      } else if obj[i] == '%' {
        str := str + "\\%";
      } else {
        str := str + [obj[i]];
      }
    }
  }

  /** A backslash and the character after it are dropped unless that is a quote or a percent sign. */
  function Unescape(t: string): string {
    if t == [] then []
    else if |t| == 1 then (if t[0] == '%' then "\n" else t)
    else if t[0] == '\\' then
      (if t[1] == '"' then "\"" else if t[1] == '%' then "%" else "") + Unescape(t[2..])
    else (if t[0] == '%' then "\n" else [t[0]]) + Unescape(t[1..])
  }

  lemma UnescapeNext(obj: string, i: nat)
    requires i < |obj| - 1
    ensures obj[i] == '\\' ==>
              Unescape(obj[i..]) ==
              (if obj[i + 1] == '"' then "\"" else if obj[i + 1] == '%' then "%" else "") + Unescape(obj[i + 2..])
    ensures obj[i] != '\\' ==>
              Unescape(obj[i..]) == (if obj[i] == '%' then "\n" else [obj[i]]) + Unescape(obj[i + 1..])
  {
    assert obj[i..][1..] == obj[i + 1..] && obj[i..][2..] == obj[i + 2..];
  }

  lemma UnescapeLast(obj: string)
    requires obj != []
    ensures Unescape(obj[|obj| - 1..]) == if obj[|obj| - 1] == '%' then "\n" else [obj[|obj| - 1]]
    ensures Unescape(obj[|obj|..]) == []
  {
  }

  /** unescapeObjName. */
  method UnescapeObjName(obj: string) returns (str: string)
    ensures str == Unescape(obj)
  {
    str := "";
    if obj == "" {
      return;
    }
    UnescapeLast(obj);
    hide Unescape;
    var i, length := 0, |obj|;
    assert obj[0..] == obj;
    while i < length - 1
      invariant 0 <= i <= length
      invariant str + Unescape(obj[i..]) == Unescape(obj)
    {
      UnescapeNext(obj, i);
      var piece := "";
      if obj[i] == '\\' {
        if obj[i + 1] == '"' {
          piece := "\"";
        } else if obj[i + 1] == '%' {
          piece := "%";
        }
        i := i + 1;
      } else if obj[i] == '%' {
        piece := "\n";
      } else {
        piece := [obj[i]];
      }
      i := i + 1;
      Assoc(str, piece, Unescape(obj[i..]));
      str := str + piece;
    }
    if i <= length - 1 {
      if obj[length - 1] == '%' {
        str := str + "\n";
      } else {
        str := str + [obj[length - 1]];
      }
    }
  }

  /** Unescaping can leave a backslash only as the last character. */
  lemma {:induction false} UnescapedBackslash(t: string, i: nat)
    requires i < |Unescape(t)| && Unescape(t)[i] == '\\'
    ensures i == |Unescape(t)| - 1
    decreases |t|
  {
    if |t| > 1 {
      var n := if t[0] == '\\' then 2 else 1;
      var head := Unescape(t)[..|Unescape(t)| - |Unescape(t[n..])|];
      assert Unescape(t) == head + Unescape(t[n..]);
      if i >= |head| {
        UnescapedBackslash(t[n..], i - |head|);
      }
    }
  }

  predicate BackslashOnlyLast(s: string) {
    forall i :: 0 <= i < |s| - 1 ==> s[i] != '\\'
  }

  lemma UnescapeHead(c: char, t: string)
    requires c != '\\' || t == []
    ensures Unescape(EscapeChar(c) + t) == [c] + Unescape(t)
  {
    var n := |EscapeChar(c)|;
    assert (EscapeChar(c) + t)[n..] == t;
    if t == [] {
      assert EscapeChar(c) + t == EscapeChar(c);
      assert Unescape(EscapeChar(c)[n..]) == [];
    }
  }

  lemma {:induction false} UnescapeEscape(s: string)
    requires BackslashOnlyLast(s)
    ensures Unescape(Escape(s)) == s
  {
    if s != [] {
      UnescapeEscape(s[1..]);
      UnescapeHead(s[0], Escape(s[1..]));
      assert s == [s[0]] + s[1..];
    }
  }

  /** Escaping is undone exactly for names with no backslash before their last character. */
  lemma EscapeRoundTrip(s: string)
    ensures Unescape(Escape(s)) == s <==> BackslashOnlyLast(s)
  {
    if BackslashOnlyLast(s) {
      UnescapeEscape(s);
    } else {
      var i :| 0 <= i < |s| - 1 && s[i] == '\\';
      if Unescape(Escape(s)) == s {
        UnescapedBackslash(Escape(s), i);
      }
    }
  }

  lemma {:induction false} EscapeHasNoNewline(s: string)
    ensures '\n' !in Escape(s)
  {
    if s != [] {
      EscapeHasNoNewline(s[1..]);
    }
  }

  lemma {:induction false} EscapeConcat(s: string, t: string)
    ensures Escape(s + t) == Escape(s) + Escape(t)
  {
    if s == [] {
      assert s + t == t;
    } else {
      assert (s + t)[1..] == s[1..] + t;
      EscapeConcat(s[1..], t);
    }
  }

  // ----- tokens -----

  /** What splitToken reports: where it stopped, the key and the value. */
  datatype Token = Token(pos: nat, key: string, value: string)

  /** line[i]; one past the end reads as the null character. */
  function At(line: string, i: nat): char {
    if i < |line| then line[i] else '\0'
  }

  predicate IsQuote(line: string, i: nat) {
    i < |line| && (line[i] == '"' || line[i] == '\'') && i > 1 && line[i - 1] != '\\'
  }

  function Finish(pos: nat, key: string, token: string, gotKey: bool): Token {
    if token == "" then Token(pos, key, "")
    else if gotKey then Token(pos, key, token)
    else Token(pos, token, "")
  }

  /** The loop of splitToken from position i on. */
  function Scan(line: string, i: nat, key: string, token: string, gotKey: bool, quote: char): (t: Token)
    requires i <= |line| + 1
    ensures i <= t.pos <= |line| + 1
    decreases |line| + 1 - i, 1
  {
    if i >= |line| then Finish(i, key, token, gotKey)
    else if IsQuote(line, i) && quote == '\0' then Scan(line, i + 1, key, token, gotKey, line[i])
    else if IsQuote(line, i) && quote == line[i] then
      if gotKey then Finish(i + 1, key, token, gotKey)
      else ScanBare(line, i + 1, key, token, gotKey)
    else if quote == '\0' then ScanBare(line, i, key, token, gotKey)
    else Scan(line, i + 1, key, token + [line[i]], gotKey, quote)
  }

  /** The part of the loop body for a character outside quotes. */
  function ScanBare(line: string, i: nat, key: string, token: string, gotKey: bool): (t: Token)
    requires i <= |line|
    ensures i <= t.pos <= |line| + 1
    decreases |line| + 1 - i, 0
  {
    var c := At(line, i);
    if c == '=' then Scan(line, i + 1, token, "", true, '\0')
    else if c == ' ' then
      if token != "" && gotKey then Finish(i, key, token, gotKey)
      else Scan(line, i + 1, key, token, gotKey, '\0')
    else Scan(line, i + 1, key, token + [c], gotKey, '\0')
  }

  function TokenAt(line: string, start: nat): (t: Token)
    requires start <= |line| + 1
    ensures start <= t.pos <= |line| + 1
  {
    Scan(line, start, "", "", false, '\0')
  }

  /** splitToken as the directory log uses it, without an operator out-parameter. */
  method SplitToken(line: string, startPos: nat) returns (t: Token)
    requires startPos <= |line| + 1
    ensures t == TokenAt(line, startPos)
  {
    var key, token, gotKey, quoteFound := "", "", false, '\0';
    var i := startPos;
    while i < |line|
      invariant startPos <= i <= |line| + 1
      invariant Scan(line, i, key, token, gotKey, quoteFound) == TokenAt(line, startPos)
    {
      if (line[i] == '"' || line[i] == '\'') && i > 1 && line[i - 1] != '\\' {
        if quoteFound == '\0' {
          quoteFound := line[i];
          i := i + 1;
          continue;
        }
        if quoteFound == line[i] {
          i := i + 1;
          quoteFound := '\0';
          if gotKey {
            break;
          }
        }
      }
      if quoteFound == '\0' {
        if At(line, i) == '=' {
          key, token, gotKey := token, "", true;
          i := i + 1;
          continue;
        }
        if At(line, i) == ' ' {
          if token != "" && gotKey {
            break;
          }
          i := i + 1;
          continue;
        }
      }
      token := token + [At(line, i)];
      i := i + 1;
    }
    t := Finish(i, key, token, gotKey);
  }
}
