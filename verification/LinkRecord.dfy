/**
 The record of a link in its directory: the target's path is printed between
 quotes as it is, and read back by the tokeniser.
 */
module LinkRecord {
  import opened LogText
  import opened LogLines
  import opened Paths

  /** getFileXAttrDirRecord: the target comes first; more stands for the fields after it. */
  function Record(target: string, more: string): string {
    "link" + ("=" + ("\"" + (target + ("\"" + (" " + more)))))
  }

  /** A quote in the target that closes the field: one with no backslash before it. */
  predicate Closes(t: string, i: nat)
    requires i < |t|
  {
    t[i] == '"' && (i == 0 || t[i - 1] != '\\')
  }

  /** How much of the target comes before such a quote. */
  function Cut(t: string, from: nat): (k: nat)
    requires from <= |t|
    ensures from <= k <= |t| && (k < |t| ==> Closes(t, k))
    ensures forall i :: from <= i < k ==> !Closes(t, i)
    decreases |t| - from
  {
    if from == |t| || Closes(t, from) then from else Cut(t, from + 1)
  }

  /** Raw text inside the quotes joins the value up to the closing quote. */
  lemma {:induction false} ScanRaw(line: string, i: nat, key: string, token: string, w: string)
    requires i >= 2 && Has(line, i, w)
    requires forall k :: 0 <= k < |w| && w[k] == '"' ==> line[i + k - 1] == '\\'
    ensures Scan(line, i, key, token, true, '"') == Scan(line, i + |w|, key, token + w, true, '"')
    decreases |w|
  {
    if w == [] {
      assert token + w == token;
    } else {
      assert w == [w[0]] + w[1..];
      HasSplit(line, i, [w[0]], w[1..]);
      HasChar(line, i, w[0]);
      forall k | 0 <= k < |w[1..]| && w[1..][k] == '"' ensures line[i + 1 + k - 1] == '\\' {
        assert w[k + 1] == '"';
      }
      ScanRaw(line, i + 1, key, token + [w[0]], w[1..]);
      assert token + [w[0]] + w[1..] == token + w;
    }
  }

  /** Inside the quotes of a value the key stays and the value only grows. */
  lemma {:induction false} ValueGrows(line: string, i: nat, key: string, token: string)
    requires i <= |line|
    ensures var t := Scan(line, i, key, token, true, '"'); t.key == key && |t.value| >= |token|
    decreases |line| - i
  {
    if i < |line| && !(IsQuote(line, i) && line[i] == '"') {
      ValueGrows(line, i + 1, key, token + [line[i]]);
    }
  }

  /** The tokeniser up to the target. */
  lemma AtTarget(target: string, more: string)
    ensures var line := Record(target, more);
            && TokenAt(line, 0) == Scan(line, 6, "link", "", true, '"')
            && line[5] == '"' && Has(line, 6, target) && Has(line, 6 + |target|, "\"") && Has(line, 7 + |target|, " ")
            && |line| >= 8 + |target|
  {
    hide Scan, ScanBare, Has;
    var line := Record(target, more);
    var tail := "\"" + (" " + more);
    HasAll(line);
    HasSplit(line, 0, "link", "=" + ("\"" + (target + tail)));
    HasSplit(line, 4, "=", "\"" + (target + tail));
    HasSplit(line, 5, "\"", target + tail);
    HasSplit(line, 6, target, tail);
    HasSplit(line, 6 + |target|, "\"", " " + more);
    HasSplit(line, 7 + |target|, " ", more);
    HasChar(line, 4, '=');
    HasChar(line, 5, '"');
    ScanWord(line, 0, "", "", false, "link");
    assert "" + "link" == "link";
    EqualsStep(line, 4, "link");
    OpenQuote(line, 5, "link", "", true);
  }

  lemma HasAt(line: string, i: nat, w: string, j: nat)
    requires Has(line, i, w) && j < |w|
    ensures line[i + j] == w[j]
  {
    assert line[i..i + |w|][j] == w[j];
  }

  /** The quotes before the cut all have a backslash before them. */
  lemma QuotesBefore(line: string, target: string, k: nat)
    requires |line| > 6 && line[5] == '"' && Has(line, 6, target) && k == Cut(target, 0)
    ensures Has(line, 6, target[..k])
    ensures forall j :: 0 <= j < k && target[..k][j] == '"' ==> line[6 + j - 1] == '\\'
    ensures line[5 + k] == '\\' <==> k > 0 && target[k - 1] == '\\'
  {
    hide Has;
    assert target == target[..k] + target[k..];
    HasSplit(line, 6, target[..k], target[k..]);
    forall j | 0 <= j < k && target[..k][j] == '"' ensures line[6 + j - 1] == '\\' {
      assert !Closes(target, j);
      HasAt(line, 6, target, j - 1);
    }
    if k > 0 {
      HasAt(line, 6, target, k - 1);
    }
  }

  lemma RawPart(line: string, key: string, target: string, k: nat)
    requires |line| >= 8 + |target| && line[5] == '"' && Has(line, 6, target) && line[6 + |target|] == '"'
    requires k == Cut(target, 0)
    ensures Scan(line, 6, key, "", true, '"') == Scan(line, 6 + k, key, target[..k], true, '"')
    ensures line[6 + k] == '"' && (line[5 + k] == '\\' <==> k > 0 && target[k - 1] == '\\')
  {
    hide *;
    QuotesBefore(line, target, k);
    ScanRaw(line, 6, key, "", target[..k]);
    assert "" + target[..k] == target[..k];
    QuoteAtCut(line, target, k);
  }

  lemma QuoteAtCut(line: string, target: string, k: nat)
    requires |line| > 6 + |target| && Has(line, 6, target) && line[6 + |target|] == '"' && k == Cut(target, 0)
    ensures line[6 + k] == '"'
  {
    hide Has, Cut;
    if k < |target| {
      HasAt(line, 6, target, k);
    }
  }

  /** What the scan makes of the target and the quote after it. */
  lemma ValueOf(line: string, key: string, target: string)
    requires |line| >= 8 + |target| && line[5] == '"' && Has(line, 6, target) && line[6 + |target|] == '"'
    ensures var t, k := Scan(line, 6, key, "", true, '"'), Cut(target, 0);
            && t.key == key
            && (t.value == target <==> k == |target| && ClosesWell(target))
            && (k < |target| ==> t.value == target[..k])
  {
    hide Scan, Has, Cut;
    var k := Cut(target, 0);
    RawPart(line, key, target, k);
    CutEnd(target, k);
    if k == |target| && !ClosesWell(target) {
      Swallowed(line, 6 + k, key, target[..k]);
    } else {
      CloseQuote(line, 6 + k, key, target[..k], true);
    }
  }

  lemma Swallowed(line: string, i: nat, key: string, token: string)
    requires 2 <= i < |line| && line[i] == '"' && line[i - 1] == '\\'
    ensures var t := Scan(line, i, key, token, true, '"'); t.key == key && |t.value| > |token|
  {
    hide Scan;
    EscapedQuote(line, i, key, token);
    ValueGrows(line, i + 1, key, token + ['"']);
  }

  /**
   A target's text comes back from its record exactly when it has no quote
   without a backslash before it and does not end in a backslash; up to such a
   quote it comes back cut.
   */
  lemma TargetComesBack(target: string, more: string)
    ensures var t, k := TokenAt(Record(target, more), 0), Cut(target, 0);
            && t.key == "link"
            && (t.value == target <==> k == |target| && ClosesWell(target))
            && (k < |target| ==> t.value == target[..k])
  {
    hide Scan, Record, Has, Cut, TokenAt, ClosesWell;
    var line := Record(target, more);
    AtTarget(target, more);
    HasChar(line, 6 + |target|, '"');
    ValueOf(line, "link", target);
  }

  lemma CutEnd(target: string, k: nat)
    requires k == Cut(target, 0)
    ensures k < |target| ==> k == 0 || target[k - 1] != '\\'
    ensures target[..|target|] == target
  {
  }

  lemma EscapedQuote(line: string, i: nat, key: string, token: string)
    requires 2 <= i < |line| && line[i] == '"' && line[i - 1] == '\\'
    ensures Scan(line, i, key, token, true, '"') == Scan(line, i + 1, key, token + ['"'], true, '"')
  {
  }

  /** A link to a directory named a"b comes back as one to a file named a. */
  lemma QuotedDirectoryIsCut(more: string)
    ensures TokenAt(Record(Render(["a\"b"]), more), 0).value == Render([]) + "a"
  {
    hide Record, TokenAt;
    var target := Render(["a\"b"]);
    assert ["a\"b"][..0] == [];
    assert target == "/" + "a\"b" + "/" == "/a\"b/";
    assert Cut(target, 0) == Cut(target, 1) == Cut(target, 2) == 2;
    TargetComesBack(target, more);
    assert target[..2] == "/a" == Render([]) + "a";
  }
}
