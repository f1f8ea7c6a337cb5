/** The cache object of a directory and the directory object it reads and compacts. */
module DirCaching {
  import opened Errno
  import opened TextOrder
  import opened LogText
  import opened LogLines
  import opened DirLog

  /**
   The directory object: its log and whether the "updated" key reads "false".
   An object that does not exist has an empty log; any write creates it.
   */
  class DirObject {
    var present: bool
    var log: string
    var notUpdated: bool

    ghost predicate Valid()
      reads this
    {
      present || log == ""
    }

    constructor (log: string)
      ensures Valid() && present && this.log == log && !notUpdated
    {
      present, this.log, notUpdated := true, log, false;
    }

    /** writeContentsAtomically by some client: append and mark as updated in one step. */
    method Append(contents: string)
      modifies this
      ensures present == (old(present) || contents != "") && log == old(log) + contents
      ensures notUpdated == (old(notUpdated) && contents == "")
    {
      if contents != "" {
        present, log, notUpdated := true, log + contents, false;
      } else {
        assert log + contents == log;
      }
    }
  }

  class DirCache {
    var mContents: map<string, map<string, string>>
    var mEntryNames: set<string>
    var mLogNrLines: nat
    var mLastCachedSize: nat
    var mLastReadByte: nat

    ghost function Cached(): Cache
      reads this
    {
      Cache(mContents, mEntryNames, mLogNrLines)
    }

    ghost function Value(): Reader
      reads this
    {
      Reader(Cached(), mLastCachedSize)
    }

    ghost predicate Valid()
      reads this
    {
      mLastReadByte == mLastCachedSize
    }

    constructor ()
      ensures Valid() && Value() == FRESH
    {
      mContents, mEntryNames, mLogNrLines, mLastCachedSize, mLastReadByte := map[], {}, 0, 0, 0;
    }

    method Clear()
      modifies this
      ensures Valid() && Value() == FRESH
    {
      mContents, mEntryNames, mLogNrLines, mLastCachedSize, mLastReadByte := map[], {}, 0, 0, 0;
    }

    /** The two loops over the metadata of a line: what it sets, then what it removes. */
    method ChangeMetadata(md: map<string, string>, toAdd: map<string, string>, toDelete: set<string>)
      returns (metadata: map<string, string>)
      ensures metadata == (md + toAdd) - toDelete
    {
      metadata := md;
      var adds := toAdd.Keys;
      NoneYet(md, toAdd);
      while adds != {}
        invariant adds <= toAdd.Keys && metadata == md + (toAdd - adds)
        decreases |adds|
      {
        var mdKey :| mdKey in adds;
        SetOneMore(md, toAdd, adds, mdKey);
        metadata := metadata[mdKey := toAdd[mdKey]];
        adds := adds - {mdKey};
      }
      var dels := toDelete;
      AllSet(md, toAdd, toDelete);
      while dels != {}
        invariant dels <= toDelete && metadata == (md + toAdd) - (toDelete - dels)
        decreases |dels|
      {
        var mdKey :| mdKey in dels;
        RemoveOneMore(md + toAdd, toDelete, dels, mdKey);
        if mdKey in metadata {
          metadata := metadata - {mdKey};
        }
        dels := dels - {mdKey};
      }
      assert toDelete - {} == toDelete;
    }

    /** The part of parseContents that applies one parsed line. */
    method Apply(p: Parsed)
      modifies this`mContents, this`mEntryNames, this`mLogNrLines
      ensures Cached() == ReplayLine(old(Cached()), p)
    {
      hide CString;
      mLogNrLines := mLogNrLines + 1;
      if CString(p.name) in mContents {
        if p.delete {
          mContents := mContents - {CString(p.name)};
          mEntryNames := mEntryNames - {p.name};
        } else if p.adds != map[] || p.dels != {} {
          var metadata := ChangeMetadata(if p.name in mContents then mContents[p.name] else map[], p.adds, p.dels);
          mContents := mContents[p.name := metadata];
        }
      } else {
        mContents := mContents[p.name := map[]];
        mEntryNames := mEntryNames + {p.name};
      }
    }

    /** parseContents: every line of the text just read. */
    method ParseContents(buff: string)
      modifies this`mContents, this`mEntryNames, this`mLogNrLines
      ensures Cached() == Replay(old(Cached()), buff)
    {
      hide ParsedLines, ParseLine, ReplayLine, ReplayAll;
      NoLines();
      ReplayNone(Cached());
      var rest := buff;
      ghost var done: seq<Parsed> := [];
      while rest != ""
        invariant done + ParsedLines(rest) == ParsedLines(buff)
        invariant Cached() == ReplayAll(old(Cached()), done)
        decreases |rest|
      {
        var k := LineEnd(rest);
        FirstLine(rest);
        ReplayOneMore(old(Cached()), done, ParseLine(rest[..k]));
        var p := ParseTokens(rest[..k]);
        Apply(p);
        assert done + ([p] + ParsedLines(AfterLine(rest))) == (done + [p]) + ParsedLines(AfterLine(rest));
        done := done + [p];
        rest := AfterLine(rest);
      }
      assert done + [] == done;
    }

    /** update: reads what was appended since the last time, or everything after a shrink. */
    method UpdateFrom(dir: DirObject) returns (ret: int)
      requires Valid()
      modifies this
      ensures Valid()
      ensures ret == if dir.present then 0 else ENOENT
      ensures Value() == if dir.present then Update(old(Value()), dir.log) else old(Value())
    {
      if !dir.present {
        return ENOENT;
      }
      var size := |dir.log|;
      if size < mLastCachedSize {
        Clear();
      }
      var buffLength := size - mLastCachedSize;
      if buffLength == 0 {
        return 0;
      }
      var buff := dir.log[mLastReadByte..];
      ParseContents(buff);
      mLastCachedSize, mLastReadByte := size, size;
      return 0;
    }

    /** The text loop of compactDirOpLog for the metadata of one entry. */
    method PrintMetadata(md: map<string, string>) returns (text: string)
      ensures text == RawFields(md, InOrder(md.Keys))
    {
      hide RawFields, InOrder, IsLeast;
      NoFields(md);
      text := "";
      var todo := md.Keys;
      while todo != {}
        invariant todo <= md.Keys
        invariant text + RawFields(md, InOrder(todo)) == RawFields(md, InOrder(md.Keys))
        decreases |todo|
      {
        LeastExists(todo);
        var k :| k in todo && IsLeast(k, todo);
        var field := "+" + k + "=\"" + md[k] + "\" ";
        ghost var more := RawFields(md, InOrder(todo - {k}));
        NextFieldPrinted(md, todo, k);
        assert text + (field + more) == text + field + more;
        text := text + field;
        todo := todo - {k};
      }
      assert text + "" == text;
    }

    /** The text loop of compactDirOpLog. */
    method PrintCompact() returns (text: string)
      ensures text == CompactText(mContents)
    {
      hide CompactLines, CompactLine, InOrder, IsLeast;
      NoEntries(mContents);
      text := "";
      var todo := mContents.Keys;
      while todo != {}
        invariant todo <= mContents.Keys
        invariant text + CompactLines(mContents, InOrder(todo)) == CompactText(mContents)
        decreases |todo|
      {
        LeastExists(todo);
        var n :| n in todo && IsLeast(n, todo);
        NextLinePrinted(mContents, todo, n);
        var line := PrintCompactLine(n, mContents[n]);
        ghost var more := CompactLines(mContents, InOrder(todo - {n}));
        assert text + (line + "\n" + more) == text + line + "\n" + more;
        text := text + line + "\n";
        todo := todo - {n};
      }
      assert text + "" == text;
    }

    method PrintCompactLine(name: string, md: map<string, string>) returns (line: string)
      ensures line == CompactLine(name, md)
    {
      hide RawFields, NameField, Escape;
      var escaped := EscapeObjName(name);
      var fields := PrintMetadata(md);
      line := "+" + "name=\"" + escaped + "\" ";
      NameFieldText(name);
      line := line + fields;
    }

    /**
     compactDirOpLog, with what other clients append before the flag is
     cleared, between that and the guarded rewrite, and after it: the rewrite
     takes effect exactly when nothing came in between. On an object that no
     longer exists the update fails, and the cached entries are written anew.
     */
    method CompactDirOpLog(dir: DirObject, before: string, between: string, after: string)
      requires Valid() && dir.Valid()
      modifies this, dir
      ensures Valid() && dir.present
      ensures var r := if old(dir.present) then Update(old(Value()), old(dir.log)) else old(Value());
              var log := if between == "" then CompactText(r.cache.contents) else old(dir.log) + before + between;
              dir.log == log + after &&
              Value() == Reader(r.cache.(lines := |r.cache.contents|), |dir.log|)
    {
      hide CompactText, Update;
      var ret := UpdateFrom(dir);
      dir.Append(before);
      dir.present, dir.notUpdated := true, true;
      dir.Append(between);
      var compactContents := PrintCompact();
      if dir.notUpdated {
        dir.log := compactContents;
      }
      dir.Append(after);
      var size := |dir.log|;
      mLastCachedSize, mLastReadByte := size, size;
      mLogNrLines := |mContents|;
    }
  }

  lemma NoneYet<V>(md: map<string, V>, toAdd: map<string, V>)
    ensures md + (toAdd - toAdd.Keys) == md
  {
  }

  lemma SetOneMore<V>(md: map<string, V>, toAdd: map<string, V>, adds: set<string>, k: string)
    requires k in adds && k in toAdd
    ensures (md + (toAdd - adds))[k := toAdd[k]] == md + (toAdd - (adds - {k}))
  {
  }

  lemma AllSet<V>(md: map<string, V>, toAdd: map<string, V>, toDelete: set<string>)
    ensures md + (toAdd - {}) == (md + toAdd) - (toDelete - toDelete)
  {
  }

  lemma RemoveOneMore<V>(m: map<string, V>, toDelete: set<string>, dels: set<string>, k: string)
    requires k in dels && dels <= toDelete
    ensures m - (toDelete - dels) - {k} == m - (toDelete - (dels - {k}))
    ensures k !in m - (toDelete - dels) ==> m - (toDelete - dels) == m - (toDelete - (dels - {k}))
  {
  }

  lemma ReplayNone(c: Cache)
    ensures ReplayAll(c, []) == c
  {
  }

  lemma ReplayOneMore(c: Cache, ps: seq<Parsed>, p: Parsed)
    ensures ReplayAll(c, ps + [p]) == ReplayLine(ReplayAll(c, ps), p)
  {
    assert (ps + [p])[..|ps|] == ps;
  }

  lemma FirstLine(text: string)
    requires text != []
    ensures ParsedLines(text) == [ParseLine(text[..LineEnd(text)])] + ParsedLines(AfterLine(text))
  {
  }

  lemma InOrderStep(s: set<string>, x: string)
    requires IsLeast(x, s)
    ensures InOrder(s) == [x] + InOrder(s - {x})
  {
    LeastUnique(x, Least(s), s);
  }

  lemma NoFields(md: map<string, string>)
    ensures RawFields(md, InOrder({})) == ""
  {
  }

  lemma NextFieldPrinted(md: map<string, string>, todo: set<string>, k: string)
    requires todo <= md.Keys && IsLeast(k, todo)
    ensures RawFields(md, InOrder(todo)) ==
            "+" + k + "=\"" + md[k] + "\" " + RawFields(md, InOrder(todo - {k}))
  {
    hide InOrder;
    InOrderStep(todo, k);
    assert ([k] + InOrder(todo - {k}))[1..] == InOrder(todo - {k});
  }

  lemma NoEntries(contents: map<string, map<string, string>>)
    ensures CompactLines(contents, InOrder({})) == ""
  {
  }

  lemma NextLinePrinted(contents: map<string, map<string, string>>, todo: set<string>, n: string)
    requires todo <= contents.Keys && IsLeast(n, todo)
    ensures CompactLines(contents, InOrder(todo)) ==
            CompactLine(n, contents[n]) + "\n" + CompactLines(contents, InOrder(todo - {n}))
  {
    hide InOrder, CompactLine;
    InOrderStep(todo, n);
    assert ([n] + InOrder(todo - {n}))[1..] == InOrder(todo - {n});
  }
}
