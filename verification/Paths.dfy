/**
 Directory paths. The library works on strings; the namespace model works on
 the names along the path. This module proves that the string operations it
 uses (getParentDir, the prefix test of rename) mean the same on both.
 */
module Paths {

  /** A directory path as the names below the root; [] is "/". */
  type Path = seq<string>

  predicate ValidName(n: string) {
    n != "" && '/' !in n && '\0' !in n
  }

  predicate ValidPath(p: Path) {
    forall i :: 0 <= i < |p| ==> ValidName(p[i])
  }

  function Parent(p: Path): Path
    requires p != []
  {
    p[..|p| - 1]
  }

  /** The string the library keeps for a directory path. */
  function Render(p: Path): (s: string)
    ensures s != "" && s[|s| - 1] == '/'
  {
    if p == [] then "/" else Render(p[..|p| - 1]) + p[|p| - 1] + "/"
  }

  /** std::string::rfind: the last separator before position n, or -1. */
  function LastSeparator(s: string, n: nat): (i: int)
    requires n <= |s|
    ensures -1 <= i < n
    ensures i >= 0 ==> s[i] == '/'
    ensures forall j :: i < j < n ==> s[j] != '/'
  {
    if n == 0 then -1 else if s[n - 1] == '/' then n - 1 else LastSeparator(s, n - 1)
  }

  /** getParentDir: everything up to the last separator before the final character. */
  function GetParentDir(path: string): string {
    if |path| <= 1 then "" else
      var i := LastSeparator(path, |path| - 1);
      if i < 0 then "" else path[..i + 1]
  }

  /** The parent of a path string is the string of the parent path; the root has none. */
  lemma ParentOfRendered(p: Path)
    requires ValidPath(p)
    ensures GetParentDir(Render(p)) == if p == [] then "" else Render(Parent(p))
  {
    if p != [] {
      var r, n := Render(Parent(p)), p[|p| - 1];
      var s := r + n + "/";
      assert s[|r| - 1] == '/';
      forall j | |r| <= j < |s| - 1 ensures s[j] != '/' {
        assert s[j] == n[j - |r|];
      }
      assert LastSeparator(s, |s| - 1) == |r| - 1;
      assert s[..|r|] == r;
    }
  }

  lemma LastName(p: Path)
    requires p != []
    ensures var r := Render(Parent(p));
            |r| < |Render(p)| && Render(p)[|r|..|Render(p)| - 1] == p[|p| - 1]
  {
  }

  lemma {:induction false} RenderInjective(p: Path, q: Path)
    requires ValidPath(p) && ValidPath(q) && Render(p) == Render(q)
    ensures p == q
    decreases |p|
  {
    hide Render, GetParentDir;
    ParentOfRendered(p);
    ParentOfRendered(q);
    if p != [] && q != [] {
      RenderInjective(Parent(p), Parent(q));
      LastName(p);
      LastName(q);
      assert p == Parent(p) + [p[|p| - 1]] && q == Parent(q) + [q[|q| - 1]];
    }
  }

  lemma {:induction false} RenderGrows(p: Path, q: Path)
    requires p <= q
    ensures Render(p) <= Render(q)
    decreases |q|
  {
    if p != q {
      var q' := q[..|q| - 1];
      assert p <= q';
      RenderGrows(p, q');
      assert Render(q)[..|Render(q')|] == Render(q');
    }
  }

  /**
   Comparing the beginning of two path strings, as rename does, tells whether
   one path lies at or below the other.
   */
  lemma {:induction false} PrefixOfRendered(p: Path, q: Path)
    requires ValidPath(p) && ValidPath(q)
    ensures Render(p) <= Render(q) <==> p <= q
    decreases |q|
  {
    if p <= q {
      RenderGrows(p, q);
    }
    if Render(p) <= Render(q) && p != [] && q != [] {
      var s, r, n := Render(q), Render(Parent(q)), q[|q| - 1];
      assert s == r + n + "/";
      if |Render(p)| <= |r| {
        assert Render(p) <= r;
        PrefixOfRendered(p, Parent(q));
      } else {
        forall j | |r| <= j < |s| - 1 ensures s[j] != '/' {
          assert s[j] == n[j - |r|];
        }
        assert s[|Render(p)| - 1] == '/';
        RenderInjective(p, q);
      }
    }
  }
}
