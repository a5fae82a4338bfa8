/** File-name extensions. Foundation's `pathExtension` is not visible here;
    this module fixes the rule the scenarios in DragViewScenarios use: the text after
    the last '.' of the last '/'-separated component, and the empty string
    when that component has no '.'. */
module PathNames {

  type Path = string

  /** Index of the last `c` among the first `n` characters of `s`, or -1
      when there is none. */
  function LastIndexBefore(s: string, c: char, n: nat): (k: int)
    requires n <= |s|
    ensures -1 <= k < n
    ensures k >= 0 ==> s[k] == c
    decreases n
  {
    if n == 0 then -1
    else if s[n - 1] == c then n - 1
    else LastIndexBefore(s, c, n - 1)
  }

  /** No `c` stands between LastIndexBefore and `n`. */
  lemma {:induction false} LastIndexBeforeIsLast(s: string, c: char, n: nat)
    requires n <= |s|
    ensures forall j :: LastIndexBefore(s, c, n) < j < n ==> s[j] != c
    decreases n
  {
    if n > 0 && s[n - 1] != c {
      LastIndexBeforeIsLast(s, c, n - 1);
    }
  }

  /** Index of the last `c` in `s`, or -1 when `c` does not occur. */
  function LastIndexOf(s: string, c: char): (k: int)
    ensures -1 <= k < |s|
    ensures k >= 0 ==> s[k] == c
  {
    LastIndexBefore(s, c, |s|)
  }

  /** No `c` follows LastIndexOf. */
  lemma LastIndexOfIsLast(s: string, c: char)
    ensures forall j :: LastIndexOf(s, c) < j < |s| ==> s[j] != c
  {
    LastIndexBeforeIsLast(s, c, |s|);
  }

  /** Being a `c` (or -1) with no `c` after it determines LastIndexOf. */
  lemma LastIndexOfUnique(s: string, c: char, k: int)
    requires -1 <= k < |s|
    requires k >= 0 ==> s[k] == c
    requires forall j :: k < j < |s| ==> s[j] != c
    ensures LastIndexOf(s, c) == k
  {
    LastIndexOfIsLast(s, c);
  }

  /** Text without `c` appended to `s` does not move the last `c`. */
  lemma LastIndexOfAppend(s: string, t: string, c: char)
    requires c !in t
    ensures LastIndexOf(s + t, c) == LastIndexOf(s, c)
  {
    var k := LastIndexOf(s, c);
    LastIndexOfIsLast(s, c);
    var st := s + t;
    forall j | k < j < |st| ensures st[j] != c {
      if j < |s| {
        assert st[j] == s[j];
      } else {
        assert st[j] == t[j - |s|];
      }
    }
    if k >= 0 {
      assert st[k] == s[k];
    }
    LastIndexOfUnique(st, c, k);
  }

  /** The last component of a path: what follows its last '/'. */
  function LastComponent(p: Path): (name: string)
  {
    p[LastIndexOf(p, '/') + 1..]
  }

  /** The extension of a path: what follows the last '.' of its last
      component, or "" when that component has no '.'. */
  function PathExtension(p: Path): (ext: string)
  {
    var name := LastComponent(p);
    var dot := LastIndexOf(name, '.');
    if dot < 0 then "" else name[dot + 1..]
  }

  /** No character of `s` is `c`. */
  predicate Avoids(s: string, c: char)
  {
    forall j :: 0 <= j < |s| ==> s[j] != c
  }

  /** What follows a position with no `c` after it holds no `c`. */
  lemma AfterLastAvoids(s: string, c: char, k: int)
    requires -1 <= k < |s|
    requires forall j :: k < j < |s| ==> s[j] != c
    ensures Avoids(s[k + 1..], c)
  {
    var tail := s[k + 1..];
    forall j | 0 <= j < |tail| ensures tail[j] != c {
      assert tail[j] == s[k + 1 + j];
    }
  }

  lemma AvoidsDrop(s: string, k: nat, c: char)
    requires Avoids(s, c) && k <= |s|
    ensures Avoids(s[k..], c)
  {
    var tail := s[k..];
    forall j | 0 <= j < |tail| ensures tail[j] != c {
      assert tail[j] == s[k + j];
    }
  }

  /** The last component holds no '/'. */
  lemma LastComponentAvoidsSlash(p: Path)
    ensures Avoids(LastComponent(p), '/')
  {
    LastIndexOfIsLast(p, '/');
    AfterLastAvoids(p, '/', LastIndexOf(p, '/'));
  }

  /** The extension holds no '.' and no '/'. */
  lemma ExtensionHasNoSeparator(p: Path)
    ensures Avoids(PathExtension(p), '.') && Avoids(PathExtension(p), '/')
  {
    var name := LastComponent(p);
    LastComponentAvoidsSlash(p);
    var dot := LastIndexOf(name, '.');
    if dot >= 0 {
      LastIndexOfIsLast(name, '.');
      AfterLastAvoids(name, '.', dot);
      AvoidsDrop(name, dot + 1, '/');
    }
  }

  /** A path with an extension is a stem, a '.', and the extension. */
  lemma ExtensionSplit(p: Path)
    requires PathExtension(p) != []
    ensures var ext := PathExtension(p);
      |ext| < |p| && p == p[..|p| - |ext| - 1] + "." + ext
  {
  }

  /** Appending "." + e to any stem gives a path whose extension is e,
      provided e itself holds no '.' and no '/'. */
  lemma {:induction false} ExtensionOfSuffix(stem: string, e: string)
    requires '.' !in e && '/' !in e
    ensures PathExtension(stem + "." + e) == e
  {
    var p := stem + "." + e;
    var slash := LastIndexOf(p, '/');
    assert p == (stem + ".") + e;
    LastIndexOfAppend(stem + ".", e, '/');
    assert slash < |stem| + 1;
    var name := LastComponent(p);
    var head := p[slash + 1..|stem| + 1];
    assert name == head + e;
    assert head[|head| - 1] == '.';
    LastIndexOfAppend(head, e, '.');
    assert LastIndexOf(name, '.') == |head| - 1;
    assert name[|head|..] == e;
  }

  /** A last component without '.' has no extension, whatever the
      directories above it are called. */
  lemma {:induction false} NoDotNoExtension(dir: string, name: string)
    requires '.' !in name && '/' !in name
    ensures PathExtension(dir + "/" + name) == ""
  {
    var p := dir + "/" + name;
    assert p == (dir + "/") + name;
    LastIndexOfAppend(dir + "/", name, '/');
    assert LastComponent(p) == name;
    LastIndexOfIsLast(name, '.');
  }
}
