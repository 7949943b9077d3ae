/** Paths of the working directory: how CWD extends them and CDUP shortens them in place. */
module Paths {
  import opened Apr

  /** The absolute path an argument stands for; none for an empty argument. */
  function AbsPath(arg: string, cwd: string): Option<string> {
    if arg == "" then None
    else if arg[0] == '/' then Some(arg)
    else Some(cwd + arg)
  }

  function WithSlash(p: string): string {
    if p != "" && p[|p| - 1] == '/' then p else p + "/"
  }

  /** What a working directory always is: it starts and ends with a slash, and is a C string. */
  predicate DirPath(p: string) {
    p != "" && p[0] == '/' && p[|p| - 1] == '/' && '\0' !in p
  }

  /** Where going backwards from `i` ends: at a slash or at the front. */
  function SlashBefore(p: string, i: nat): (j: nat)
    requires i < |p|
    ensures j <= i && (j == 0 || p[j] == '/') && forall k :: j < k <= i ==> p[k] != '/'
  {
    if i == 0 || p[i] == '/' then i else SlashBefore(p, i - 1)
  }

  /** The directory above, and "/" for itself. */
  function Parent(p: string): string
    requires p != ""
  {
    if |p| == 1 then p else p[..SlashBefore(p, |p| - 2) + 1]
  }

  function Slashes(p: string): nat {
    if p == "" then 0 else (if p[0] == '/' then 1 else 0) + Slashes(p[1..])
  }

  // ---- what CDUP does to a path ---------------------------------------------------------------------

  lemma {:induction false} SlashesConcat(a: string, b: string)
    ensures Slashes(a + b) == Slashes(a) + Slashes(b)
  {
    if a == "" {
      assert a + b == b;
    } else {
      SlashesConcat(a[1..], b);
      assert (a + b)[1..] == a[1..] + b;
    }
  }

  lemma {:induction false} NoSlashes(s: string)
    ensures Slashes(s) == 0 <==> '/' !in s
  {
    if s != "" {
      NoSlashes(s[1..]);
      assert s == [s[0]] + s[1..];
    }
  }

  /** A path is its parent, a last component without slashes, and a slash. */
  lemma LastComponent(p: string) returns (c: string)
    requires DirPath(p) && |p| > 1
    ensures DirPath(Parent(p)) && Parent(p) < p
    ensures p == Parent(p) + (c + "/") && '/' !in c
  {
    var j := SlashBefore(p, |p| - 2);
    c := p[j + 1..|p| - 1];
    forall k | 0 <= k < |c| ensures c[k] != '/' { assert c[k] == p[j + 1 + k]; }
    assert c + "/" == p[j + 1..];
  }

  /** From anywhere but the root, the parent is a working directory with exactly one slash less. */
  lemma ParentRemovesOneSlash(p: string)
    requires DirPath(p) && |p| > 1
    ensures DirPath(Parent(p)) && Parent(p) < p && Slashes(Parent(p)) == Slashes(p) - 1
  {
    hide Parent;
    var c := LastComponent(p);
    NoSlashes(c);
    SlashesConcat(Parent(p), c + "/");
    SlashesConcat(c, "/");
    OneSlash();
  }

  lemma OneSlash()
    ensures Slashes("/") == 1
  {
  }

  lemma SlashesOfDirPath(p: string)
    requires DirPath(p)
    ensures Slashes(p) >= 1 && (|p| > 1 ==> Slashes(p) >= 2)
  {
    if |p| > 1 {
      assert p == "/" + p[1..|p| - 1] + "/";
      SlashesConcat("/" + p[1..|p| - 1], "/");
      SlashesConcat("/", p[1..|p| - 1]);
    }
  }

  /** `n` CDUPs in a row. */
  function Up(p: string, n: nat): string
    requires DirPath(p)
    decreases n
  {
    if n == 0 then p
    else if |p| == 1 then p
    else
      ParentRemovesOneSlash(p);
      Up(Parent(p), n - 1)
  }

  lemma UpStep(p: string, n: nat)
    requires DirPath(p) && 0 < n
    ensures DirPath(Parent(p)) && Up(p, n) == Up(Parent(p), n - 1)
  {
    if |p| > 1 { ParentRemovesOneSlash(p); }
  }

  /** The root is reached after one CDUP per slash but the first, and not before. */
  lemma {:induction false} RootReachedIff(p: string, n: nat)
    requires DirPath(p)
    ensures Up(p, n) == "/" <==> n >= Slashes(p) - 1
    decreases n
  {
    SlashesOfDirPath(p);
    if |p| == 1 {
      assert p == "/" && Slashes(p) == 1 + Slashes(p[1..]) == 1;
    } else if n > 0 {
      ParentRemovesOneSlash(p);
      RootReachedIff(Parent(p), n - 1);
    }
  }

  // ---- CDUP undoes CWD -------------------------------------------------------------------------------

  predicate Component(c: string) { c != "" && '/' !in c && '\0' !in c }

  predicate Components(cs: seq<string>) { forall i :: 0 <= i < |cs| ==> Component(cs[i]) }

  /** Components with a slash behind each. */
  function Slashed(cs: seq<string>): string {
    if cs == [] then "" else Slashed(cs[..|cs| - 1]) + cs[|cs| - 1] + "/"
  }

  lemma {:induction false} SlashedIsDirPath(p: string, cs: seq<string>)
    requires DirPath(p) && Components(cs)
    ensures DirPath(p + Slashed(cs))
  {
    if cs == [] {
      assert p + Slashed(cs) == p;
    } else {
      SlashedIsDirPath(p, cs[..|cs| - 1]);
      assert p + Slashed(cs) == (p + Slashed(cs[..|cs| - 1])) + cs[|cs| - 1] + "/";
    }
  }

  lemma ParentOfLast(p: string, c: string)
    requires DirPath(p) && Component(c)
    ensures DirPath(p + c + "/") && Parent(p + c + "/") == p
  {
    var q := p + c + "/";
    assert q[|p| - 1] == '/';
    assert forall k :: |p| <= k < |q| - 1 ==> q[k] == c[k - |p|] != '/';
    assert SlashBefore(q, |q| - 2) == |p| - 1;
    assert q[..|p|] == p;
  }

  /** As many CDUPs as components were entered lead back to where they were entered from. */
  lemma {:induction false} UpUndoesComponents(p: string, cs: seq<string>)
    requires DirPath(p) && Components(cs)
    ensures DirPath(p + Slashed(cs)) && Up(p + Slashed(cs), |cs|) == p
  {
    SlashedIsDirPath(p, cs);
    if cs == [] {
      assert p + Slashed(cs) == p;
    } else {
      var init := cs[..|cs| - 1];
      SlashedIsDirPath(p, init);
      assert p + Slashed(cs) == (p + Slashed(init)) + cs[|cs| - 1] + "/";
      ParentOfLast(p + Slashed(init), cs[|cs| - 1]);
      UpUndoesComponents(p, init);
    }
  }

  /** The argument of a CWD: components with a slash between them, and perhaps one at the end. */
  function Argument(cs: seq<string>, trailing: bool): string
    requires cs != []
  {
    Slashed(cs[..|cs| - 1]) + cs[|cs| - 1] + (if trailing then "/" else "")
  }

  /** Entering components with one CWD and then going up as often ends where it began. */
  lemma CdupsUndoCwd(cwd: string, cs: seq<string>, trailing: bool)
    requires DirPath(cwd) && Components(cs) && cs != []
    ensures var path := AbsPath(Argument(cs, trailing), cwd);
      && path.Some? && DirPath(WithSlash(path.value))
      && Up(WithSlash(path.value), |cs|) == cwd
  {
    hide Slashed, Up;
    var front := Slashed(cs[..|cs| - 1]) + cs[|cs| - 1];
    FirstCharacter(cs[..|cs| - 1], cs[|cs| - 1]);
    SlashedSnoc(cs);
    SlashedIsDirPath(cwd, cs);
    UpUndoesComponents(cwd, cs);
    EndsUnslashed(Slashed(cs[..|cs| - 1]), cs[|cs| - 1]);
    WithSlashOf(cwd, front, trailing);
  }

  lemma EndsUnslashed(a: string, c: string)
    requires Component(c)
    ensures (a + c)[|a + c| - 1] != '/'
  {
    assert (a + c)[|a + c| - 1] == c[|c| - 1];
  }

  lemma WithSlashOf(cwd: string, front: string, trailing: bool)
    requires front != "" && front[0] != '/' && front[|front| - 1] != '/'
    ensures var arg := front + (if trailing then "/" else "");
      AbsPath(arg, cwd) == Some(cwd + arg) && WithSlash(cwd + arg) == cwd + (front + "/")
  {
    var arg := front + (if trailing then "/" else "");
    assert arg[0] == front[0];
    assert (cwd + arg)[|cwd + arg| - 1] == arg[|arg| - 1];
    if trailing {
      assert cwd + arg == cwd + (front + "/");
    } else {
      assert arg == front && (cwd + arg) + "/" == cwd + (front + "/");
    }
  }

  lemma SlashedSnoc(cs: seq<string>)
    requires cs != []
    ensures Slashed(cs) == Slashed(cs[..|cs| - 1]) + cs[|cs| - 1] + "/"
  {
  }

  lemma {:induction false} FirstCharacter(init: seq<string>, last: string)
    requires Components(init) && Component(last)
    ensures (Slashed(init) + last) != "" && (Slashed(init) + last)[0] != '/'
  {
    if init != [] {
      FirstCharacter(init[..|init| - 1], init[|init| - 1]);
      assert Slashed(init) == (Slashed(init[..|init| - 1]) + init[|init| - 1]) + "/";
    }
  }

  // ---- C strings ---------------------------------------------------------------------------------------

  /** The characters in front of the terminator. */
  function CStr(s: seq<char>): (r: string)
    ensures |r| <= |s| && '\0' !in r
    ensures '\0' in s ==> |r| < |s| && s[|r|] == '\0'
    ensures r == s[..|r|]
  {
    if s == [] || s[0] == '\0' then [] else [s[0]] + CStr(s[1..])
  }

  lemma {:induction false} CStrIs(s: seq<char>, n: nat)
    requires n < |s| && s[n] == '\0' && '\0' !in s[..n]
    ensures CStr(s) == s[..n]
  {
    if n > 0 {
      assert s[0] == s[..n][0] && s[1..][..n - 1] == s[..n][1..];
      CStrIs(s[1..], n - 1);
    }
  }

  method Strlen(a: array<char>) returns (n: nat)
    requires '\0' in a[..]
    ensures n == |CStr(a[..])| && n < a.Length && a[n] == '\0'
  {
    n := 0;
    while a[n] != '\0'
      invariant n <= |CStr(a[..])|
      decreases a.Length - n
    {
      n := n + 1;
    }
  }

  method Strdup(s: string) returns (a: array<char>)
    requires '\0' !in s
    ensures fresh(a) && '\0' in a[..] && CStr(a[..]) == s
  {
    a := new char[|s| + 1](i => if 0 <= i < |s| then s[i] else '\0');
    assert a[..][|s|] == '\0' && a[..][..|s|] == s;
    CStrIs(a[..], |s|);
  }

  /** Cuts the string in place behind the slash in front of its last component; the root stays. */
  method CutLast(cwd: array<char>) returns (atRoot: bool)
    requires '\0' in cwd[..] && CStr(cwd[..]) != ""
    modifies cwd
    ensures '\0' in cwd[..] && CStr(cwd[..]) == Parent(old(CStr(cwd[..])))
    ensures atRoot <==> |old(CStr(cwd[..]))| == 1
  {
    ghost var p := CStr(cwd[..]);
    var len := Strlen(cwd);
    if 1 == len { return true; }
    var pos := len - 2;
    while pos != 0
      invariant 0 <= pos <= len - 2
      invariant SlashBefore(p, pos) == SlashBefore(p, len - 2)
      decreases pos
    {
      if cwd[pos] == '/' { break; }
      pos := pos - 1;
    }
    assert cwd[pos] == p[pos];
    assert pos == SlashBefore(p, len - 2);
    cwd[pos + 1] := '\0';
    assert cwd[..][..pos + 1] == p[..pos + 1];
    assert cwd[..][pos + 1] == '\0';
    CStrIs(cwd[..], pos + 1);
    atRoot := false;
  }
}
