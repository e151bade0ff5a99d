/** `relativeToAbsPaths` of app/utils.ts: a directory path as typed to `cd`
    becomes an absolute path, given the working directory `cwd` and the home
    directory `home`, which the source reads from the process.

    The first name picks the starting directory, and the other names are
    walked one at a time: `.` is skipped, `..` goes to the parent, and any
    other name is appended with a slash after it. Finally one trailing slash
    is dropped. */
module Paths {
  import opened Strings

  // ---------------------------------------------------------------------------
  // Node's path.dirname (POSIX flavour)

  /** The end of the directory part of `p`, scanning down from position `i`
      to position 1. `matchedSlash` holds while only slashes have been seen,
      so trailing slashes are skipped. -1 when no separating slash is found. */
  function DirEnd(p: string, i: int, matchedSlash: bool): (e: int)
    requires i < |p|
    ensures e == -1 || (1 <= e <= i && p[e] == '/')
    decreases i
  {
    if i < 1 then -1
    else if p[i] == '/' then (if !matchedSlash then i else DirEnd(p, i - 1, matchedSlash))
    else DirEnd(p, i - 1, false)
  }

  /** `path.dirname(p)`: `.` for the empty path; the path up to its last
      separating slash; `/` or `.` when there is none; the special result `//`
      when that slash is the second character of a rooted path. */
  function Dirname(p: string): (d: string)
    ensures d != []
    ensures p != [] && p[0] == '/' ==> d[0] == '/'
  {
    if p == [] then "."
    else
      var end := DirEnd(p, |p| - 1, true);
      var hasRoot := p[0] == '/';
      if end == -1 then (if hasRoot then "/" else ".")
      else if hasRoot && end == 1 then "//"
      else p[..end]
  }

  /** Non-slash characters down to position `j` + 1 are passed over. */
  lemma {:induction false} DirEndOverName(p: string, i: int, j: int, m: bool)
    requires 0 <= j < i < |p|
    requires forall k :: j < k <= i ==> p[k] != '/'
    ensures DirEnd(p, i, m) == DirEnd(p, j, false)
    decreases i
  {
    if i - 1 > j {
      DirEndOverName(p, i - 1, j, false);
    }
  }

  /** The parent of a directory `w + name + "/"`, where `w` ends in a slash,
      is `w` without that slash. */
  lemma DirnameChild(w: string, name: string)
    requires |w| >= 2 && w[|w| - 1] == '/'
    requires !(w[0] == '/' && |w| == 2)
    requires name != [] && '/' !in name
    ensures Dirname(w + name + "/") == w[..|w| - 1]
  {
    var p := w + name + "/";
    var last := |p| - 1;
    assert p[last] == '/';
    assert forall k :: |w| <= k < last ==> p[k] == name[k - |w|];
    DirEndOverName(p, last - 1, |w| - 1, true);
    assert p[|w| - 1] == '/';
    assert p[..|w| - 1] == w[..|w| - 1];
  }

  /** The parent of a name directly under the root is the root. */
  lemma DirnameTopLevel(name: string)
    requires name != [] && '/' !in name
    ensures Dirname("/" + name + "/") == "/"
  {
    var p := "/" + name + "/";
    var last := |p| - 1;
    assert forall k :: 1 <= k < last ==> p[k] == name[k - 1];
    if last - 1 > 0 {
      DirEndOverName(p, last - 1, 0, true);
    }
  }

  /** The parent of the root is the root. */
  lemma DirnameRoot()
    ensures Dirname("/") == "/"
  {
  }

  // ---------------------------------------------------------------------------
  // relativeToAbsPaths (app/utils.ts:88-133)

  /** `dirPath.split('/').filter(Boolean)`: the names of a path. */
  function Names(p: string): (ns: seq<string>)
    ensures forall k :: 0 <= k < |ns| ==> ns[k] != [] && '/' !in ns[k]
  {
    Fields(p, '/')
  }

  /** The starting directory and the index of the first name still to walk:
      the root for a rooted path; home for the empty path or a leading `~`;
      the working directory for `.`; its parent for `..`; and otherwise the
      first name, anchored at the root. */
  function Start(dirPath: string, cwd: string, home: string): (r: (string, nat))
    ensures r.0 != [] && r.0[|r.0| - 1] == '/'
  {
    var names := Names(dirPath);
    if |dirPath| > 0 && dirPath[0] == '/' then ("/", 0)
    else if dirPath == "" then (home + "/", 1)
    else
      assert names != [] && names[0] != [] by {
        assert SplitOn(dirPath, '/')[0] != [];
      }
      if names[0] == "~" then (home + "/", 1)
      else if names[0] == "." then (cwd + "/", 1)
      else if names[0] == ".." then (Dirname(cwd) + "/", 1)
      else ("/" + names[0] + "/", 1)
  }

  /** One name of the walk. */
  function Step(w: string, name: string): (r: string)
    ensures w != [] ==> r != []
    ensures w != [] && w[0] == '/' ==> r[0] == '/'
  {
    if name == "." then w
    else if name == ".." then Dirname(w)
    else w + name + "/"
  }

  /** The walk over the names `ns`, from the directory `w`. */
  function Walk(w: string, ns: seq<string>): (r: string)
    ensures w != [] ==> r != []
    ensures (forall k :: 0 <= k < |ns| ==> ns[k] == ".") ==> r == w
    decreases |ns|
  {
    if ns == [] then w else Walk(Step(w, ns[0]), ns[1..])
  }

  /** One trailing slash is dropped, unless the path is the root. */
  function Finish(w: string): (r: string)
    ensures |w| > 1 && w[|w| - 1] == '/' ==> r + "/" == w
    ensures !(|w| > 1 && w[|w| - 1] == '/') ==> r == w
  {
    if |w| > 1 && w[|w| - 1] == '/' then w[..|w| - 1] else w
  }

  /** The names from index `i` on; none when `i` is past the end, as for
      the empty path, which has no names but starts walking at index 1. */
  function From(ns: seq<string>, i: nat): seq<string>
  {
    if i < |ns| then ns[i..] else []
  }

  /** `relativeToAbsPaths(dirPath)` with the working and home directories given. */
  function RelToAbs(dirPath: string, cwd: string, home: string): (r: string)
    ensures r != []
    ensures dirPath != [] && dirPath[0] == '/' ==> r == Finish(Walk("/", Names(dirPath)))
  {
    var start := Start(dirPath, cwd, home);
    Finish(Walk(start.0, From(Names(dirPath), start.1)))
  }

  /** The source's loop: `workingDir` is rebuilt one name at a time. */
  method RelativeToAbsPaths(dirPath: string, cwd: string, home: string) returns (workingDir: string)
    ensures workingDir == RelToAbs(dirPath, cwd, home)
  {
    var dirNames := Names(dirPath);
    ghost var start := Start(dirPath, cwd, home);
    ghost var walked := Walk(start.0, From(dirNames, start.1));
    assert RelToAbs(dirPath, cwd, home) == Finish(walked);
    var i: nat := 1;
    if dirPath != [] && dirPath[0] != '/' {
      FirstName(dirPath);
    }
    if |dirPath| > 0 && dirPath[0] == '/' {
      workingDir := "/";
      i := 0;
      assert (workingDir, i) == start;
    } else if dirPath == "" || dirNames[0] == "~" {
      workingDir := home + "/";
      assert (workingDir, i) == start;
    } else if dirNames[0] == "." {
      workingDir := cwd + "/";
      assert (workingDir, i) == start;
    } else if dirNames[0] == ".." {
      workingDir := Dirname(cwd) + "/";
      assert (workingDir, i) == start;
    } else {
      workingDir := "/" + dirNames[0] + "/";
      assert (workingDir, i) == start;
    }

    while i < |dirNames|
      invariant Walk(workingDir, From(dirNames, i)) == walked
    {
      WalkFrom(workingDir, dirNames, i);
      if dirNames[i] == "." {
        i := i + 1;
        continue;
      } else if dirNames[i] == ".." {
        workingDir := Dirname(workingDir);
      } else {
        workingDir := workingDir + dirNames[i] + "/";
      }
      i := i + 1;
    }
    assert From(dirNames, i) == [];

    if |workingDir| > 1 && workingDir[|workingDir| - 1] == '/' {
      workingDir := workingDir[..|workingDir| - 1];
    }
  }

  /** The walk from index `i` takes one step on the name at `i`. */
  lemma WalkFrom(w: string, ns: seq<string>, i: nat)
    requires i < |ns|
    ensures Walk(w, From(ns, i)) == Walk(Step(w, ns[i]), From(ns, i + 1))
  {
    assert From(ns, i)[0] == ns[i];
    assert From(ns, i)[1..] == From(ns, i + 1);
  }

  // ---------------------------------------------------------------------------
  // Properties

  /** The names of two paths joined by a slash. */
  lemma NamesConcat(a: string, b: string)
    ensures Names(a + "/" + b) == Names(a) + Names(b)
  {
    SplitConcat(a, b, '/');
    DropEmptyConcat(SplitOn(a, '/'), SplitOn(b, '/'));
  }

  /** A single name is the one name of its path. */
  lemma OneName(x: string)
    requires x != [] && '/' !in x
    ensures Names(x) == [x]
  {
    SplitWithout(x, '/');
  }

  /** A path that does not start at the root has a first name. */
  lemma FirstName(p: string)
    requires p != [] && p[0] != '/'
    ensures Names(p) != [] && Names(p)[0] == SplitOn(p, '/')[0]
  {
  }

  /** Walking two lists of names is walking the first, then the second. */
  lemma {:induction false} WalkConcat(w: string, xs: seq<string>, ys: seq<string>)
    ensures Walk(w, xs + ys) == Walk(Walk(w, xs), ys)
    decreases |xs|
  {
    if xs == [] {
      assert xs + ys == ys;
    } else {
      assert (xs + ys)[0] == xs[0];
      assert (xs + ys)[1..] == xs[1..] + ys;
      WalkConcat(Step(w, xs[0]), xs[1..], ys);
    }
  }

  /** The names of `a` followed by more names: the same start, and the
      remaining names of `a` walked before the new ones. */
  lemma StartExtended(a: string, more: seq<string>, b: string, cwd: string, home: string)
    requires a != []
    requires b != [] && b[0] == a[0]
    requires Names(b) == Names(a) + more
    ensures Start(b, cwd, home) == Start(a, cwd, home)
    ensures var s := Start(a, cwd, home).1;
      s <= |Names(a)| && From(Names(b), s) == From(Names(a), s) + more
  {
    var s := Start(a, cwd, home).1;
    if a[0] != '/' {
      FirstName(a);
      FirstName(b);
    }
    assert s <= |Names(a)|;
    assert Names(b)[s..] == Names(a)[s..] + more;
  }

  /** The empty path and `~` lead home. */
  lemma HomePaths(cwd: string, home: string)
    ensures RelToAbs("", cwd, home) == (if home == "" then "/" else home)
    ensures RelToAbs("~", cwd, home) == (if home == "" then "/" else home)
    ensures RelToAbs("~/", cwd, home) == (if home == "" then "/" else home)
  {
    OneName("~");
    NamesConcat("~", "");
    assert "~" + "/" + "" == "~/";
    assert Names("") == [];
    assert (home + "/")[..|home|] == home;
  }

  /** `.` is the working directory and `..` its parent. */
  lemma DotPaths(cwd: string, home: string)
    ensures RelToAbs(".", cwd, home) == (if cwd == "" then "/" else cwd)
    ensures RelToAbs("..", cwd, home) == Dirname(cwd)
  {
    OneName(".");
    OneName("..");
    assert (cwd + "/")[..|cwd|] == cwd;
    assert (Dirname(cwd) + "/")[..|Dirname(cwd)|] == Dirname(cwd);
  }

  /** The root is the root, and so is going up from it. */
  lemma RootPaths(cwd: string, home: string)
    ensures RelToAbs("/", cwd, home) == "/"
    ensures RelToAbs("/..", cwd, home) == "/"
  {
    assert Names("") == [];
    NamesConcat("", "");
    assert "" + "/" + "" == "/";
    OneName("..");
    NamesConcat("", "..");
    assert "" + "/" + ".." == "/..";
    assert Walk("/", [".."]) == Walk(Dirname("/"), []);
  }

  /** Going up or staying put at the root stays at the root. */
  lemma {:induction false} UpAtRoot(ns: seq<string>)
    requires forall k :: 0 <= k < |ns| ==> ns[k] == "." || ns[k] == ".."
    ensures Walk("/", ns) == "/"
    decreases |ns|
  {
    if ns != [] {
      DirnameRoot();
      assert Step("/", ns[0]) == "/";
      UpAtRoot(ns[1..]);
    }
  }

  /** A plain leading name is anchored at the root. */
  lemma PlainName(x: string, cwd: string, home: string)
    requires x != [] && '/' !in x
    requires x != "~" && x != "." && x != ".."
    ensures RelToAbs(x, cwd, home) == "/" + x
  {
    SplitWithout(x, '/');
    assert Names(x) == [x];
    assert ("/" + x + "/")[..|x| + 1] == "/" + x;
  }

  /** One trailing slash on the input changes nothing. */
  lemma TrailingSlash(p: string, cwd: string, home: string)
    requires p != []
    ensures RelToAbs(p + "/", cwd, home) == RelToAbs(p, cwd, home)
  {
    assert p + "/" + "" == p + "/";
    NamesConcat(p, "");
    assert Names("") == [];
    assert Names(p + "/") == Names(p) + [];
    StartExtended(p, [], p + "/", cwd, home);
    assert From(Names(p), Start(p, cwd, home).1) + [] == From(Names(p), Start(p, cwd, home).1);
  }

  /** A `.` segment after the first name is skipped. */
  lemma DotSegment(a: string, b: string, cwd: string, home: string)
    requires a != []
    ensures RelToAbs(a + "/./" + b, cwd, home) == RelToAbs(a + "/" + b, cwd, home)
  {
    var start := Start(a, cwd, home);
    assert a + "/./" + b == a + "/" + ("." + "/" + b);
    NamesConcat(a, "." + "/" + b);
    NamesConcat(".", b);
    OneName(".");
    NamesConcat(a, b);
    assert Names(a) + (["."] + Names(b)) == Names(a) + ["."] + Names(b);
    StartExtended(a, ["."] + Names(b), a + "/./" + b, cwd, home);
    StartExtended(a, Names(b), a + "/" + b, cwd, home);
    var rest := From(Names(a), start.1);
    WalkConcat(start.0, rest, ["."] + Names(b));
    WalkConcat(start.0, rest, Names(b));
    assert Walk(Walk(start.0, rest), ["."] + Names(b)) == Walk(Walk(start.0, rest), Names(b)) by {
      assert (["."] + Names(b))[1..] == Names(b);
    }
  }

  /** A name other than `.`, `..` and `~` that is neither empty nor contains a slash. */
  predicate Ordinary(n: string)
  {
    n != [] && '/' !in n && n != "." && n != ".." && n != "~"
  }

  /** An ordinary first name is appended with a slash. */
  lemma WalkOrdinary(w: string, ns: seq<string>)
    requires ns != [] && Ordinary(ns[0])
    ensures Walk(w, ns) == Walk(w + ns[0] + "/", ns[1..])
  {
  }

  /** Regrouping a name, a slash and the names after it. */
  lemma SlashGlue(w: string, name: string, j: string)
    ensures w + name + "/" + j + "/" == w + (name + ['/'] + j) + "/"
  {
  }

  /** Walking ordinary names appends each with a slash. */
  lemma {:induction false} WalkNames(w: string, ns: seq<string>)
    requires forall k :: 0 <= k < |ns| ==> Ordinary(ns[k])
    requires ns != []
    ensures Walk(w, ns) == w + Join(ns, '/') + "/"
    decreases |ns|
  {
    var w' := w + ns[0] + "/";
    WalkOrdinary(w, ns);
    if |ns| > 1 {
      WalkNames(w', ns[1..]);
      var j := Join(ns[1..], '/');
      assert Join(ns, '/') == ns[0] + ['/'] + j;
      SlashGlue(w, ns[0], j);
    }
  }

  /** The names of a canonical absolute path. */
  lemma CanonicalNames(ns: seq<string>)
    requires ns != []
    requires forall k :: 0 <= k < |ns| ==> Ordinary(ns[k])
    ensures Names("/" + Join(ns, '/')) == ns
  {
    var p := "/" + Join(ns, '/');
    assert p == [] + ['/'] + Join(ns, '/');
    SplitConcat([], Join(ns, '/'), '/');
    SplitJoin(ns, '/');
    assert SplitOn(p, '/') == [[]] + ns;
    assert DropEmpty([[]] + ns) == DropEmpty(ns);
    DropEmptyKeeps(ns);
  }

  /** A canonical absolute path, with ordinary names and no trailing slash,
      is its own absolute path. */
  lemma CanonicalFixedPoint(ns: seq<string>, cwd: string, home: string)
    requires ns != []
    requires forall k :: 0 <= k < |ns| ==> Ordinary(ns[k])
    ensures RelToAbs("/" + Join(ns, '/'), cwd, home) == "/" + Join(ns, '/')
  {
    var p := "/" + Join(ns, '/');
    CanonicalNames(ns);
    assert Start(p, cwd, home) == ("/", 0);
    assert From(ns, 0) == ns;
    WalkNames("/", ns);
    assert "/" + Join(ns, '/') + "/" == p + "/";
    assert (p + "/")[..|p|] == p;
  }

  /** `DropEmpty` leaves a list of non-empty pieces as it is. */
  lemma {:induction false} DropEmptyKeeps(ns: seq<string>)
    requires forall k :: 0 <= k < |ns| ==> ns[k] != []
    ensures DropEmpty(ns) == ns
    decreases |ns|
  {
    if ns != [] {
      DropEmptyKeeps(ns[1..]);
    }
  }

  /** After `..` the walk has no trailing slash, so the next name is glued to
      the last one: `/a/b/../c` is `/ac`. */
  lemma GluedAfterParent(a: string, b: string, c: string, cwd: string, home: string)
    requires Ordinary(a) && Ordinary(b) && Ordinary(c)
    ensures RelToAbs("/" + a + "/" + b + "/" + ".." + "/" + c, cwd, home) == "/" + a + c
  {
    var p := "/" + a + "/" + b + "/" + ".." + "/" + c;
    var ns := [a, b, "..", c];
    GluedNames(a, b, c);
    assert Start(p, cwd, home) == ("/", 0);
    assert From(ns, 0) == ns;
    var w1 := "/" + a + "/";
    assert Walk("/", ns) == Walk(w1, ns[1..]);
    var w2 := w1 + b + "/";
    assert Walk(w1, ns[1..]) == Walk(w2, ns[2..]);
    DirnameChild(w1, b);
    var w3 := w1[..|w1| - 1];
    assert w3 == "/" + a;
    assert Walk(w2, ns[2..]) == Walk(w3, ns[3..]);
    var w4 := w3 + c + "/";
    assert Walk(w3, ns[3..]) == Walk(w4, []);
    assert Finish(w4) == "/" + a + c;
  }

  /** The names of `/a/b/../c`. */
  lemma GluedNames(a: string, b: string, c: string)
    requires Ordinary(a) && Ordinary(b) && Ordinary(c)
    ensures Names("/" + a + "/" + b + "/" + ".." + "/" + c) == [a, b, "..", c]
  {
    assert Names("") == [];
    NameAfter("", a);
    assert "" + "/" + a == "/" + a;
    var x1 := "/" + a + "/" + b;
    NameAfter("/" + a, b);
    var x2 := x1 + "/" + "..";
    NameAfter(x1, "..");
    NameAfter(x2, c);
  }

  /** One more name after a slash. */
  lemma NameAfter(x: string, y: string)
    requires y != [] && '/' !in y
    ensures Names(x + "/" + y) == Names(x) + [y]
  {
    NamesConcat(x, y);
    OneName(y);
  }

  /** The walk keeps a path absolute. */
  lemma {:induction false} WalkAbsolute(w: string, ns: seq<string>)
    requires w != [] && w[0] == '/'
    ensures Walk(w, ns) != [] && Walk(w, ns)[0] == '/'
    decreases |ns|
  {
    if ns != [] {
      WalkAbsolute(Step(w, ns[0]), ns[1..]);
    }
  }

  /** With an absolute working directory and an absolute or empty home, every
      path comes out absolute. */
  lemma Absolute(dirPath: string, cwd: string, home: string)
    requires cwd != [] && cwd[0] == '/'
    requires home == [] || home[0] == '/'
    ensures RelToAbs(dirPath, cwd, home) != []
    ensures RelToAbs(dirPath, cwd, home)[0] == '/'
  {
    var start := Start(dirPath, cwd, home);
    assert start.0[0] == '/';
    WalkAbsolute(start.0, From(Names(dirPath), start.1));
  }
}
