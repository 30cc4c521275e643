/** `_safe_path`: join a caller's path onto the mounted directory, normalise it,
    and accept it only if the normalised text begins with "/workdir". */
module Sandbox {
  import opened Wrappers
  import opened PosixPath

  /** The volume the user mounts into the container. */
  const WORKDIR: string := "/workdir"
  /** The name of the mounted directory, WORKDIR without its slash. */
  const ROOT_NAME: string := "workdir"
  const ESCAPE_MESSAGE: string := "Path escapes /workdir – forbidden"

  /** `s.startswith(prefix)`. */
  predicate StartsWith(s: string, prefix: string)
  {
    |prefix| <= |s| && s[..|prefix|] == prefix
  }

  /** Containment by components: the directory itself or a path below it. */
  predicate Within(p: string)
  {
    p == WORKDIR || StartsWith(p, WORKDIR + [SEP])
  }

  /** `os.path.join(WORKDIR, path)`: an absolute argument replaces the root. */
  function JoinRoot(path: string): (joined: string)
    ensures |joined| >= 1 && joined[0] == SEP
    ensures |path| >= 1 && path[0] == SEP ==> joined == path
  {
    if |path| >= 1 && path[0] == SEP then path else WORKDIR + [SEP] + path
  }

  /** `_safe_path(path)`. The joined path is always absolute, so `os.path.abspath`
      does not consult the working directory and is `normpath` alone. */
  function SafePath(path: string): (r: Result<string, PyError>)
    ensures r.Ok? ==> StartsWith(r.value, WORKDIR) && Canonical(r.value)
    ensures r.Err? ==> r.error == ValueError(ESCAPE_MESSAGE)
  {
    var resolved := NormPath(JoinRoot(path));
    ResolvedShape(JoinRoot(path));
    if StartsWith(resolved, WORKDIR) then Ok(resolved) else Err(ValueError(ESCAPE_MESSAGE))
  }

  /** A normalised absolute path that passes the prefix test is canonical,
      which rules out a `//` path (see `DoubleSlashRejected`). */
  lemma ResolvedShape(p: string)
    requires |p| >= 1 && p[0] == SEP
    ensures StartsWith(NormPath(p), WORKDIR) ==> Canonical(NormPath(p))
  {
    if LeadingSlashes(p) == 1 {
      NormPathAbsolute(p);
    } else {
      NormPathDoubleSlash(p);
      assert NormPath(p)[1] != WORKDIR[1];
    }
  }

  /** Whether a string starts with a separator-free prefix is decided by its
      first word when the word is followed by a separator or by nothing. */
  lemma WordPrefix(w: string, tail: string, prefix: string)
    requires SEP !in w && SEP !in prefix
    requires tail == [] || tail[0] == SEP
    ensures StartsWith(w + tail, prefix) <==> StartsWith(w, prefix)
  {
    if |w| >= |prefix| {
      assert (w + tail)[..|prefix|] == w[..|prefix|];
    } else if |w + tail| >= |prefix| {
      assert tail[0] == SEP && prefix[|w|] != SEP;
      assert (w + tail)[..|prefix|][|w|] != prefix[|w|];
    }
  }

  /** A canonical path splits as a slash, its first component, then the rest. */
  lemma FirstComponent(p: string)
    requires Canonical(p) && |p| > 1
    ensures var cs := Segments(p);
      |cs| >= 1 &&
      p == [SEP] + cs[0] + (if |cs| == 1 then "" else [SEP] + Join(cs[1..]))
  {
    CanonicalPathOf(p);
  }

  /** What the textual test means on a normalised path: it accepts exactly the
      paths whose first component begins with "workdir", while containment
      holds exactly when that component IS "workdir". */
  lemma PrefixTestMeaning(p: string)
    requires Canonical(p)
    ensures StartsWith(p, WORKDIR) <==> |Segments(p)| >= 1 && StartsWith(Segments(p)[0], ROOT_NAME)
    ensures Within(p) <==> |Segments(p)| >= 1 && Segments(p)[0] == ROOT_NAME
  {
    if |p| > 1 {
      FirstComponent(p);
      var cs := Segments(p);
      var w := cs[0];
      var tail := if |cs| == 1 then "" else [SEP] + Join(cs[1..]);
      CanonicalPathOf(p);
      assert SEP !in w;
      assert p[1..] == w + tail;
      WordPrefix(w, tail, ROOT_NAME);
      SlashPrefix(p);
      WithinMeaning(p, w, tail);
    }
  }

  lemma SlashPrefix(p: string)
    requires |p| >= 1 && p[0] == SEP
    ensures StartsWith(p, WORKDIR) <==> StartsWith(p[1..], ROOT_NAME)
  {
    var root := [SEP] + ROOT_NAME;
    assert WORKDIR == root && root[1..] == ROOT_NAME;
    if |p| >= |WORKDIR| {
      assert p[..|WORKDIR|] == [SEP] + p[1..][..|ROOT_NAME|];
    }
  }

  lemma WithinMeaning(p: string, w: string, tail: string)
    requires |p| > 1 && p[0] == SEP && p[1..] == w + tail
    requires SEP !in w && w != ""
    requires tail == [] || tail[0] == SEP
    ensures Within(p) <==> w == ROOT_NAME
  {
    assert p == [SEP] + w + tail;
    if w == ROOT_NAME {
      if tail != [] {
        assert p[..|WORKDIR| + 1] == [SEP] + w + [tail[0]];
      }
    } else {
      WordPrefix(w, tail, ROOT_NAME);
      SlashPrefix(p);
      if StartsWith(w, ROOT_NAME) {
        assert |w| > |ROOT_NAME|;
        assert p[|WORKDIR|] == w[|ROOT_NAME|] != SEP;
      }
    }
  }

  /** Normalising an accepted result changes nothing, and resolving it again
      gives it back. */
  lemma SafePathIdempotent(path: string)
    requires SafePath(path).Ok?
    ensures NormPath(SafePath(path).value) == SafePath(path).value
    ensures SafePath(SafePath(path).value) == SafePath(path)
  {
    var a := SafePath(path).value;
    NormPathCanonical(a);
  }

  /** An absolute argument in normal form discards the root: it is accepted
      unchanged when it begins with "/workdir" and rejected otherwise. */
  lemma AbsoluteArgument(path: string)
    requires Canonical(path)
    ensures SafePath(path) == if StartsWith(path, WORKDIR) then Ok(path) else Err(ValueError(ESCAPE_MESSAGE))
  {
    NormPathCanonical(path);
  }

  /** A path beginning with exactly two slashes keeps them and is rejected. */
  lemma DoubleSlashRejected(path: string)
    requires |path| >= 2 && path[0] == SEP && path[1] == SEP && (|path| == 2 || path[2] != SEP)
    ensures SafePath(path) == Err(ValueError(ESCAPE_MESSAGE))
  {
    NormPathDoubleSlash(path);
    assert NormPath(path)[1] != WORKDIR[1];
  }

  /** The components of a one-component directory joined with a relative argument. */
  lemma SplitUnder(name: string, path: string)
    requires Clean([name])
    ensures Split([SEP] + name + [SEP] + path) == [""] + ([name] + Split(path))
    ensures Fold(true, [], [""] + ([name] + Split(path))) == Fold(true, [name], Split(path))
  {
    var j := [SEP] + name + [SEP] + path;
    assert [name][0] == name;
    assert j[0] == SEP;
    assert j[1..] == name + [SEP] + path;
    SplitAfterWord(name, path);
    var tail := [name] + Split(path);
    assert ([""] + tail)[1..] == tail;
    assert tail[1..] == Split(path);
    assert Step(true, [], "") == [];
    assert Step(true, [], name) == [name];
  }

  /** The components of the root joined with a relative argument. */
  lemma SplitUnderRoot(path: string)
    requires path == [] || path[0] != SEP
    ensures LeadingSlashes(JoinRoot(path)) == 1
    ensures Fold(true, [], Split(JoinRoot(path))) == Fold(true, [ROOT_NAME], Split(path))
  {
    assert WORKDIR == [SEP] + ROOT_NAME;
    assert JoinRoot(path) == [SEP] + ROOT_NAME + [SEP] + path;
    assert Clean([ROOT_NAME]);
    SplitUnder(ROOT_NAME, path);
  }

  /** `normpath`'s components for a relative argument on its own. */
  function RelativeNorm(path: string): seq<string>
  {
    Fold(false, [], Split(path))
  }

  /** The relative argument, joined onto the root and normalised, is its
      relative normal form rebased onto the root's one component. */
  lemma RelativeResolved(path: string)
    requires path == [] || path[0] != SEP
    ensures RelStack(RelativeNorm(path))
    ensures NormPath(JoinRoot(path)) == PathOf(Rebase([ROOT_NAME], RelativeNorm(path)))
  {
    SplitUnderRoot(path);
    assert Clean([ROOT_NAME]);
    assert RelStack([]);
    FoldRebase([ROOT_NAME], [], Split(path));
    assert Rebase([ROOT_NAME], []) == [ROOT_NAME];
    NormPathAbsolute(JoinRoot(path));
  }

  /** A relative argument whose relative normal form has no leading `..`
      resolves to "/workdir" followed by its names: inside the directory. */
  lemma RelativeInside(path: string)
    requires path == [] || path[0] != SEP
    requires Ups(RelativeNorm(path)) == 0
    ensures SafePath(path) == Ok(PathOf([ROOT_NAME] + RelativeNorm(path)))
    ensures Within(PathOf([ROOT_NAME] + RelativeNorm(path)))
  {
    var b := RelativeNorm(path);
    var stack := [ROOT_NAME] + b;
    var a := PathOf(stack);
    RelativeResolved(path);
    assert Rebase([ROOT_NAME], b) == stack;
    assert NormPath(JoinRoot(path)) == a;
    assert Clean(b) by {
      assert b[0..] == b;
    }
    CleanPrepend(ROOT_NAME, b);
    PathOfClean(stack);
    PrefixTestMeaning(a);
    assert Segments(a)[0] == ROOT_NAME;
    assert StartsWith(ROOT_NAME, ROOT_NAME);
  }

  lemma CleanPrepend(name: string, b: seq<string>)
    requires Clean([name]) && Clean(b)
    ensures Clean([name] + b)
  {
    forall i | 0 <= i < |[name] + b|
      ensures ([name] + b)[i] == (if i == 0 then name else b[i - 1])
    {
    }
  }

  /** A relative argument whose `..` components climb out of the directory
      (one or more left over after normalising) resolves to its remaining names
      directly under `/`: the root is gone, and the textual test alone decides. */
  lemma RelativeClimbing(path: string)
    requires path == [] || path[0] != SEP
    requires Ups(RelativeNorm(path)) >= 1
    ensures var rest := RelativeNorm(path)[Ups(RelativeNorm(path))..];
      Clean(rest) &&
      SafePath(path) == if StartsWith(PathOf(rest), WORKDIR) then Ok(PathOf(rest)) else Err(ValueError(ESCAPE_MESSAGE))
  {
    var b := RelativeNorm(path);
    var rest := b[Ups(b)..];
    RelativeResolved(path);
    assert Rebase([ROOT_NAME], b) == rest;
    assert NormPath(JoinRoot(path)) == PathOf(rest);
  }

  /** Climbing out with `..` to a path outside the prefix is rejected. */
  lemma ClimbOutRejected(path: string)
    requires path == "../../etc/passwd"
    ensures SafePath(path) == Err(ValueError(ESCAPE_MESSAGE))
  {
    var parts := ["..", "..", "etc", "passwd"];
    ClimbOutNorm(path);
    assert Ups(parts) == 2;
    assert parts[2..] == ["etc", "passwd"];
    assert PathOf(["etc", "passwd"]) == "/etc/passwd" by {
      assert ["etc", "passwd"][1..] == ["passwd"];
    }
    RelativeClimbing(path);
  }

  /** The path of a name directly inside the directory. */
  lemma WorkdirChild(name: string)
    ensures PathOf([ROOT_NAME, name]) == WORKDIR + [SEP] + name
  {
    assert [ROOT_NAME, name][1..] == [name];
    assert Join([ROOT_NAME, name]) == ROOT_NAME + [SEP] + name;
    assert WORKDIR == [SEP] + ROOT_NAME;
  }

  /** `normpath`'s relative loop over a text whose first part is the word `w`:
      one step on `w`, then the loop over the rest. */
  lemma FoldWordThen(acc: seq<string>, w: string, rest: string)
    requires SEP !in w
    ensures Fold(false, acc, Split(w + [SEP] + rest)) == Fold(false, Step(false, acc, w), Split(rest))
  {
    SplitAfterWord(w, rest);
    assert ([w] + Split(rest))[1..] == Split(rest);
  }

  /** `normpath`'s relative loop over a single word is one step. */
  lemma FoldLastWord(acc: seq<string>, w: string)
    requires SEP !in w
    ensures Fold(false, acc, Split(w)) == Step(false, acc, w)
  {
    SplitWord(w);
  }

  /** `"../../etc/passwd"` keeps both leading `..` in its relative normal form. */
  lemma ClimbOutNorm(path: string)
    requires path == "../../etc/passwd"
    ensures RelativeNorm(path) == ["..", "..", "etc", "passwd"]
  {
    var r2 := "etc" + [SEP] + "passwd";
    var r1 := ".." + [SEP] + r2;
    assert path == ".." + [SEP] + r1;
    calc {
      RelativeNorm(path);
    == { FoldWordThen([], "..", r1); }
      Fold(false, Step(false, [], ".."), Split(r1));
    == { assert Step(false, [], "..") == [".."]; FoldWordThen([".."], "..", r2); }
      Fold(false, Step(false, [".."], ".."), Split(r2));
    == { assert Step(false, [".."], "..") == ["..", ".."]; FoldWordThen(["..", ".."], "etc", "passwd"); }
      Fold(false, Step(false, ["..", ".."], "etc"), Split("passwd"));
    == { assert Step(false, ["..", ".."], "etc") == ["..", "..", "etc"]; FoldLastWord(["..", "..", "etc"], "passwd"); }
      Step(false, ["..", "..", "etc"], "passwd");
    ==
      ["..", "..", "etc", "passwd"];
    }
  }

  /** In `"a/../b"` the `..` cancels `a`. */
  lemma DotDotNorm(path: string)
    requires path == "a/../b"
    ensures RelativeNorm(path) == ["b"]
  {
    var r1 := ".." + [SEP] + "b";
    assert path == "a" + [SEP] + r1;
    calc {
      RelativeNorm(path);
    == { FoldWordThen([], "a", r1); }
      Fold(false, Step(false, [], "a"), Split(r1));
    == { assert Step(false, [], "a") == ["a"]; FoldWordThen(["a"], "..", "b"); }
      Fold(false, Step(false, ["a"], ".."), Split("b"));
    == { assert Step(false, ["a"], "..") == []; FoldLastWord([], "b"); }
      Step(false, [], "b");
    ==
      ["b"];
    }
  }

  /** `"../workdir2/f"` keeps its leading `..`. */
  lemma SiblingNorm(path: string)
    requires path == "../workdir2/f"
    ensures RelativeNorm(path) == ["..", "workdir2", "f"]
  {
    var r1 := "workdir2" + [SEP] + "f";
    assert path == ".." + [SEP] + r1;
    calc {
      RelativeNorm(path);
    == { FoldWordThen([], "..", r1); }
      Fold(false, Step(false, [], ".."), Split(r1));
    == { assert Step(false, [], "..") == [".."]; FoldWordThen([".."], "workdir2", "f"); }
      Fold(false, Step(false, [".."], "workdir2"), Split("f"));
    == { assert Step(false, [".."], "workdir2") == ["..", "workdir2"]; FoldLastWord(["..", "workdir2"], "f"); }
      Step(false, ["..", "workdir2"], "f");
    ==
      ["..", "workdir2", "f"];
    }
  }

  /** A `..` that stays inside the directory is resolved and accepted. */
  lemma DotDotInsideAccepted(path: string)
    requires path == "a/../b"
    ensures SafePath(path) == Ok("/workdir/b")
  {
    assert WORKDIR + [SEP] + "b" == "/workdir/b";
    WorkdirChild("b");
    assert [ROOT_NAME] + ["b"] == [ROOT_NAME, "b"];
    DotDotNorm(path);
    assert Ups(["b"]) == 0;
    RelativeInside(path);
  }

  /** The empty argument resolves to the directory itself. */
  lemma EmptyIsRoot(path: string)
    requires path == ""
    ensures SafePath(path) == Ok(WORKDIR)
  {
    assert RelativeNorm(path) == [];
    RelativeInside(path);
    assert PathOf([ROOT_NAME]) == WORKDIR;
  }

  /** An absolute argument outside the directory is rejected... */
  lemma AbsoluteOutsideRejected(path: string)
    requires path == "/etc/passwd"
    ensures SafePath(path) == Err(ValueError(ESCAPE_MESSAGE))
  {
    assert PathOf(["etc", "passwd"]) == "/etc/passwd" by {
      assert ["etc", "passwd"][1..] == ["passwd"];
    }
    PathOfClean(["etc", "passwd"]);
    assert path[1] != WORKDIR[1];
    AbsoluteArgument(path);
  }

  /** ...and one inside it is accepted unchanged. */
  lemma AbsoluteInsideKept(path: string)
    requires path == "/workdir/x"
    ensures SafePath(path) == Ok("/workdir/x")
  {
    assert WORKDIR + [SEP] + "x" == "/workdir/x";
    WorkdirChild("x");
    PathOfClean([ROOT_NAME, "x"]);
    AbsoluteArgument(path);
  }

  /** A sibling directory whose name begins with "workdir" passes the textual
      test... */
  lemma SiblingAccepted(path: string)
    requires path == "../workdir2/f"
    ensures SafePath(path) == Ok("/workdir2/f")
  {
    var parts := ["..", "workdir2", "f"];
    SiblingNorm(path);
    assert Ups(parts) == 1;
    assert parts[1..] == ["workdir2", "f"];
    assert PathOf(["workdir2", "f"]) == "/workdir2/f" by {
      assert ["workdir2", "f"][1..] == ["f"];
    }
    RelativeClimbing(path);
  }

  /** ...although it is not inside the directory. */
  lemma SiblingOutside(p: string)
    requires p == "/workdir2/f"
    ensures StartsWith(p, WORKDIR) && !Within(p)
  {
    assert PathOf(["workdir2", "f"]) == p by {
      assert ["workdir2", "f"][1..] == ["f"];
    }
    PathOfClean(["workdir2", "f"]);
    PrefixTestMeaning(p);
  }

  /** Two leading slashes survive normalisation, so "//workdir/x" is rejected. */
  lemma DoubleSlashExample(path: string)
    requires path == "//workdir/x"
    ensures SafePath(path) == Err(ValueError(ESCAPE_MESSAGE))
  {
    DoubleSlashRejected(path);
  }
}
