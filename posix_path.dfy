/** POSIX path text: `str.split('/')`, `'/'.join(...)` and `posixpath.normpath`,
    together with the facts about normal forms that the sandbox relies on. */
module PosixPath {

  const SEP: char := '/'

  /** `s.split('/')`: always at least one part, and no part holds a separator. */
  function Split(s: string): (parts: seq<string>)
    ensures |parts| >= 1
    ensures forall i :: 0 <= i < |parts| ==> SEP !in parts[i]
    decreases |s|
  {
    if s == [] then [""]
    else if s[0] == SEP then [""] + Split(s[1..])
    else
      var rest := Split(s[1..]);
      [[s[0]] + rest[0]] + rest[1..]
  }

  /** `'/'.join(parts)`. */
  function Join(parts: seq<string>): string
  {
    if |parts| == 0 then ""
    else if |parts| == 1 then parts[0]
    else parts[0] + [SEP] + Join(parts[1..])
  }

  /** Joining the parts of a split gives back the text. */
  lemma {:induction false} JoinSplit(s: string)
    ensures Join(Split(s)) == s
    decreases |s|
  {
    if s == [] {
    } else if s[0] == SEP {
      JoinSplit(s[1..]);
      assert Split(s)[1..] == Split(s[1..]);
    } else {
      JoinSplit(s[1..]);
      var rest := Split(s[1..]);
      assert Split(s)[1..] == rest[1..];
      if |rest| > 1 {
        assert Join(rest) == rest[0] + [SEP] + Join(rest[1..]);
      }
    }
  }

  /** A word without separators splits into itself. */
  lemma {:induction false} SplitWord(w: string)
    requires SEP !in w
    ensures Split(w) == [w]
    decreases |w|
  {
    if w != [] {
      SplitWord(w[1..]);
      assert [w[0]] + w[1..] == w;
    }
  }

  /** A word followed by a separator splits off as the first part. */
  lemma {:induction false} SplitAfterWord(w: string, s: string)
    requires SEP !in w
    ensures Split(w + [SEP] + s) == [w] + Split(s)
    decreases |w|
  {
    var t := w + [SEP] + s;
    if w == [] {
      assert t[0] == SEP && t[1..] == s;
    } else {
      assert t[0] == w[0] && t[1..] == w[1..] + [SEP] + s;
      SplitAfterWord(w[1..], s);
      assert [w[0]] + w[1..] == w;
    }
  }

  /** Splitting a join gives back the parts, when no part holds a separator. */
  lemma {:induction false} SplitJoin(parts: seq<string>)
    requires |parts| >= 1
    requires forall i :: 0 <= i < |parts| ==> SEP !in parts[i]
    ensures Split(Join(parts)) == parts
    decreases |parts|
  {
    if |parts| == 1 {
      SplitWord(parts[0]);
    } else {
      SplitAfterWord(parts[0], Join(parts[1..]));
      SplitJoin(parts[1..]);
      assert [parts[0]] + parts[1..] == parts;
    }
  }

  /** A character other than the separator occurs in a join exactly when it
      occurs in one of the parts. */
  lemma {:induction false} JoinContains(parts: seq<string>, c: char)
    requires c != SEP
    ensures c in Join(parts) <==> exists i :: 0 <= i < |parts| && c in parts[i]
    decreases |parts|
  {
    if |parts| > 1 {
      var rest := parts[1..];
      JoinContains(rest, c);
      if c in Join(rest) {
        var i :| 0 <= i < |rest| && c in rest[i];
        assert c in parts[i + 1];
      }
      if exists i :: 0 <= i < |parts| && c in parts[i] {
        var i :| 0 <= i < |parts| && c in parts[i];
        if i > 0 {
          assert c in rest[i - 1];
        }
      }
    }
  }

  /** A clean component list: no empty, `.` or `..` component, and no separator inside one. */
  ghost predicate Clean(parts: seq<string>)
  {
    forall i :: 0 <= i < |parts| ==>
      parts[i] != "" && parts[i] != "." && parts[i] != ".." && SEP !in parts[i]
  }

  /** The number of leading slashes `normpath` keeps: one, or exactly two for a
      path that begins with `//` but not `///`, or none for a relative path. */
  function LeadingSlashes(p: string): (n: nat)
    ensures n <= 2
  {
    if |p| >= 1 && p[0] == SEP then
      if |p| >= 2 && p[1] == SEP && !(|p| >= 3 && p[2] == SEP) then 2 else 1
    else 0
  }

  /** One iteration of `normpath`'s loop over the components of the path. */
  function Step(absolute: bool, acc: seq<string>, comp: string): seq<string>
  {
    if comp == "" || comp == "." then acc
    else if comp != ".." || (!absolute && acc == []) || (acc != [] && acc[|acc| - 1] == "..") then
      acc + [comp]
    else if acc != [] then acc[..|acc| - 1]
    else acc
  }

  /** `normpath`'s loop: the component stack after processing `comps` from `acc`. */
  function Fold(absolute: bool, acc: seq<string>, comps: seq<string>): seq<string>
    decreases |comps|
  {
    if comps == [] then acc else Fold(absolute, Step(absolute, acc, comps[0]), comps[1..])
  }

  function Slashes(n: nat): (s: string)
    ensures |s| == n && forall i :: 0 <= i < n ==> s[i] == SEP
  {
    if n == 0 then "" else [SEP] + Slashes(n - 1)
  }

  /** `posixpath.normpath(p)`. */
  function NormPath(p: string): string
  {
    if p == "" then "."
    else
      var slashes := LeadingSlashes(p);
      var path := Slashes(slashes) + Join(Fold(slashes > 0, [], Split(p)));
      if path == "" then "." else path
  }

  /** The absolute path with the given components. */
  function PathOf(parts: seq<string>): string
  {
    [SEP] + Join(parts)
  }

  /** The components of an absolute path (none for the root `/`). */
  function Segments(p: string): seq<string>
  {
    if |p| <= 1 then [] else Split(p[1..])
  }

  /** An absolute path in normal form: one leading slash and clean components. */
  ghost predicate Canonical(p: string)
  {
    |p| >= 1 && p[0] == SEP && (|p| == 1 || Clean(Split(p[1..])))
  }

  /** The path built from clean components is canonical and has exactly those components. */
  lemma PathOfClean(parts: seq<string>)
    requires Clean(parts)
    ensures Canonical(PathOf(parts))
    ensures Segments(PathOf(parts)) == parts
  {
    var p := PathOf(parts);
    assert p[1..] == Join(parts);
    if |parts| >= 1 {
      SplitJoin(parts);
      assert |parts[0]| >= 1;
      assert Join(parts)[0] == parts[0][0] by {
        if |parts| > 1 { assert Join(parts) == parts[0] + [SEP] + Join(parts[1..]); }
      }
    }
  }

  /** A canonical path is the path of its own components. */
  lemma CanonicalPathOf(p: string)
    requires Canonical(p)
    ensures Clean(Segments(p))
    ensures PathOf(Segments(p)) == p
  {
    if |p| > 1 {
      JoinSplit(p[1..]);
      assert p == [SEP] + p[1..];
    }
  }

  /** Processing clean components pushes each of them. */
  lemma {:induction false} FoldClean(absolute: bool, acc: seq<string>, comps: seq<string>)
    requires Clean(comps)
    ensures Fold(absolute, acc, comps) == acc + comps
    decreases |comps|
  {
    if comps != [] {
      FoldClean(absolute, acc + [comps[0]], comps[1..]);
      assert acc + [comps[0]] + comps[1..] == acc + comps;
    }
  }

  /** In absolute mode the stack stays clean whatever the components are. */
  lemma {:induction false} FoldAbsoluteClean(acc: seq<string>, comps: seq<string>)
    requires Clean(acc)
    requires forall i :: 0 <= i < |comps| ==> SEP !in comps[i]
    ensures Clean(Fold(true, acc, comps))
    decreases |comps|
  {
    if comps != [] {
      FoldAbsoluteClean(Step(true, acc, comps[0]), comps[1..]);
    }
  }

  /** `normpath` of an absolute path with a single leading slash is the path of
      the components its loop keeps, and that path is canonical. */
  lemma NormPathAbsolute(p: string)
    requires |p| >= 1 && p[0] == SEP && LeadingSlashes(p) == 1
    ensures Clean(Fold(true, [], Split(p)))
    ensures NormPath(p) == PathOf(Fold(true, [], Split(p)))
    ensures Canonical(NormPath(p))
  {
    FoldAbsoluteClean([], Split(p));
    PathOfClean(Fold(true, [], Split(p)));
  }

  /** `normpath` of a path beginning with exactly two slashes keeps both. */
  lemma NormPathDoubleSlash(p: string)
    requires |p| >= 1 && p[0] == SEP && LeadingSlashes(p) == 2
    ensures |NormPath(p)| >= 2 && NormPath(p)[0] == SEP && NormPath(p)[1] == SEP
  {
  }

  /** A path in normal form is a fixed point of `normpath`. */
  lemma NormPathCanonical(p: string)
    requires Canonical(p)
    ensures NormPath(p) == p
  {
    if |p| == 1 {
      assert p == "/";
      assert Split(p) == ["", ""] by {
        assert p[1..] == "";
      }
      assert Step(true, [], "") == [];
      assert Fold(true, [], [""]) == [];
      assert Fold(true, [], ["", ""]) == Fold(true, [], [""]) by {
        assert ["", ""][1..] == [""];
      }
      assert LeadingSlashes(p) == 1;
      assert Slashes(1) == "/";
    } else {
      var parts := Split(p[1..]);
      assert parts[0] != "";
      assert p[1] != SEP;
      assert LeadingSlashes(p) == 1;
      assert Split(p) == [""] + parts;
      FoldClean(true, [], parts);
      assert Fold(true, [], Split(p)) == parts;
      CanonicalPathOf(p);
    }
  }

  /** The number of leading `..` components of a relative stack. */
  function Ups(b: seq<string>): (k: nat)
    ensures k <= |b|
    ensures forall i :: 0 <= i < k ==> b[i] == ".."
    ensures k < |b| ==> b[k] != ".."
  {
    if |b| > 0 && b[0] == ".." then 1 + Ups(b[1..]) else 0
  }

  /** The shape relative-mode `normpath` keeps: some `..` components, then clean ones. */
  ghost predicate RelStack(b: seq<string>)
  {
    Clean(b[Ups(b)..])
  }

  /** The absolute stack reached by applying relative stack `b` on top of `a`:
      each leading `..` pops a component of `a` (none left: it is dropped at `/`). */
  function Rebase(a: seq<string>, b: seq<string>): seq<string>
  {
    (if Ups(b) <= |a| then a[..|a| - Ups(b)] else []) + b[Ups(b)..]
  }

  lemma {:induction false} UpsAppend(b: seq<string>, c: string)
    ensures Ups(b) < |b| || c != ".." ==> Ups(b + [c]) == Ups(b)
    ensures Ups(b) == |b| && c == ".." ==> Ups(b + [c]) == |b| + 1
    decreases |b|
  {
    if |b| > 0 {
      assert (b + [c])[1..] == b[1..] + [c];
      if b[0] == ".." {
        UpsAppend(b[1..], c);
      }
    }
  }

  /** A pushed component lands on top of the rebased stack. */
  lemma StepRebasePush(a: seq<string>, b: seq<string>, c: string)
    requires Clean(a) && RelStack(b) && SEP !in c
    requires c != "" && c != "." && c != ".."
    ensures Step(false, b, c) == b + [c]
    ensures RelStack(b + [c])
    ensures Rebase(a, b) + [c] == Rebase(a, b + [c])
  {
    var k := Ups(b);
    UpsAppend(b, c);
    assert (b + [c])[k..] == b[k..] + [c];
  }

  /** A `..` on an empty relative stack pops the base. */
  lemma StepRebaseUpEmpty(a: seq<string>)
    requires Clean(a)
    ensures Step(false, [], "..") == [".."]
    ensures RelStack([".."])
    ensures Step(true, Rebase(a, []), "..") == Rebase(a, [".."])
  {
    assert Ups([".."]) == 1;
    assert [".."][1..] == [];
    assert Rebase(a, []) == a;
    if a != [] {
      assert a[|a| - 1] != "..";
      assert Rebase(a, [".."]) == a[..|a| - 1];
    } else {
      assert Rebase(a, [".."]) == [];
    }
  }

  /** A `..` on a stack of `..` components is kept, and pops the base once more. */
  lemma StepRebaseUpUps(a: seq<string>, b: seq<string>)
    requires Clean(a) && RelStack(b) && b != [] && b[|b| - 1] == ".."
    ensures Step(false, b, "..") == b + [".."]
    ensures RelStack(b + [".."])
    ensures Step(true, Rebase(a, b), "..") == Rebase(a, b + [".."])
  {
    var k := Ups(b);
    assert k == |b|;
    UpsAppend(b, "..");
    assert (b + [".."])[k + 1..] == [];
    assert b[k..] == [];
    var x := Rebase(a, b);
    if k < |a| {
      assert x == a[..|a| - k];
      assert x[|x| - 1] == a[|a| - k - 1] != "..";
      assert x[..|x| - 1] == a[..|a| - (k + 1)];
      assert Rebase(a, b + [".."]) == a[..|a| - (k + 1)];
    } else {
      assert x == [];
      assert Rebase(a, b + [".."]) == [];
    }
  }

  /** A `..` on top of a name pops it, in either mode. */
  lemma StepPop(absolute: bool, pre: seq<string>, tail: seq<string>)
    requires tail != [] && tail[|tail| - 1] != ".."
    ensures Step(absolute, pre + tail, "..") == pre + tail[..|tail| - 1]
  {
    var x := pre + tail;
    assert x[|x| - 1] == tail[|tail| - 1];
    assert x[..|x| - 1] == pre + tail[..|tail| - 1];
  }

  /** Dropping a trailing name leaves the leading `..` run as it was. */
  lemma {:induction false} UpsPop(b: seq<string>)
    requires b != [] && b[|b| - 1] != ".."
    ensures Ups(b[..|b| - 1]) == Ups(b) < |b|
    decreases |b|
  {
    if b[0] == ".." {
      var rest := b[1..];
      assert b[..|b| - 1][1..] == rest[..|rest| - 1];
      UpsPop(rest);
    }
  }

  /** Popping a trailing name keeps the relative stack's shape. */
  lemma RelStackPop(b: seq<string>)
    requires RelStack(b) && b != [] && b[|b| - 1] != ".."
    ensures RelStack(b[..|b| - 1])
  {
    UpsPop(b);
    var k := Ups(b);
    var tail := b[k..];
    assert b[..|b| - 1][k..] == tail[..|tail| - 1];
  }

  /** Popping a trailing name of `b` pops the rebased stack. */
  lemma RebasePop(a: seq<string>, b: seq<string>)
    requires b != [] && b[|b| - 1] != ".."
    ensures Step(true, Rebase(a, b), "..") == Rebase(a, b[..|b| - 1])
  {
    UpsPop(b);
    var k := Ups(b);
    var tail := b[k..];
    assert b[..|b| - 1][k..] == tail[..|tail| - 1];
    var pre := if k <= |a| then a[..|a| - k] else [];
    assert Rebase(a, b) == pre + tail;
    StepPop(true, pre, tail);
  }

  /** A `..` on a stack ending in a name pops that name. */
  lemma StepRebaseUpPop(a: seq<string>, b: seq<string>)
    requires RelStack(b) && b != [] && b[|b| - 1] != ".."
    ensures Step(false, b, "..") == b[..|b| - 1]
    ensures RelStack(b[..|b| - 1])
    ensures Step(true, Rebase(a, b), "..") == Rebase(a, b[..|b| - 1])
  {
    StepPop(false, [], b);
    assert [] + b == b;
    RelStackPop(b);
    RebasePop(a, b);
  }

  /** A `..` pops the rebased stack, or is dropped when it is already empty. */
  lemma StepRebaseUp(a: seq<string>, b: seq<string>)
    requires Clean(a) && RelStack(b)
    ensures RelStack(Step(false, b, ".."))
    ensures Step(true, Rebase(a, b), "..") == Rebase(a, Step(false, b, ".."))
  {
    if b == [] {
      StepRebaseUpEmpty(a);
    } else if b[|b| - 1] == ".." {
      StepRebaseUpUps(a, b);
    } else {
      StepRebaseUpPop(a, b);
    }
  }

  /** One loop step in relative mode, rebased, is one step in absolute mode. */
  lemma StepRebase(a: seq<string>, b: seq<string>, c: string)
    requires Clean(a) && RelStack(b) && SEP !in c
    ensures RelStack(Step(false, b, c))
    ensures Step(true, Rebase(a, b), c) == Rebase(a, Step(false, b, c))
  {
    if c == "" || c == "." {
    } else if c != ".." {
      StepRebasePush(a, b, c);
    } else {
      StepRebaseUp(a, b);
    }
  }

  /** Normalising against base components `a` is normalising relatively and then
      rebasing the result onto `a`. */
  lemma {:induction false} FoldRebase(a: seq<string>, b: seq<string>, comps: seq<string>)
    requires Clean(a) && RelStack(b)
    requires forall i :: 0 <= i < |comps| ==> SEP !in comps[i]
    ensures RelStack(Fold(false, b, comps))
    ensures Fold(true, Rebase(a, b), comps) == Rebase(a, Fold(false, b, comps))
    decreases |comps|
  {
    if comps != [] {
      StepRebase(a, b, comps[0]);
      FoldRebase(a, Step(false, b, comps[0]), comps[1..]);
    }
  }
}
