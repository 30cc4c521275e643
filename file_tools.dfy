/** `write_file` and `read_file` over an abstract filesystem: a map from
    resolved absolute path to text content and a set of directories. */
module FileTools {
  import opened Wrappers
  import opened PosixPath
  import opened Sandbox

  /** A filesystem: the files with their contents, and the directories. */
  datatype Fs = Fs(files: map<string, string>, dirs: set<string>)

  /** `os.path.dirname` of a canonical path: the path without its last component. */
  function Dirname(p: string): string
  {
    var cs := Segments(p);
    if |cs| == 0 then p else PathOf(cs[..|cs| - 1])
  }

  /** The directories above the path with components `cs`, from `/` down to its dirname. */
  function Ancestors(cs: seq<string>): set<string>
  {
    set k | 0 <= k < |cs| :: PathOf(cs[..k])
  }

  /** The character the operating system refuses inside a path. */
  const NUL: char := '\0'
  /** The message of the `ValueError` Python raises for a path holding NUL. */
  const NULL_BYTE_MESSAGE: string := "embedded null byte"

  /** The index of the first component holding NUL, or the number of components. */
  function FirstNul(cs: seq<string>): (j: nat)
    ensures j <= |cs|
    ensures forall i :: 0 <= i < j ==> NUL !in cs[i]
    ensures j < |cs| ==> NUL in cs[j]
  {
    if |cs| == 0 then 0 else if NUL in cs[0] then 0 else 1 + FirstNul(cs[1..])
  }

  /** A filesystem shaped as a tree: `/` is a directory, no path is both a
      file and a directory, every path is canonical, free of NUL, and every
      path but `/` sits in a directory. */
  ghost predicate WellFormed(fs: Fs)
  {
    && "/" in fs.dirs
    && fs.files.Keys !! fs.dirs
    && (forall d | d in fs.dirs :: Canonical(d) && NUL !in d && (d != "/" ==> Dirname(d) in fs.dirs))
    && (forall f | f in fs.files :: Canonical(f) && NUL !in f && f != "/" && Dirname(f) in fs.dirs)
  }

  /** The decimal numeral of `n`, as Python's `str(n)`. */
  function Decimal(n: nat): (s: string)
    ensures |s| >= 1
    ensures forall i :: 0 <= i < |s| ==> '0' <= s[i] <= '9'
    ensures s[0] == '0' <==> n == 0
    ensures |s| > 1 ==> s[0] != '0'
    decreases n
  {
    if n < 10 then [(48 + n) as char] else Decimal(n / 10) + [(48 + n % 10) as char]
  }

  /** The value of a numeral. */
  function ParseDecimal(s: string): nat
    decreases |s|
  {
    if s == [] then 0
    else
      var d := s[|s| - 1] as int - 48;
      ParseDecimal(s[..|s| - 1]) * 10 + (if 0 <= d then d else 0)
  }

  /** A numeral reads back as the number it was written from. */
  lemma {:induction false} DecimalRoundTrip(n: nat)
    ensures ParseDecimal(Decimal(n)) == n
    decreases n
  {
    var s := Decimal(n);
    if n >= 10 {
      DecimalRoundTrip(n / 10);
      assert s[..|s| - 1] == Decimal(n / 10);
    }
  }

  /** The confirmation `write_file` returns: the character count of the
      content and the path exactly as the caller gave it. */
  function WriteMessage(path: string, content: string): string
  {
    "Wrote " + Decimal(|content|) + " bytes to " + path
  }

  /** `os.makedirs` of the dirname of the resolved target `a`, with
      `exist_ok` set: the filesystem afterwards, and the exception raised, if any.
      The missing directories are created from the top down. When a
      directory name of the dirname holds NUL, the directories above it are
      created and its own creation raises ValueError, unless a directory
      above it is a file (NotADirectoryError). Otherwise the call fails with
      FileExistsError when the dirname is a file and with NotADirectoryError
      when a directory above it is a file, and creates nothing. */
  function MakeDirs(fs: Fs, a: string): (Fs, Option<PyError>)
  {
    var cs := Segments(a);
    var j := FirstNul(cs);
    if j + 1 < |cs| then
      if !(Ancestors(cs[..j]) !! fs.files.Keys) then (fs, Some(NotADirectoryError))
      else if PathOf(cs[..j]) in fs.files then (fs, Some(ValueError(NULL_BYTE_MESSAGE)))
      else (Fs(fs.files, fs.dirs + Ancestors(cs[..j + 1])), Some(ValueError(NULL_BYTE_MESSAGE)))
    else if Dirname(a) in fs.files then (fs, Some(FileExistsError))
    else if !(Ancestors(cs) !! fs.files.Keys) then (fs, Some(NotADirectoryError))
    else (Fs(fs.files, fs.dirs + Ancestors(cs)), None)
  }

  /** `open(a, "w").write(content)` once the directories above `a` exist:
      ValueError when the path holds NUL, IsADirectoryError on a directory,
      and otherwise the file is created or overwritten. */
  function OpenWrite(fs: Fs, a: string, content: string): (Fs, Option<PyError>)
  {
    if NUL in a then (fs, Some(ValueError(NULL_BYTE_MESSAGE)))
    else if a in fs.dirs then (fs, Some(IsADirectoryError))
    else (Fs(fs.files[a := content], fs.dirs), None)
  }

  /** The two steps of `write_file` after `_safe_path` accepted the path
      as `a`: the directories above it, then the file itself. */
  function Store(fs: Fs, a: string, content: string): (Fs, Option<PyError>)
  {
    var (afterDirs, dirsError) := MakeDirs(fs, a);
    if dirsError.Some? then (afterDirs, dirsError) else OpenWrite(afterDirs, a, content)
  }

  /** `write_file(path, content)`: the new filesystem and the reply (or the
      exception raised): `_safe_path`, then the directories, then the file. */
  function Write(fs: Fs, path: string, content: string): (Fs, Result<string, PyError>)
  {
    match SafePath(path)
    case Err(e) => (fs, Err(e))
    case Ok(resolved) =>
      var (stored, error) := Store(fs, resolved, content);
      if error.Some? then (stored, Err(error.value)) else (stored, Ok(WriteMessage(path, content)))
  }

  /** Carriage return and line feed. */
  const CR: char := '\r'
  const LF: char := '\n'

  /** `s.replace("\r\n", "\n")`: each CR LF pair, matched from the left, becomes LF. */
  function ReplaceCRLF(s: string): string
    decreases |s|
  {
    if s == [] then []
    else if |s| >= 2 && s[0] == CR && s[1] == LF then [LF] + ReplaceCRLF(s[2..])
    else [s[0]] + ReplaceCRLF(s[1..])
  }

  /** `s.replace("\r", "\n")`: every CR becomes LF and nothing else changes. */
  function ReplaceCR(s: string): (r: string)
    ensures |r| == |s|
    ensures forall i :: 0 <= i < |s| ==> r[i] == if s[i] == CR then LF else s[i]
  {
    if s == [] then [] else [if s[0] == CR then LF else s[0]] + ReplaceCR(s[1..])
  }

  /** The text `f.read()` returns for stored text `s` when the file is opened
      in text mode with the default universal newlines: a CR LF pair, and
      then any remaining CR, is read as LF. Writing on POSIX stores the
      text unchanged. */
  function Universal(s: string): string
  {
    ReplaceCR(ReplaceCRLF(s))
  }

  /** Replacing CR by LF distributes over concatenation. */
  lemma ReplaceCRAppend(a: string, b: string)
    ensures ReplaceCR(a + b) == ReplaceCR(a) + ReplaceCR(b)
  {
    var l, r := ReplaceCR(a + b), ReplaceCR(a) + ReplaceCR(b);
    forall i | 0 <= i < |a + b| ensures l[i] == r[i] {
      if i < |a| {
        assert (a + b)[i] == a[i];
      } else {
        assert (a + b)[i] == b[i - |a|];
      }
    }
  }

  /** The text read never holds a CR. */
  lemma UniversalNoCR(s: string)
    ensures CR !in Universal(s)
  {
    var t := ReplaceCRLF(s);
    forall i | 0 <= i < |t| ensures Universal(s)[i] != CR {
    }
  }

  /** Text without CR passes the CR LF replacement unchanged. */
  lemma {:induction false} ReplaceCRLFWithoutCR(s: string)
    requires CR !in s
    ensures ReplaceCRLF(s) == s
    decreases |s|
  {
    if s != [] {
      assert s[0] != CR;
      assert forall c | c in s[1..] :: c in s;
      ReplaceCRLFWithoutCR(s[1..]);
      assert [s[0]] + s[1..] == s;
    }
  }

  /** Reading changes the stored text exactly when it holds a CR. */
  lemma UniversalIdentity(s: string)
    ensures Universal(s) == s <==> CR !in s
  {
    UniversalNoCR(s);
    if CR !in s {
      ReplaceCRLFWithoutCR(s);
      assert ReplaceCR(s) == s;
    }
  }

  /** Translating the text read once more changes nothing. */
  lemma UniversalIdempotent(s: string)
    ensures Universal(Universal(s)) == Universal(s)
  {
    UniversalNoCR(s);
    UniversalIdentity(Universal(s));
  }

  /** The translation read one character at a time: CR LF and a lone CR
      each give one LF, and every other character is kept. */
  lemma UniversalCons(c: char, t: string)
    ensures c == CR && t != [] && t[0] == LF ==> Universal([c] + t) == [LF] + Universal(t[1..])
    ensures c == CR && (t == [] || t[0] != LF) ==> Universal([c] + t) == [LF] + Universal(t)
    ensures c != CR ==> Universal([c] + t) == [c] + Universal(t)
  {
    var s := [c] + t;
    assert s[1..] == t;
    if c == CR && t != [] && t[0] == LF {
      assert s[2..] == t[1..];
      ReplaceCRAppend([LF], ReplaceCRLF(t[1..]));
    } else {
      ReplaceCRAppend([c], ReplaceCRLF(t));
    }
  }

  /** `"x\r\ny"` reads back as `"x\ny"`. */
  lemma UniversalCRLFExample(s: string)
    requires s == "x\r\ny"
    ensures Universal(s) == "x\ny"
  {
    assert Universal("") == "";
    UniversalCons('y', "");
    assert "y" == ['y'] + "";
    UniversalCons(LF, "y");
    UniversalCons(CR, "\ny");
    assert s == ['x'] + "\r\ny" && "\r\ny" == [CR] + "\ny";
    UniversalCons('x', "\r\ny");
  }

  /** `"a\rb"`, with a lone CR, reads back as `"a\nb"`. */
  lemma UniversalCRExample(s: string)
    requires s == "a\rb"
    ensures Universal(s) == "a\nb"
  {
    assert Universal("") == "";
    UniversalCons('b', "");
    assert "b" == ['b'] + "";
    UniversalCons(CR, "b");
    assert s == ['a'] + "\rb" && "\rb" == [CR] + "b";
    UniversalCons('a', "\rb");
  }

  /** `open(a, "r").read()` on a resolved path: the stored content with its
      newlines translated, or
      ValueError on a path holding NUL, IsADirectoryError on a directory,
      NotADirectoryError when a directory above is a file, FileNotFoundError
      otherwise. */
  function Lookup(fs: Fs, a: string): Result<string, PyError>
  {
    if NUL in a then Err(ValueError(NULL_BYTE_MESSAGE))
    else if a in fs.files then Ok(Universal(fs.files[a]))
    else if a in fs.dirs then Err(IsADirectoryError)
    else if !(Ancestors(Segments(a)) !! fs.files.Keys) then Err(NotADirectoryError)
    else Err(FileNotFoundError)
  }

  /** `read_file(path)`: `_safe_path`, then the file at the resolved path. */
  function Read(fs: Fs, path: string): Result<string, PyError>
  {
    match SafePath(path)
    case Err(e) => Err(e)
    case Ok(resolved) => Lookup(fs, resolved)
  }

  /** Facts about the ancestors of clean components: each is canonical, `/`
      is the first, and each one's dirname is the one before it. */
  lemma AncestorsShape(cs: seq<string>, k: nat)
    requires Clean(cs) && k < |cs|
    ensures Canonical(PathOf(cs[..k]))
    ensures Segments(PathOf(cs[..k])) == cs[..k]
    ensures k == 0 ==> PathOf(cs[..k]) == "/"
    ensures k > 0 ==> PathOf(cs[..k]) != "/" && Dirname(PathOf(cs[..k])) == PathOf(cs[..k - 1])
  {
    assert Clean(cs[..k]);
    PathOfClean(cs[..k]);
    if k > 0 {
      assert cs[..k][..k - 1] == cs[..k - 1];
    }
  }

  /** A path with at least one component is not `/`, and its dirname is the
      path of all components but the last. */
  lemma DirnameOf(cs: seq<string>)
    requires Clean(cs) && |cs| >= 1
    ensures PathOf(cs) != "/"
    ensures Dirname(PathOf(cs)) == PathOf(cs[..|cs| - 1])
  {
    PathOfClean(cs);
    assert Segments("/") == [];
  }

  /** A path is not among its own ancestors, and its dirname is one of them. */
  lemma AncestorsOf(cs: seq<string>)
    requires Clean(cs) && |cs| >= 1
    ensures PathOf(cs) !in Ancestors(cs)
    ensures Dirname(PathOf(cs)) in Ancestors(cs)
  {
    PathOfClean(cs);
    DirnameOf(cs);
    forall k | 0 <= k < |cs| ensures PathOf(cs[..k]) != PathOf(cs) {
      AncestorsShape(cs, k);
      assert |Segments(PathOf(cs[..k]))| == k;
    }
  }

  /** The resolved path of an accepted argument has at least one component,
      the first one begins with "workdir", and its dirname is an ancestor. */
  lemma AcceptedShape(path: string)
    requires SafePath(path).Ok?
    ensures var a := SafePath(path).value; var cs := Segments(a);
      Clean(cs) && |cs| >= 1 && StartsWith(cs[0], ROOT_NAME) &&
      a == PathOf(cs) && a != "/" && a !in Ancestors(cs) && Dirname(a) in Ancestors(cs)
  {
    var a := SafePath(path).value;
    PrefixTestMeaning(a);
    CanonicalPathOf(a);
    var cs := Segments(a);
    DirnameOf(cs);
    AncestorsOf(cs);
  }

  /** A path holds NUL exactly when one of its components does. */
  lemma NulInPath(cs: seq<string>)
    ensures NUL in PathOf(cs) <==> FirstNul(cs) < |cs|
  {
    JoinContains(cs, NUL);
    assert PathOf(cs) == [SEP] + Join(cs);
  }

  /** The directories above a path are NUL-free down to the first name holding NUL. */
  lemma NulFreePrefix(cs: seq<string>, k: nat)
    requires k <= FirstNul(cs)
    ensures NUL !in PathOf(cs[..k])
  {
    var top := cs[..k];
    JoinContains(top, NUL);
    forall i | 0 <= i < k ensures NUL !in top[i] {
      assert top[i] == cs[i];
    }
    assert PathOf(top) == [SEP] + Join(top);
  }

  /** The ancestors of a prefix of `cs` are ancestors of `cs`, and adding one
      more component to the prefix adds exactly the prefix's own path. */
  lemma AncestorsPrefix(cs: seq<string>, m: nat)
    requires m < |cs|
    ensures Ancestors(cs[..m + 1]) == Ancestors(cs[..m]) + {PathOf(cs[..m])}
    ensures Ancestors(cs[..m + 1]) <= Ancestors(cs)
  {
    var lo, hi := cs[..m], cs[..m + 1];
    forall d | d in Ancestors(hi) ensures d in Ancestors(lo) + {PathOf(lo)} && d in Ancestors(cs) {
      var k :| 0 <= k < m + 1 && d == PathOf(hi[..k]);
      assert hi[..k] == cs[..k];
      if k < m {
        assert lo[..k] == cs[..k];
      }
    }
    forall d | d in Ancestors(lo) ensures d in Ancestors(hi) {
      var k :| 0 <= k < m && d == PathOf(lo[..k]);
      assert lo[..k] == hi[..k];
    }
    assert hi[..m] == lo;
  }

  /** The directory above the first `k` components, when none of them
      holds NUL, is canonical and NUL-free, and for `k > 0` its parent is
      the directory above the first `k - 1`. */
  lemma AncestorAt(cs: seq<string>, k: nat)
    requires Clean(cs) && k < |cs| && k <= FirstNul(cs)
    ensures Canonical(PathOf(cs[..k])) && NUL !in PathOf(cs[..k])
    ensures k > 0 ==> PathOf(cs[..k]) != "/" && Dirname(PathOf(cs[..k])) == PathOf(cs[..k - 1])
  {
    AncestorsShape(cs, k);
    NulFreePrefix(cs, k);
  }

  /** The directory above the first `k` components is among the
      directories above the first `m`, for any `k < m`. */
  lemma InPrefixAncestors(cs: seq<string>, m: nat, k: nat)
    requires k < m <= |cs|
    ensures PathOf(cs[..k]) in Ancestors(cs[..m])
  {
    assert cs[..m][..k] == cs[..k];
  }

  /** The directories above the first `m` components, none of them holding
      NUL, are canonical, NUL-free, and each one's parent is among them. */
  lemma AncestorsClosed(cs: seq<string>, m: nat)
    requires Clean(cs) && m <= |cs| && m <= FirstNul(cs) + 1
    ensures var made := Ancestors(cs[..m]);
      forall d | d in made :: Canonical(d) && NUL !in d && (d != "/" ==> Dirname(d) in made)
  {
    var top := cs[..m];
    var made := Ancestors(top);
    forall d | d in made
      ensures Canonical(d) && NUL !in d && (d != "/" ==> Dirname(d) in made)
    {
      var k :| 0 <= k < m && d == PathOf(top[..k]);
      assert top[..k] == cs[..k];
      AncestorAt(cs, k);
      if k > 0 {
        InPrefixAncestors(cs, m, k - 1);
      }
    }
  }

  /** Adding the directories above the first `m` components, none of them a
      file and none holding NUL, keeps the filesystem a tree. */
  lemma AddDirsWellFormed(fs: Fs, cs: seq<string>, m: nat)
    requires WellFormed(fs) && Clean(cs) && m <= |cs| && m <= FirstNul(cs) + 1
    requires Ancestors(cs[..m]) !! fs.files.Keys
    ensures WellFormed(Fs(fs.files, fs.dirs + Ancestors(cs[..m])))
  {
    var made := Ancestors(cs[..m]);
    var dirs := fs.dirs + made;
    AncestorsClosed(cs, m);
    forall d | d in dirs
      ensures Canonical(d) && NUL !in d && (d != "/" ==> Dirname(d) in dirs)
    {
      if d !in fs.dirs {
        assert d in made;
      }
    }
    forall f | f in fs.files
      ensures Canonical(f) && NUL !in f && f != "/" && Dirname(f) in dirs
    {
    }
  }

  /** `makedirs` changes no file and creates only directories above the target. */
  lemma MakeDirsFrame(fs: Fs, a: string)
    ensures var fs' := MakeDirs(fs, a).0;
      fs'.files == fs.files && fs.dirs <= fs'.dirs <= fs.dirs + Ancestors(Segments(a))
  {
    var cs := Segments(a);
    var j := FirstNul(cs);
    if j + 1 < |cs| {
      AncestorsPrefix(cs, j);
    }
  }

  /** For a target with at least one component, `makedirs` completes
      exactly when no directory name above the target holds NUL and no
      directory above it is a file; it has then created all of them. */
  lemma MakeDirsDone(fs: Fs, a: string)
    requires Clean(Segments(a)) && |Segments(a)| >= 1 && a == PathOf(Segments(a))
    ensures var cs := Segments(a);
      MakeDirs(fs, a).1.None? <==> FirstNul(cs) + 1 >= |cs| && Ancestors(cs) !! fs.files.Keys
    ensures MakeDirs(fs, a).1.None? ==>
      MakeDirs(fs, a).0 == Fs(fs.files, fs.dirs + Ancestors(Segments(a)))
  {
    AncestorsOf(Segments(a));
  }

  /** Adding the directories down to a name holding NUL, whose parent is
      no file and above which no directory is a file, keeps the filesystem a tree. */
  lemma AddParentsWellFormed(fs: Fs, cs: seq<string>, j: nat)
    requires WellFormed(fs) && Clean(cs) && j == FirstNul(cs) && j + 1 < |cs|
    requires Ancestors(cs[..j]) !! fs.files.Keys && PathOf(cs[..j]) !in fs.files
    ensures WellFormed(Fs(fs.files, fs.dirs + Ancestors(cs[..j + 1])))
  {
    AncestorsPrefix(cs, j);
    AddDirsWellFormed(fs, cs, j + 1);
  }

  /** `makedirs` keeps the filesystem a tree. */
  lemma MakeDirsWellFormed(fs: Fs, a: string)
    requires WellFormed(fs) && Canonical(a)
    ensures WellFormed(MakeDirs(fs, a).0)
  {
    CanonicalPathOf(a);
    var cs := Segments(a);
    var j := FirstNul(cs);
    var made := MakeDirs(fs, a).0;
    if j + 1 < |cs| {
      if Ancestors(cs[..j]) !! fs.files.Keys && PathOf(cs[..j]) !in fs.files {
        AddParentsWellFormed(fs, cs, j);
        assert made == Fs(fs.files, fs.dirs + Ancestors(cs[..j + 1]));
      } else {
        assert made == fs;
      }
    } else if Dirname(a) !in fs.files && Ancestors(cs) !! fs.files.Keys {
      assert cs[..|cs|] == cs;
      AddDirsWellFormed(fs, cs, |cs|);
      assert made == Fs(fs.files, fs.dirs + Ancestors(cs));
    } else {
      assert made == fs;
    }
  }

  /** Storing changes only the file at `a` and adds only directories above it. */
  lemma StoreFrame(fs: Fs, a: string, content: string)
    ensures var stored := Store(fs, a, content);
      stored.0.files == (if stored.1.None? then fs.files[a := content] else fs.files) &&
      fs.dirs <= stored.0.dirs <= fs.dirs + Ancestors(Segments(a))
  {
    MakeDirsFrame(fs, a);
  }

  /** Storing at a path with at least one component succeeds exactly when
      the path holds no NUL, no directory above it is a file and it is not a
      directory; the file then holds the content and every directory above it exists. */
  lemma StoreDone(fs: Fs, a: string, content: string)
    requires Clean(Segments(a)) && |Segments(a)| >= 1 && a == PathOf(Segments(a))
    requires a !in Ancestors(Segments(a))
    ensures var cs := Segments(a);
      Store(fs, a, content).1.None? <==>
        NUL !in a && Ancestors(cs) !! fs.files.Keys && a !in fs.dirs
    ensures Store(fs, a, content).1.None? ==>
      Store(fs, a, content).0 == Fs(fs.files[a := content], fs.dirs + Ancestors(Segments(a)))
  {
    MakeDirsDone(fs, a);
    NulInPath(Segments(a));
  }

  /** Storing a canonical path other than `/` keeps the filesystem a tree. */
  lemma StoreWellFormed(fs: Fs, a: string, content: string)
    requires WellFormed(fs) && Canonical(a) && a != "/"
    ensures WellFormed(Store(fs, a, content).0)
  {
    CanonicalPathOf(a);
    var cs := Segments(a);
    assert |cs| >= 1;
    AncestorsOf(cs);
    MakeDirsWellFormed(fs, a);
    if Store(fs, a, content).1.None? {
      StoreDone(fs, a, content);
      NulInPath(cs);
    }
  }

  /** A successful lookup of another path gives the same content after storing. */
  lemma LookupAfterStore(fs: Fs, a: string, b: string, content: string)
    requires Lookup(fs, b).Ok? && a != b
    ensures Lookup(Store(fs, a, content).0, b) == Lookup(fs, b)
  {
    StoreFrame(fs, a, content);
  }

  /** Reading back what was written gives the content written with its
      newlines translated, so exactly the content when it holds no CR. */
  lemma WriteThenRead(fs: Fs, path: string, content: string)
    requires Write(fs, path, content).1.Ok?
    ensures Read(Write(fs, path, content).0, path) == Ok(Universal(content))
    ensures CR !in content ==> Read(Write(fs, path, content).0, path) == Ok(content)
  {
    StoreFrame(fs, SafePath(path).value, content);
    UniversalIdentity(content);
  }

  /** `write_file` succeeds exactly when the path resolves, holds no NUL, no
      directory above it is a file and it is not itself a directory; the
      directories above it then all exist, whether or not they did before. */
  lemma WriteSucceeds(fs: Fs, path: string, content: string)
    ensures Write(fs, path, content).1.Ok? <==>
      (SafePath(path).Ok? &&
       NUL !in SafePath(path).value &&
       Ancestors(Segments(SafePath(path).value)) !! fs.files.Keys &&
       SafePath(path).value !in fs.dirs)
    ensures Write(fs, path, content).1.Ok? ==>
      Write(fs, path, content).1.value == WriteMessage(path, content) &&
      Ancestors(Segments(SafePath(path).value)) <= Write(fs, path, content).0.dirs
  {
    if SafePath(path).Ok? {
      AcceptedShape(path);
      StoreDone(fs, SafePath(path).value, content);
    }
  }

  /** A resolved path holding NUL is never written and never read. When no
      directory above it is a file, both tools raise the "embedded null byte"
      ValueError; the write may still have created directories above the
      first name holding NUL. */
  lemma NulPathRejected(fs: Fs, path: string, content: string)
    requires SafePath(path).Ok? && NUL in SafePath(path).value
    ensures Write(fs, path, content).1.Err?
    ensures Write(fs, path, content).0.files == fs.files
    ensures Read(fs, path) == Err(ValueError(NULL_BYTE_MESSAGE))
    ensures Ancestors(Segments(SafePath(path).value)) !! fs.files.Keys ==>
      Write(fs, path, content).1 == Err(ValueError(NULL_BYTE_MESSAGE))
  {
    var a := SafePath(path).value;
    var cs := Segments(a);
    AcceptedShape(path);
    StoreDone(fs, a, content);
    StoreFrame(fs, a, content);
    var j := FirstNul(cs);
    if j + 1 < |cs| {
      AncestorsPrefix(cs, j);
      assert PathOf(cs[..j]) in Ancestors(cs);
    }
  }

  /** The reply of `write_file` reports the character count of the content,
      which reads back from it, and echoes the caller's path, not the
      resolved one. */
  lemma WriteMessageReports(path: string, content: string)
    ensures var reply := WriteMessage(path, content);
      var count := Decimal(|content|);
      reply[..6] == "Wrote " &&
      ParseDecimal(reply[6..6 + |count|]) == |content| &&
      reply[6 + |count|..|reply| - |path|] == " bytes to " &&
      reply[|reply| - |path|..] == path
  {
    var count := Decimal(|content|);
    var reply := WriteMessage(path, content);
    DecimalRoundTrip(|content|);
    var head := "Wrote " + count;
    assert reply == head + " bytes to " + path;
    assert reply[..|head|] == head;
    assert head[6..] == count;
    assert reply[6..6 + |count|] == head[6..];
  }

  /** Every file `write_file` creates or changes is at the path `_safe_path`
      resolved, which begins with "/workdir"; every other file keeps its
      content; and no file disappears. */
  lemma WriteFilesConfined(fs: Fs, path: string, content: string)
    ensures var fs' := Write(fs, path, content).0;
      (forall f | f in fs'.files && (f !in fs.files || fs'.files[f] != fs.files[f]) ::
         SafePath(path) == Ok(f) && StartsWith(f, WORKDIR)) &&
      (forall f | f in fs.files :: f in fs'.files) &&
      (forall f | f in fs.files && SafePath(path) != Ok(f) :: fs'.files[f] == fs.files[f])
  {
    if SafePath(path).Ok? {
      StoreFrame(fs, SafePath(path).value, content);
    }
  }

  /** Every directory `write_file` creates begins with "/workdir". */
  lemma WriteDirsConfined(fs: Fs, path: string, content: string)
    requires "/" in fs.dirs
    ensures var fs' := Write(fs, path, content).0;
      forall d | d in fs'.dirs && d !in fs.dirs :: StartsWith(d, WORKDIR)
  {
    if SafePath(path).Ok? {
      var a := SafePath(path).value;
      var cs := Segments(a);
      AcceptedShape(path);
      StoreFrame(fs, a, content);
      var fs' := Store(fs, a, content).0;
      forall d | d in fs'.dirs && d !in fs.dirs
        ensures StartsWith(d, WORKDIR)
      {
        var k :| 0 <= k < |cs| && d == PathOf(cs[..k]);
        AncestorsShape(cs, k);
        assert k > 0;
        PrefixTestMeaning(d);
      }
    }
  }

  /** `write_file` keeps the filesystem a tree. */
  lemma WritePreservesWellFormed(fs: Fs, path: string, content: string)
    requires WellFormed(fs)
    ensures WellFormed(Write(fs, path, content).0)
  {
    if SafePath(path).Ok? {
      AcceptedShape(path);
      StoreWellFormed(fs, SafePath(path).value, content);
    }
  }

  /** A successful read of another path is not affected by `write_file`. */
  lemma WriteKeepsOtherReads(fs: Fs, path: string, content: string, other: string, c: string)
    requires Read(fs, other) == Ok(c)
    requires SafePath(other) != SafePath(path)
    ensures Read(Write(fs, path, content).0, other) == Ok(c)
  {
    if SafePath(path).Ok? {
      LookupAfterStore(fs, SafePath(path).value, SafePath(other).value, content);
    }
  }

  /** Writing to a path that resolves to a directory (such as "" or "." for
      "/workdir" itself) fails with IsADirectoryError and leaves the files unchanged. */
  lemma WriteToDirectory(fs: Fs, path: string, content: string)
    requires WellFormed(fs)
    requires SafePath(path).Ok? && SafePath(path).value in fs.dirs
    ensures Write(fs, path, content).1 == Err(IsADirectoryError)
    ensures Write(fs, path, content).0.files == fs.files
  {
    var a := SafePath(path).value;
    var cs := Segments(a);
    AcceptedShape(path);
    NulInPath(cs);
    forall d | d in Ancestors(cs) ensures d !in fs.files {
      var k :| 0 <= k < |cs| && d == PathOf(cs[..k]);
      AncestorsInDirs(fs, cs, k);
    }
    MakeDirsDone(fs, a);
  }

  /** When every directory but `/` sits in a directory, as in a tree, every
      ancestor of a directory is a directory. */
  lemma {:induction false} AncestorsInDirs(fs: Fs, cs: seq<string>, k: nat)
    requires forall d | d in fs.dirs && d != "/" :: Dirname(d) in fs.dirs
    requires Clean(cs) && PathOf(cs) in fs.dirs && k <= |cs|
    ensures PathOf(cs[..k]) in fs.dirs
    decreases |cs|
  {
    if k < |cs| {
      var up := cs[..|cs| - 1];
      DirnameOf(cs);
      assert Clean(up);
      assert up[..k] == cs[..k];
      AncestorsInDirs(fs, up, k);
    } else {
      assert cs[..k] == cs;
    }
  }

  /** The relative path that climbs out to /etc/passwd cannot be read: the
      reply is the escape error, not file contents. */
  lemma ReadClimbOut(fs: Fs, path: string)
    requires path == "../../etc/passwd"
    ensures Read(fs, path) == Err(ValueError(ESCAPE_MESSAGE))
  {
    ClimbOutRejected(path);
  }

  /** The filesystem of a fresh container is a tree. */
  lemma InitialWellFormed()
    ensures WellFormed(Fs(map[], {"/", WORKDIR}))
  {
    assert WORKDIR == PathOf([ROOT_NAME]);
    assert Clean([ROOT_NAME]);
    SingleDirWellFormed(ROOT_NAME);
  }

  /** `/` with one clean, NUL-free directory below it and no files is a tree. */
  lemma SingleDirWellFormed(name: string)
    requires Clean([name]) && NUL !in name
    ensures WellFormed(Fs(map[], {"/", PathOf([name])}))
  {
    var cs := [name];
    PathOfClean(cs);
    AncestorsShape(cs, 0);
    DirnameOf(cs);
    NulInPath(cs);
    assert Canonical("/") && NUL !in "/";
  }

  /** The container's filesystem as the two file tools see it. */
  class Workdir {
    var files: map<string, string>
    var dirs: set<string>

    function State(): Fs
      reads this
    {
      Fs(files, dirs)
    }

    ghost predicate Valid()
      reads this
    {
      WellFormed(State())
    }

    /** A fresh container: only `/` and the mounted, empty `/workdir`. */
    constructor ()
      ensures Valid()
      ensures files == map[] && dirs == {"/", WORKDIR}
    {
      files := map[];
      dirs := {"/", WORKDIR};
      InitialWellFormed();
    }

    /** The `write_file` tool. */
    method WriteFile(path: string, content: string) returns (reply: Result<string, PyError>)
      requires Valid()
      modifies this
      ensures Valid()
      ensures (State(), reply) == Write(old(State()), path, content)
    {
      WritePreservesWellFormed(State(), path, content);
      var resolved := SafePath(path);
      if resolved.Err? {
        return Err(resolved.error);
      }
      var absPath := resolved.value;
      var cs := Segments(absPath);
      var j := FirstNul(cs);
      // Create the missing directories above the target, from the top down.
      if j + 1 < |cs| {
        // A directory name holds NUL: its parents are created, then its own creation fails.
        if !(Ancestors(cs[..j]) !! files.Keys) {
          return Err(NotADirectoryError);
        }
        if PathOf(cs[..j]) in files {
          return Err(ValueError(NULL_BYTE_MESSAGE));
        }
        dirs := dirs + Ancestors(cs[..j + 1]);
        return Err(ValueError(NULL_BYTE_MESSAGE));
      }
      var parents := Ancestors(cs);
      if Dirname(absPath) in files {
        return Err(FileExistsError);
      }
      if !(parents !! files.Keys) {
        return Err(NotADirectoryError);
      }
      dirs := dirs + parents;
      // Open the target for writing: create the file, or overwrite it.
      if NUL in absPath {
        return Err(ValueError(NULL_BYTE_MESSAGE));
      }
      if absPath in dirs {
        return Err(IsADirectoryError);
      }
      files := files[absPath := content];
      reply := Ok(WriteMessage(path, content));
    }

    /** The `read_file` tool. */
    method ReadFile(path: string) returns (reply: Result<string, PyError>)
      ensures reply == Read(State(), path)
    {
      var resolved := SafePath(path);
      if resolved.Err? {
        return Err(resolved.error);
      }
      var absPath := resolved.value;
      if NUL in absPath {
        reply := Err(ValueError(NULL_BYTE_MESSAGE));
      } else if absPath in files {
        reply := Ok(Universal(files[absPath]));
      } else if absPath in dirs {
        reply := Err(IsADirectoryError);
      } else if !(Ancestors(Segments(absPath)) !! files.Keys) {
        reply := Err(NotADirectoryError);
      } else {
        reply := Err(FileNotFoundError);
      }
    }
  }

}
