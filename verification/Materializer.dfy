/** Building the repro (Create.cs, `Run` from line 126 on): every file and
    directory the chosen ILLink invocation names is copied into the `input`
    directory under a name that is still free there, each source copied at
    most once, and the rewritten arguments become the lines of
    `linker.rsp`. */
module Materializer {
  import opened Wrappers
  import opened Text
  import opened Paths
  import opened ILLink
  import opened Selection

  /** The name of the directory copies go to, as the rewritten paths use it. */
  const InputName: string := "input"

  // ---------------------------------------------------------------------
  // Choosing a free name

  /** The name a file is tried under on attempt `n`: the name itself, then
      `stem.1.ext`, `stem.2.ext`, ... */
  function FileAttempt(fileName: string, n: nat): string
  {
    if n == 0 then fileName
    else GetFileNameWithoutExtension(fileName) + "." + Decimal(n) + GetExtension(fileName)
  }

  /** The name a directory is tried under on attempt `n`: the name itself,
      then `name.1`, `name.2`, ... */
  function DirectoryAttempt(directoryName: string, n: nat): string
  {
    if n == 0 then directoryName else directoryName + "." + Decimal(n)
  }

  /** Different attempts try different names, so the search never revisits
      a name. */
  lemma FileAttemptsDistinct(fileName: string, m: nat, n: nat)
    requires Separator !in fileName
    ensures FileAttempt(fileName, m) == FileAttempt(fileName, n) ==> m == n
  {
    var stem, ext := GetFileNameWithoutExtension(fileName), GetExtension(fileName);
    if FileAttempt(fileName, m) == FileAttempt(fileName, n) {
      if m > 0 && n > 0 {
        assert stem + "." + Decimal(m) + ext == stem + "." + Decimal(n) + ext;
        CancelAround(stem + ".", Decimal(m), Decimal(n), ext);
        DecimalInjective(m, n);
      } else if m > 0 {
        FileAttemptLonger(fileName, m);
      } else if n > 0 {
        FileAttemptLonger(fileName, n);
      }
    }
  }

  /** A renamed attempt is longer than the name itself. */
  lemma FileAttemptLonger(fileName: string, n: nat)
    requires Separator !in fileName && n > 0
    ensures |FileAttempt(fileName, n)| > |fileName|
  {
    StemAndExtension(fileName);
    assert GetFileName(fileName) == fileName;
  }

  lemma DirectoryAttemptsDistinct(directoryName: string, m: nat, n: nat)
    ensures DirectoryAttempt(directoryName, m) == DirectoryAttempt(directoryName, n) ==> m == n
  {
    if m > 0 && n > 0 && DirectoryAttempt(directoryName, m) == DirectoryAttempt(directoryName, n) {
      CancelAround(directoryName + ".", Decimal(m), Decimal(n), []);
      DecimalInjective(m, n);
    }
  }

  /** A file name never gains a separator from the search. */
  lemma FileAttemptPlain(fileName: string, name: string)
    requires Separator !in fileName
    requires exists n :: name == FileAttempt(fileName, n)
    ensures Separator !in name
  {
    var n :| name == FileAttempt(fileName, n);
    StemAndExtension(fileName);
    var stem, ext := GetFileNameWithoutExtension(fileName), GetExtension(fileName);
    if n > 0 {
      var digits := Decimal(n);
      assert Separator !in digits by {
        forall j | 0 <= j < |digits| ensures digits[j] != Separator { }
      }
      assert name == stem + "." + digits + ext;
    }
  }

  /** `name` is `prefix`, then `n` in decimal without a leading zero, then
      `suffix`. */
  predicate NumberedAs(name: string, prefix: string, n: nat, suffix: string)
  {
    |name| >= |prefix| + 1 + |suffix| &&
    name[..|prefix|] == prefix && name[|name| - |suffix|..] == suffix &&
    var digits := name[|prefix|..|name| - |suffix|];
    digits[0] != '0' && (forall k :: 0 <= k < |digits| ==> '0' <= digits[k] <= '9') && DigitsValue(digits) == n
  }

  lemma Numbered(prefix: string, n: nat, suffix: string)
    requires n > 0
    ensures NumberedAs(prefix + Decimal(n) + suffix, prefix, n, suffix)
  {
    var name := prefix + Decimal(n) + suffix;
    assert name[..|prefix|] == prefix;
    assert name[|prefix|..|name| - |suffix|] == Decimal(n);
    DecimalValue(n);
  }

  /** Attempt `n > 0` renames `stem.ext` to `stem.<n>.ext`. */
  lemma FileAttemptNumbered(fileName: string, n: nat)
    requires n > 0
    ensures NumberedAs(FileAttempt(fileName, n), GetFileNameWithoutExtension(fileName) + ".", n, GetExtension(fileName))
  {
    Numbered(GetFileNameWithoutExtension(fileName) + ".", n, GetExtension(fileName));
  }

  /** A renamed file keeps its extension, so a copy of `a.dll` is still a
      `.dll` file. */
  lemma FileAttemptKeepsExtension(fileName: string, n: nat)
    requires Separator !in fileName && GetExtension(fileName) != ""
    ensures GetExtension(FileAttempt(fileName, n)) == GetExtension(fileName)
  {
    if n > 0 {
      var stem, ext := GetFileNameWithoutExtension(fileName), GetExtension(fileName);
      StemAndExtension(fileName);
      ExtensionLength(GetFileName(fileName));
      FileAttemptPlain(fileName, FileAttempt(fileName, n));
      ExtensionAfter(stem + "." + Decimal(n), ext);
    }
  }

  /** A non-empty extension holds more than its '.'. */
  lemma ExtensionLength(name: string)
    ensures ExtensionOf(name) != "" ==> |ExtensionOf(name)| >= 2
  {
  }

  /** Appending an extension to a name makes it the name's extension. */
  lemma ExtensionAfter(prefix: string, ext: string)
    requires |ext| >= 2 && ext[0] == '.' && '.' !in ext[1..] && Separator !in prefix + ext
    ensures GetExtension(prefix + ext) == ext
  {
    var name := prefix + ext;
    assert name[|prefix|] == '.';
    assert name[LastIndexOf(name, '.')..] == ext;
  }

  /** `n` is the attempt the file search stops at: its name is not taken
      by a file, and every earlier one is. */
  ghost predicate FirstFreeFile(files: set<string>, fileName: string, n: nat)
  {
    FileAttempt(fileName, n) !in files && forall k :: 0 <= k < n ==> FileAttempt(fileName, k) in files
  }

  /** The names below `input` that are directories whatever was copied:
      `input` itself (the empty name), `.` and `..`. */
  const SpecialNames: set<string> := {"", ".", ".."}

  /** `Directory.Exists` for a name below `input`. */
  predicate DirectoryExists(directories: set<string>, name: string)
  {
    name in directories || name in SpecialNames
  }

  /** `n` is the attempt the directory search stops at: its name is not an
      existing directory, and every earlier one is. */
  ghost predicate FirstFreeDirectory(directories: set<string>, directoryName: string, n: nat)
  {
    !DirectoryExists(directories, DirectoryAttempt(directoryName, n)) &&
    forall k :: 0 <= k < n ==> DirectoryExists(directories, DirectoryAttempt(directoryName, k))
  }

  lemma SubsetSize<T>(a: set<T>, b: set<T>)
    requires a <= b
    ensures |a| <= |b|
  {
    assert b == a + (b - a);
  }

  /** The attempts differ from each other. */
  ghost predicate Distinct(attempt: nat -> string)
  {
    forall i: nat, j: nat :: attempt(i) == attempt(j) ==> i == j
  }

  /** The attempts before `k` are exactly the names in `tried`, and all of
      them are taken. */
  ghost predicate Tried(taken: set<string>, attempt: nat -> string, k: nat, tried: set<string>)
  {
    tried <= taken &&
    (forall j :: 0 <= j < k ==> attempt(j) in tried) &&
    (forall x :: x in tried ==> exists j :: 0 <= j < k && x == attempt(j))
  }

  /** A taken attempt joins the tried names as a new one. */
  lemma TriedGrow(taken: set<string>, attempt: nat -> string, k: nat, tried: set<string>)
    requires Distinct(attempt) && Tried(taken, attempt, k, tried) && attempt(k) in taken
    ensures Tried(taken, attempt, k + 1, tried + {attempt(k)})
    ensures |tried| < |tried + {attempt(k)}| <= |taken|
  {
    assert attempt(k) !in tried;
    SubsetSize(tried + {attempt(k)}, taken);
  }

  /** A search that tries `attempt(k)`, `attempt(k + 1)`, ... until one is
      not taken. It ends because every attempt it passes is a different
      taken name, and only finitely many names are taken. */
  ghost function FreeIndexFrom(taken: set<string>, attempt: nat -> string, k: nat, tried: set<string>): (n: nat)
    requires Distinct(attempt) && Tried(taken, attempt, k, tried)
    ensures k <= n && attempt(n) !in taken
    ensures forall j :: 0 <= j < n ==> attempt(j) in taken
    decreases |taken| - |tried|
  {
    if attempt(k) !in taken then k
    else
      TriedGrow(taken, attempt, k, tried);
      FreeIndexFrom(taken, attempt, k + 1, tried + {attempt(k)})
  }

  /** The attempt the file search stops at: it exists, and it is the only
      attempt that is free while every earlier one is taken. */
  ghost function FreeFileIndex(files: set<string>, fileName: string): (n: nat)
    requires Separator !in fileName
    ensures FirstFreeFile(files, fileName, n)
    ensures forall m :: FirstFreeFile(files, fileName, m) ==> m == n
  {
    var attempt := (k: nat) => FileAttempt(fileName, k);
    assert Distinct(attempt) by {
      forall i: nat, j: nat ensures attempt(i) == attempt(j) ==> i == j {
        FileAttemptsDistinct(fileName, i, j);
      }
    }
    var n := FreeIndexFrom(files, attempt, 0, {});
    assert FirstFreeFile(files, fileName, n) by {
      forall j | 0 <= j < n ensures FileAttempt(fileName, j) in files {
        assert attempt(j) in files;
      }
    }
    n
  }

  /** The attempt the directory search stops at: it exists, and it is the
      only attempt that is free while every earlier one is taken. */
  ghost function FreeDirectoryIndex(directories: set<string>, directoryName: string): (n: nat)
    ensures FirstFreeDirectory(directories, directoryName, n)
    ensures forall m :: FirstFreeDirectory(directories, directoryName, m) ==> m == n
  {
    var attempt := (k: nat) => DirectoryAttempt(directoryName, k);
    assert Distinct(attempt) by {
      forall i: nat, j: nat ensures attempt(i) == attempt(j) ==> i == j {
        DirectoryAttemptsDistinct(directoryName, i, j);
      }
    }
    var n := FreeIndexFrom(directories + SpecialNames, attempt, 0, {});
    assert FirstFreeDirectory(directories, directoryName, n) by {
      forall j | 0 <= j < n ensures DirectoryExists(directories, DirectoryAttempt(directoryName, j)) {
        assert attempt(j) in directories + SpecialNames;
      }
    }
    n
  }

  /** The search loop of `CopyFileToInput`: tries the file's name, then
      `stem.1.ext`, `stem.2.ext`, ... until one is not the name of a file
      in `input`. */
  method FreeFileName(files: set<string>, fileName: string) returns (name: string)
    requires Separator !in fileName
    ensures exists n :: FirstFreeFile(files, fileName, n) && name == FileAttempt(fileName, n)
    ensures name == FileAttempt(fileName, FreeFileIndex(files, fileName))
    ensures Separator !in name
  {
    var fileNameWithoutExtension := GetFileNameWithoutExtension(fileName);
    var fileExtension := GetExtension(fileName);
    name := fileName;
    var index := 1;
    while name in files
      invariant 1 <= index <= FreeFileIndex(files, fileName) + 1
      invariant name == FileAttempt(fileName, index - 1)
      decreases FreeFileIndex(files, fileName) + 1 - index
    {
      name := fileNameWithoutExtension + "." + Decimal(index) + fileExtension;
      index := index + 1;
    }
    FileAttemptPlain(fileName, name);
  }

  /** The search loop of `CopyDirectoryToInput`: tries the directory's
      name, then `name.1`, `name.2`, ... until one is not an existing
      directory in `input`. */
  method FreeDirectoryName(directories: set<string>, directoryName: string) returns (name: string)
    ensures exists n :: FirstFreeDirectory(directories, directoryName, n) && name == DirectoryAttempt(directoryName, n)
    ensures name == DirectoryAttempt(directoryName, FreeDirectoryIndex(directories, directoryName))
  {
    var directoryBaseName := directoryName;
    name := directoryName;
    var index := 1;
    while DirectoryExists(directories, name)
      invariant 1 <= index <= FreeDirectoryIndex(directories, directoryName) + 1
      invariant name == DirectoryAttempt(directoryName, index - 1)
      decreases FreeDirectoryIndex(directories, directoryName) + 1 - index
    {
      name := directoryBaseName + "." + Decimal(index);
      index := index + 1;
    }
  }

  // ---------------------------------------------------------------------
  // The copy registry

  /** A copy made into `input`: its source, the name it got there, and
      whether it was a directory tree. */
  datatype Copy = Copy(source: string, name: string, isDirectory: bool)

  /** Why building the repro stops with an exception: a copy of `source`
      to `name` in `input` failed (the source is missing, or the name is
      taken by the other kind of entry, or is `input` itself). */
  datatype Fault = CopyFailed(source: string, name: string)

  /** `newer` keeps every entry of `older` unchanged. */
  ghost predicate Extends(newer: map<string, string>, older: map<string, string>)
  {
    forall p :: p in older ==> p in newer && newer[p] == older[p]
  }

  /** Every registered source has a name in `input`, and its registry
      value is `input/<name>`. */
  ghost predicate RegistryMatches(inputFiles: map<string, string>, names: map<string, string>)
  {
    names.Keys == inputFiles.Keys &&
    forall p :: p in names ==> inputFiles[p] == Combine(InputName, names[p])
  }

  /** Different sources have different names. */
  ghost predicate Injective(names: map<string, string>)
  {
    forall p, q :: p in names && q in names && names[p] == names[q] ==> p == q
  }

  /** Every entry of `input` comes from exactly one source: no name is both
      a file and a directory, every source's name is an entry, different
      sources have different names, there are as many entries as sources,
      and no entry is special or holds a separator. */
  ghost predicate EntriesMatch(files: set<string>, directories: set<string>, names: map<string, string>)
  {
    files !! directories &&
    (forall p :: p in names ==> names[p] in files + directories) &&
    |files + directories| == |names| &&
    Injective(names) &&
    (forall n :: n in files + directories ==> n !in SpecialNames && Separator !in n)
  }

  /** Each source was copied exactly once, under its name, as a directory
      exactly when its name is a directory of `input`. */
  ghost predicate LogMatches(copies: seq<Copy>, names: map<string, string>, directories: set<string>)
  {
    (forall i :: 0 <= i < |copies| ==>
      copies[i].source in names && names[copies[i].source] == copies[i].name &&
      (copies[i].isDirectory <==> copies[i].name in directories)) &&
    (forall i, j :: 0 <= i < j < |copies| ==> copies[i].source != copies[j].source) &&
    |copies| == |names|
  }

  lemma RegistryExtended(inputFiles: map<string, string>, names: map<string, string>, full: string, name: string)
    requires RegistryMatches(inputFiles, names)
    ensures RegistryMatches(inputFiles[full := Combine(InputName, name)], names[full := name])
  {
  }

  lemma InjectiveExtended(names: map<string, string>, entries: set<string>, full: string, name: string)
    requires Injective(names) && full !in names && name !in entries
    requires forall p :: p in names ==> names[p] in entries
    ensures Injective(names[full := name])
  {
  }

  lemma EntriesExtended(files: set<string>, directories: set<string>, names: map<string, string>,
                        full: string, name: string, files': set<string>, directories': set<string>)
    requires EntriesMatch(files, directories, names) && full !in names
    requires name !in files + directories && name !in SpecialNames && Separator !in name
    requires files' !! directories' && files' + directories' == files + directories + {name}
    ensures EntriesMatch(files', directories', names[full := name])
  {
    InjectiveExtended(names, files + directories, full, name);
  }

  lemma LogExtended(copies: seq<Copy>, names: map<string, string>, directories: set<string>, entries: set<string>,
                    full: string, name: string, isDirectory: bool)
    requires LogMatches(copies, names, directories) && full !in names
    requires forall p :: p in names ==> names[p] in entries
    requires name !in entries && directories <= entries
    ensures LogMatches(copies + [Copy(full, name, isDirectory)], names[full := name],
                       if isDirectory then directories + {name} else directories)
  {
    var copies' := copies + [Copy(full, name, isDirectory)];
    assert forall i :: 0 <= i < |copies| ==> copies'[i] == copies[i] && copies[i].source != full;
  }

  ghost predicate Consistent(files: set<string>, directories: set<string>, inputFiles: map<string, string>,
                             names: map<string, string>, copies: seq<Copy>)
  {
    RegistryMatches(inputFiles, names) &&
    EntriesMatch(files, directories, names) &&
    LogMatches(copies, names, directories)
  }

  lemma AddEntry(files: set<string>, directories: set<string>, name: string, isDirectory: bool,
                 files': set<string>, directories': set<string>)
    requires files !! directories && name !in files + directories
    requires if isDirectory then directories' == directories + {name} && files' == files
             else files' == files + {name} && directories' == directories
    ensures files' !! directories' && files' + directories' == files + directories + {name}
  {
  }

  lemma ConsistentExtended(files: set<string>, directories: set<string>, inputFiles: map<string, string>,
                           names: map<string, string>, copies: seq<Copy>, full: string, name: string, isDirectory: bool,
                           files': set<string>, directories': set<string>)
    requires Consistent(files, directories, inputFiles, names, copies) && full !in inputFiles
    requires name !in files + directories && name !in SpecialNames && Separator !in name
    requires if isDirectory then directories' == directories + {name} && files' == files
             else files' == files + {name} && directories' == directories
    ensures Consistent(files', directories', inputFiles[full := Combine(InputName, name)], names[full := name],
                       copies + [Copy(full, name, isDirectory)])
  {
    var entries := files + directories;
    assert full !in names;
    RegistryExtended(inputFiles, names, full, name);
    AddEntry(files, directories, name, isDirectory, files', directories');
    EntriesExtended(files, directories, names, full, name, files', directories');
    LogExtended(copies, names, directories, entries, full, name, isDirectory);
  }

  lemma ExtendsTransitive(a: map<string, string>, b: map<string, string>, c: map<string, string>)
    requires Extends(a, b) && Extends(b, c)
    ensures Extends(a, c)
  {
  }

  lemma ExtendsByNewKey(m: map<string, string>, k: string, v: string)
    requires k !in m
    ensures Extends(m[k := v], m)
  {
  }

  /** What the source observes of the workspace: the names of the files
      and of the directories in `input`, and the `inputFiles` registry. */
  datatype Input = Input(files: set<string>, directories: set<string>, inputFiles: map<string, string>)

  /** `input` as it is created, before anything is copied. */
  const EmptyInput := Input({}, {}, map[])

  /** What `CopyFileToInput(path)` returns and the `input` it leaves. */
  ghost function CopyFileSpec(host: Host, s: Input, path: string): (Result<string, Fault>, Input)
  {
    var full := host.getFullPath(path);
    if full in s.inputFiles then (Success(s.inputFiles[full]), s)
    else
      var name := FileAttempt(GetFileName(full), FreeFileIndex(s.files, GetFileName(full)));
      if name in SpecialNames || name in s.directories || !host.fileExists(full) then
        (Failure(CopyFailed(full, name)), s)
      else
        (Success(Combine(InputName, name)),
         Input(s.files + {name}, s.directories, s.inputFiles[full := Combine(InputName, name)]))
  }

  /** What `CopyDirectoryToInput(path)` returns and the `input` it leaves. */
  ghost function CopyDirectorySpec(host: Host, s: Input, path: string): (Result<string, Fault>, Input)
  {
    var full := host.getFullPath(path);
    if full in s.inputFiles then (Success(s.inputFiles[full]), s)
    else
      var directoryName := GetFileName(TrimEndingDirectorySeparator(full));
      var name := DirectoryAttempt(directoryName, FreeDirectoryIndex(s.directories, directoryName));
      if name in s.files || !host.directoryExists(full) then
        (Failure(CopyFailed(full, name)), s)
      else
        (Success(Combine(InputName, name)),
         Input(s.files, s.directories + {name}, s.inputFiles[full := Combine(InputName, name)]))
  }

  /** The record `a` with its path replaced by `v`, as the records' `with`
      expressions build it. */
  function WithPath(a: Argument, v: string): Argument
  {
    match a
    case Root(_, m) => Root(v, m)
    case Reference(_) => Reference(v)
    case Descriptor(_) => Descriptor(v)
    case LinkAttributes(_) => LinkAttributes(v)
    case SearchDirectory(_) => SearchDirectory(v)
    case _ => a
  }

  /** `a` pointed at the copy, or the copy's failure. */
  function Repointed(copied: Result<string, Fault>, a: Argument): Result<Argument, Fault>
  {
    if copied.Success? then Success(WithPath(a, copied.value)) else Failure(copied.error)
  }

  /** What one case of the loop's `switch` yields for `a`, and the `input`
      it leaves. */
  ghost function RewriteSpec(host: Host, s: Input, a: Argument): (Result<Argument, Fault>, Input)
  {
    match a
    case Reference(p) =>
      var c := CopyFileSpec(host, s, p); (Repointed(c.0, a), c.1)
    case Root(p, m) =>
      if host.fileExists(p) then var c := CopyFileSpec(host, s, p); (Repointed(c.0, a), c.1)
      else (Success(Root(GetFileName(p), m)), s)
    case Out(_) => (Success(Out("out")), s)
    case Descriptor(p) =>
      var c := CopyFileSpec(host, s, p); (Repointed(c.0, a), c.1)
    case LinkAttributes(p) =>
      var c := CopyFileSpec(host, s, p); (Repointed(c.0, a), c.1)
    case SearchDirectory(p) =>
      var c := CopyDirectorySpec(host, s, p); (Repointed(c.0, a), c.1)
    case _ => (Success(a), s)
  }

  /** What the loop over `arguments` yields and the `input` it leaves: the
      arguments are rewritten in order, and the first failure ends it. */
  ghost function RewriteAllSpec(host: Host, s: Input, arguments: seq<Argument>): (Result<seq<Argument>, Fault>, Input)
    decreases |arguments|
  {
    if |arguments| == 0 then (Success([]), s)
    else
      var before := RewriteAllSpec(host, s, arguments[..|arguments| - 1]);
      if before.0.Failure? then before
      else
        var next := RewriteSpec(host, before.1, arguments[|arguments| - 1]);
        if next.0.Failure? then (Failure(next.0.error), next.1)
        else (Success(before.0.value + [next.0.value]), next.1)
  }

  /** Once a copy has failed, later arguments change nothing: the loop has
      ended. */
  lemma {:induction false} FailureSticks(host: Host, s: Input, arguments: seq<Argument>, i: nat)
    requires i <= |arguments| && RewriteAllSpec(host, s, arguments[..i]).0.Failure?
    ensures RewriteAllSpec(host, s, arguments) == RewriteAllSpec(host, s, arguments[..i])
    decreases |arguments|
  {
    if i < |arguments| {
      var init := arguments[..|arguments| - 1];
      assert init[..i] == arguments[..i];
      FailureSticks(host, s, init, i);
    } else {
      assert arguments[..i] == arguments;
    }
  }

  /** One more turn of the loop: a successful rewrite is appended, and a
      failure is the loop's result. */
  lemma RewriteAllStep(host: Host, s: Input, arguments: seq<Argument>, i: nat, done: seq<Argument>, state: Input)
    requires i < |arguments| && RewriteAllSpec(host, s, arguments[..i]) == (Success(done), state)
    ensures var next := RewriteSpec(host, state, arguments[i]);
            if next.0.Success? then RewriteAllSpec(host, s, arguments[..i + 1]) == (Success(done + [next.0.value]), next.1)
            else RewriteAllSpec(host, s, arguments) == (Failure(next.0.error), next.1)
  {
    assert arguments[..i + 1][..i] == arguments[..i];
    if RewriteSpec(host, state, arguments[i]).0.Failure? {
      FailureSticks(host, s, arguments, i + 1);
    }
  }

  /** What rewriting argument `i` yields once the arguments before it are
      rewritten. */
  ghost function StepAt(host: Host, s: Input, arguments: seq<Argument>, i: nat): (Result<Argument, Fault>, Input)
    requires i < |arguments|
  {
    RewriteSpec(host, RewriteAllSpec(host, s, arguments[..i]).1, arguments[i])
  }

  /** The loop fails at argument `i`: every earlier argument was rewritten
      and rewriting this one fails. */
  ghost predicate FailsAt(host: Host, s: Input, arguments: seq<Argument>, i: nat)
  {
    i < |arguments| && RewriteAllSpec(host, s, arguments[..i]).0.Success? && StepAt(host, s, arguments, i).0.Failure?
  }

  /** The loop fails exactly when some argument's copy fails after all
      earlier ones succeeded, and then its result is that copy's fault and
      the `input` as that copy left it. */
  lemma RewriteFailsAt(host: Host, s: Input, arguments: seq<Argument>)
    ensures RewriteAllSpec(host, s, arguments).0.Failure? <==> exists i: nat :: FailsAt(host, s, arguments, i)
    ensures forall i: nat :: FailsAt(host, s, arguments, i) ==>
              RewriteAllSpec(host, s, arguments) == (Failure(StepAt(host, s, arguments, i).0.error), StepAt(host, s, arguments, i).1)
  {
    if RewriteAllSpec(host, s, arguments).0.Failure? {
      var i := FailureHasStep(host, s, arguments);
    }
    forall i: nat | FailsAt(host, s, arguments, i)
      ensures RewriteAllSpec(host, s, arguments) == (Failure(StepAt(host, s, arguments, i).0.error), StepAt(host, s, arguments, i).1)
    {
      var before := RewriteAllSpec(host, s, arguments[..i]);
      RewriteAllStep(host, s, arguments, i, before.0.value, before.1);
    }
  }

  lemma {:induction false} FailureHasStep(host: Host, s: Input, arguments: seq<Argument>) returns (i: nat)
    requires RewriteAllSpec(host, s, arguments).0.Failure?
    ensures FailsAt(host, s, arguments, i)
    decreases |arguments|
  {
    assert |arguments| > 0;
    var last := |arguments| - 1;
    var init := arguments[..last];
    if RewriteAllSpec(host, s, init).0.Failure? {
      i := FailureHasStep(host, s, init);
      assert init[..i] == arguments[..i];
    } else {
      i := last;
    }
  }

  /** The full source paths of the arguments that are copied. */
  ghost function CopiedSources(host: Host, arguments: seq<Argument>): set<string>
  {
    set j | 0 <= j < |arguments| && IsCopied(host, arguments[j]) :: host.getFullPath(PathOf(arguments[j]))
  }

  /** A successful rewrite registers its argument's source when it is
      copied, and nothing else. */
  lemma RewriteRegisters(host: Host, s: Input, a: Argument)
    requires RewriteSpec(host, s, a).0.Success?
    ensures RewriteSpec(host, s, a).1.inputFiles.Keys ==
            s.inputFiles.Keys + (if IsCopied(host, a) then {host.getFullPath(PathOf(a))} else {})
  {
    match a
    case SearchDirectory(p) => DirectoryCopyRegisters(host, s, p);
    case Reference(p) => FileCopyRegisters(host, s, p);
    case Descriptor(p) => FileCopyRegisters(host, s, p);
    case LinkAttributes(p) => FileCopyRegisters(host, s, p);
    case Root(p, _) => if host.fileExists(p) { FileCopyRegisters(host, s, p); }
    case _ =>
  }

  lemma FileCopyRegisters(host: Host, s: Input, path: string)
    requires CopyFileSpec(host, s, path).0.Success?
    ensures CopyFileSpec(host, s, path).1.inputFiles.Keys == s.inputFiles.Keys + {host.getFullPath(path)}
  {
  }

  lemma DirectoryCopyRegisters(host: Host, s: Input, path: string)
    requires CopyDirectorySpec(host, s, path).0.Success?
    ensures CopyDirectorySpec(host, s, path).1.inputFiles.Keys == s.inputFiles.Keys + {host.getFullPath(path)}
  {
  }

  /** After a successful loop the registry holds the entries it started
      with and exactly the sources of the copied arguments. */
  lemma {:induction false} RewriteRegistersAll(host: Host, s: Input, arguments: seq<Argument>)
    requires RewriteAllSpec(host, s, arguments).0.Success?
    ensures RewriteAllSpec(host, s, arguments).1.inputFiles.Keys == s.inputFiles.Keys + CopiedSources(host, arguments)
    decreases |arguments|
  {
    if |arguments| > 0 {
      var last := |arguments| - 1;
      var init := arguments[..last];
      RewriteRegistersAll(host, s, init);
      RewriteRegisters(host, RewriteAllSpec(host, s, init).1, arguments[last]);
      CopiedSourcesGrow(host, init, arguments[last]);
      assert init + [arguments[last]] == arguments;
    }
  }

  lemma CopiedSourcesGrow(host: Host, arguments: seq<Argument>, a: Argument)
    ensures CopiedSources(host, arguments + [a]) ==
            CopiedSources(host, arguments) + (if IsCopied(host, a) then {host.getFullPath(PathOf(a))} else {})
  {
    var all := arguments + [a];
    forall x | x in CopiedSources(host, arguments)
      ensures x in CopiedSources(host, all)
    {
      var j :| 0 <= j < |arguments| && IsCopied(host, arguments[j]) && x == host.getFullPath(PathOf(arguments[j]));
      assert all[j] == arguments[j];
    }
    if IsCopied(host, a) {
      assert all[|arguments|] == a;
    }
  }

  /** Arguments none of which is copied are all rewritten, and `input`
      stays as it was. */
  lemma {:induction false} NothingCopied(host: Host, s: Input, arguments: seq<Argument>)
    requires forall j :: 0 <= j < |arguments| ==> !IsCopied(host, arguments[j])
    ensures RewriteAllSpec(host, s, arguments).0.Success? && RewriteAllSpec(host, s, arguments).1 == s
    decreases |arguments|
  {
    if |arguments| > 0 {
      NothingCopied(host, s, arguments[..|arguments| - 1]);
    }
  }

  lemma FirstFileIndex(name: string)
    requires Separator !in name
    ensures FreeFileIndex({}, name) == 0 && FileAttempt(name, 0) == name
  {
    assert FirstFreeFile({}, name, 0);
  }

  lemma FirstDirectoryIndex(name: string)
    requires name !in SpecialNames
    ensures FreeDirectoryIndex({}, name) == 0 && DirectoryAttempt(name, 0) == name
  {
    assert FirstFreeDirectory({}, name, 0);
  }

  /** The first file copied into the empty `input` keeps its own name,
      unless that name is `.` or `..`. */
  lemma FirstFileCopy(host: Host, path: string)
    requires host.fileExists(host.getFullPath(path)) && GetFileName(host.getFullPath(path)) !in SpecialNames
    ensures var full := host.getFullPath(path); var name := GetFileName(full);
      CopyFileSpec(host, EmptyInput, path) ==
        (Success(Combine(InputName, name)), Input({name}, {}, map[full := Combine(InputName, name)]))
  {
    var full := host.getFullPath(path);
    var name := GetFileName(full);
    FirstFileIndex(name);
    FreshCopy(full, name);
  }

  /** The first directory copied into the empty `input` keeps its own
      name, unless that name is `.`, `..` or empty. */
  lemma FirstDirectoryCopy(host: Host, path: string)
    requires host.directoryExists(host.getFullPath(path))
    requires GetFileName(TrimEndingDirectorySeparator(host.getFullPath(path))) !in SpecialNames
    ensures var full := host.getFullPath(path); var name := GetFileName(TrimEndingDirectorySeparator(full));
      CopyDirectorySpec(host, EmptyInput, path) ==
        (Success(Combine(InputName, name)), Input({}, {name}, map[full := Combine(InputName, name)]))
  {
    var full := host.getFullPath(path);
    var name := GetFileName(TrimEndingDirectorySeparator(full));
    FirstDirectoryIndex(name);
    FreshCopy(full, name);
  }

  lemma FreshCopy(full: string, name: string)
    ensures EmptyInput.inputFiles[full := Combine(InputName, name)] == map[full := Combine(InputName, name)]
    ensures EmptyInput.directories + {name} == {name} && EmptyInput.files + {name} == {name}
    ensures full !in EmptyInput.inputFiles && name !in EmptyInput.files && name !in EmptyInput.directories
  {
  }

  /** A copied argument is rewritten to its copy: its case of the `switch`
      is `CopyFileToInput` or, for a search directory,
      `CopyDirectoryToInput`. */
  lemma CopiedRewrite(host: Host, s: Input, a: Argument)
    ensures IsCopied(host, a) && a.SearchDirectory? ==>
              var c := CopyDirectorySpec(host, s, PathOf(a)); RewriteSpec(host, s, a) == (Repointed(c.0, a), c.1)
    ensures IsCopied(host, a) && !a.SearchDirectory? ==>
              var c := CopyFileSpec(host, s, PathOf(a)); RewriteSpec(host, s, a) == (Repointed(c.0, a), c.1)
    ensures !IsCopied(host, a) ==> RewriteSpec(host, s, a).1 == s && RewriteSpec(host, s, a).0.Success?
  {
  }

  /** The state `Run` keeps while copying: the entries of `input` and the
      `inputFiles` dictionary from full source paths to the relative paths
      of their copies. */
  class Workspace {
    const host: Host
    /** Names of the files directly in `input`. */
    var files: set<string>
    /** Names of the directories directly in `input`. */
    var directories: set<string>
    /** `inputFiles`: full source path to the path of its copy, `input/name`. */
    var inputFiles: map<string, string>
    /** The name each source got in `input`. */
    ghost var names: map<string, string>
    /** The copies made so far, in order. */
    ghost var copies: seq<Copy>

    /** The registry, the entries of `input` and the copy log agree. */
    ghost predicate Valid()
      reads this
    {
      Consistent(files, directories, inputFiles, names, copies)
    }

    /** The observable part of the workspace. */
    function State(): Input
      reads this
    {
      Input(files, directories, inputFiles)
    }

    /** `input` is created empty. */
    constructor (host: Host)
      ensures Valid()
      ensures this.host == host
      ensures files == {} && directories == {} && inputFiles == map[] && copies == []
    {
      this.host := host;
      files := {};
      directories := {};
      inputFiles := map[];
      names := map[];
      copies := [];
    }

    /** `CopyFileToInput`: a source already copied gets its recorded path
        back and nothing is copied; otherwise the file is copied under the
        first of its name, `stem.1.ext`, `stem.2.ext`, ... that is not a
        file in `input` and recorded as `input/<name>`. The copy fails when
        the source is missing, when that name is a directory, or when the
        source path ends in a separator. */
    method CopyFileToInput(path: string) returns (r: Result<string, Fault>)
      requires Valid()
      modifies this
      ensures Valid()
      ensures Extends(inputFiles, old(inputFiles))
      ensures r.Success? ==> host.getFullPath(path) in inputFiles && inputFiles[host.getFullPath(path)] == r.value
      ensures host.getFullPath(path) in old(inputFiles) ==>
                r == Success(old(inputFiles)[host.getFullPath(path)]) && unchanged(this)
      ensures host.getFullPath(path) !in old(inputFiles) ==>
                var full := host.getFullPath(path);
                exists n :: FirstFreeFile(old(files), GetFileName(full), n) &&
                  var name := FileAttempt(GetFileName(full), n);
                  if name in SpecialNames || name in old(directories) || !host.fileExists(full) then
                    r == Failure(CopyFailed(full, name)) && unchanged(this)
                  else
                    r == Success(Combine(InputName, name)) &&
                    files == old(files) + {name} && directories == old(directories) &&
                    inputFiles == old(inputFiles)[full := r.value] &&
                    copies == old(copies) + [Copy(full, name, false)]
      ensures (r, State()) == CopyFileSpec(host, old(State()), path)
    {
      var full := host.getFullPath(path);
      var fileName := GetFileName(full);
      if full in inputFiles {
        return Success(inputFiles[full]);
      }
      var name := FreeFileName(files, fileName);
      ghost var n :| FirstFreeFile(files, fileName, n) && name == FileAttempt(fileName, n);
      if name in SpecialNames || name in directories || !host.fileExists(full) {
        r := Failure(CopyFailed(full, name));
        assert FirstFreeFile(old(files), GetFileName(full), n);
        return;
      }
      FileAttemptPlain(fileName, name);
      ExtendsByNewKey(inputFiles, full, Combine(InputName, name));
      var inputRelativePath := Record(full, name, false);
      r := Success(inputRelativePath);
      assert FirstFreeFile(old(files), GetFileName(full), n);
    }

    /** `CopyDirectoryToInput`: like `CopyFileToInput`, for a directory tree
        named by the last part of its path (a trailing separator dropped),
        trying `name`, `name.1`, `name.2`, ... against the directories of
        `input`. The copy fails when the source is missing or the name is
        a file. */
    method CopyDirectoryToInput(path: string) returns (r: Result<string, Fault>)
      requires Valid()
      modifies this
      ensures Valid()
      ensures Extends(inputFiles, old(inputFiles))
      ensures r.Success? ==> host.getFullPath(path) in inputFiles && inputFiles[host.getFullPath(path)] == r.value
      ensures host.getFullPath(path) in old(inputFiles) ==>
                r == Success(old(inputFiles)[host.getFullPath(path)]) && unchanged(this)
      ensures host.getFullPath(path) !in old(inputFiles) ==>
                var full := host.getFullPath(path);
                var directoryName := GetFileName(TrimEndingDirectorySeparator(full));
                exists n :: FirstFreeDirectory(old(directories), directoryName, n) &&
                  var name := DirectoryAttempt(directoryName, n);
                  if name in old(files) || !host.directoryExists(full) then
                    r == Failure(CopyFailed(full, name)) && unchanged(this)
                  else
                    r == Success(Combine(InputName, name)) &&
                    directories == old(directories) + {name} && files == old(files) &&
                    inputFiles == old(inputFiles)[full := r.value] &&
                    copies == old(copies) + [Copy(full, name, true)]
      ensures (r, State()) == CopyDirectorySpec(host, old(State()), path)
    {
      var full := host.getFullPath(path);
      var directoryName := GetFileName(TrimEndingDirectorySeparator(full));
      if full in inputFiles {
        return Success(inputFiles[full]);
      }
      var name := FreeDirectoryName(directories, directoryName);
      ghost var n :| FirstFreeDirectory(directories, directoryName, n) && name == DirectoryAttempt(directoryName, n);
      if name in files || !host.directoryExists(full) {
        r := Failure(CopyFailed(full, name));
        assert FirstFreeDirectory(old(directories), directoryName, n);
        return;
      }
      DirectoryAttemptPlain(directoryName, name);
      ExtendsByNewKey(inputFiles, full, Combine(InputName, name));
      var inputRelativePath := Record(full, name, true);
      r := Success(inputRelativePath);
      assert FirstFreeDirectory(old(directories), directoryName, n);
    }

    /** The loop over the parsed arguments (Create.cs, lines 137-171): the
        arguments are rewritten in order, and the first copy that fails
        ends the loop. */
    method RewriteArguments(arguments: seq<Argument>) returns (r: Result<seq<Argument>, Fault>)
      requires Valid()
      modifies this
      ensures Valid()
      ensures Extends(inputFiles, old(inputFiles))
      ensures r.Success? ==> AllRewrittenAs(host, inputFiles, arguments, r.value)
      ensures r.Failure? ==> r.error.source !in inputFiles
      ensures (r, State()) == RewriteAllSpec(host, old(State()), arguments)
    {
      var reproArgs: seq<Argument> := [];
      for i := 0 to |arguments|
        invariant Valid()
        invariant Extends(inputFiles, old(inputFiles))
        invariant AllRewrittenAs(host, inputFiles, arguments[..i], reproArgs)
        invariant RewriteAllSpec(host, old(State()), arguments[..i]) == (Success(reproArgs), State())
      {
        ghost var before := inputFiles;
        ghost var state := State();
        var next := RewriteArgument(arguments[i]);
        RewriteAllStep(host, old(State()), arguments, i, reproArgs, state);
        if next.Failure? {
          return Failure(next.error);
        }
        ExtendsTransitive(inputFiles, before, old(inputFiles));
        AllRewrittenAsGrows(host, before, inputFiles, arguments[..i], reproArgs, arguments[i], next.value);
        PrefixGrows(arguments, i);
        reproArgs := reproArgs + [next.value];
      }
      assert arguments[..|arguments|] == arguments;
      r := Success(reproArgs);
    }

    /** One case of the loop's `switch`: an argument that names a file or
        directory is copied and rewritten to its copy, `-out` is rewritten
        to `out`, a root assembly that does not exist keeps only its file
        name, and anything else is kept. */
    method RewriteArgument(a: Argument) returns (r: Result<Argument, Fault>)
      requires Valid()
      modifies this
      ensures Valid()
      ensures Extends(inputFiles, old(inputFiles))
      ensures r.Success? ==> RewrittenAs(host, inputFiles, a, r.value)
      ensures r.Failure? ==> r.error.source !in inputFiles
      ensures !IsCopied(host, a) ==> r.Success? && unchanged(this)
      ensures (r, State()) == RewriteSpec(host, old(State()), a)
    {
      match a {
        case Reference(p) =>
          CopiedRewrite(host, State(), a);
          r := RepointToFile(a);
        case Root(p, m) =>
          if host.fileExists(p) {
            CopiedRewrite(host, State(), a);
            r := RepointToFile(a);
          } else {
            r := Success(Root(GetFileName(p), m));
          }
        case Out(_) =>
          r := Success(Out("out"));
        case Descriptor(p) =>
          CopiedRewrite(host, State(), a);
          r := RepointToFile(a);
        case LinkAttributes(p) =>
          CopiedRewrite(host, State(), a);
          r := RepointToFile(a);
        case SearchDirectory(p) =>
          CopiedRewrite(host, State(), a);
          r := RepointToDirectory(a);
        case _ =>
          r := Success(a);
      }
    }

    /** A case that copies a file: the record `with` its path replaced by
        the path of the copy. */
    method RepointToFile(a: Argument) returns (r: Result<Argument, Fault>)
      requires Valid() && (a.Reference? || a.Root? || a.Descriptor? || a.LinkAttributes?)
      modifies this
      ensures Valid()
      ensures Extends(inputFiles, old(inputFiles))
      ensures r.Success? ==> host.getFullPath(PathOf(a)) in inputFiles &&
                              r.value == WithPath(a, inputFiles[host.getFullPath(PathOf(a))])
      ensures r.Failure? ==> r.error.source !in inputFiles
      ensures var c := CopyFileSpec(host, old(State()), PathOf(a)); (r, State()) == (Repointed(c.0, a), c.1)
    {
      var copied := CopyFileToInput(PathOf(a));
      r := Repointed(copied, a);
    }

    /** The case that copies a directory: the record `with` its path
        replaced by the path of the copy. */
    method RepointToDirectory(a: Argument) returns (r: Result<Argument, Fault>)
      requires Valid() && a.SearchDirectory?
      modifies this
      ensures Valid()
      ensures Extends(inputFiles, old(inputFiles))
      ensures r.Success? ==> host.getFullPath(PathOf(a)) in inputFiles &&
                              r.value == WithPath(a, inputFiles[host.getFullPath(PathOf(a))])
      ensures r.Failure? ==> r.error.source !in inputFiles
      ensures var c := CopyDirectorySpec(host, old(State()), PathOf(a)); (r, State()) == (Repointed(c.0, a), c.1)
    {
      var copied := CopyDirectoryToInput(PathOf(a));
      r := Repointed(copied, a);
    }

    /** Records a new copy of `full` named `name` in `input`: the name
        joins the files or the directories, and `inputFiles` maps the
        source to `input/<name>`. */
    method Record(full: string, name: string, isDirectory: bool) returns (inputRelativePath: string)
      requires Valid() && full !in inputFiles
      requires name !in files + directories && name !in SpecialNames && Separator !in name
      modifies this
      ensures Valid()
      ensures inputRelativePath == Combine(InputName, name)
      ensures inputFiles == old(inputFiles)[full := inputRelativePath]
      ensures copies == old(copies) + [Copy(full, name, isDirectory)]
      ensures if isDirectory then directories == old(directories) + {name} && files == old(files)
              else files == old(files) + {name} && directories == old(directories)
    {
      inputRelativePath := Combine(InputName, name);
      var files', directories' := files, directories;
      if isDirectory {
        directories' := directories + {name};
      } else {
        files' := files + {name};
      }
      ConsistentExtended(files, directories, inputFiles, names, copies, full, name, isDirectory, files', directories');
      files, directories, inputFiles := files', directories', inputFiles[full := inputRelativePath];
      names, copies := names[full := name], copies + [Copy(full, name, isDirectory)];
    }
  }

  /** A directory name never gains a separator from the search. */
  lemma DirectoryAttemptPlain(directoryName: string, name: string)
    requires Separator !in directoryName
    requires exists n :: name == DirectoryAttempt(directoryName, n)
    ensures Separator !in name
  {
    var n :| name == DirectoryAttempt(directoryName, n);
    if n > 0 {
      forall j | 0 <= j < |name|
        ensures name[j] != Separator
      {
        if j < |directoryName| {
          assert name[j] == directoryName[j];
        } else if j > |directoryName| {
          assert name[j] == Decimal(n)[j - |directoryName| - 1];
        }
      }
    }
  }

  /** Attempt `n > 0` renames a directory `name` to `name.<n>`. */
  lemma DirectoryAttemptNumbered(directoryName: string, n: nat)
    requires n > 0
    ensures NumberedAs(DirectoryAttempt(directoryName, n), directoryName + ".", n, "")
  {
    Numbered(directoryName + ".", n, "");
    assert directoryName + "." + Decimal(n) + "" == DirectoryAttempt(directoryName, n);
  }

  // ---------------------------------------------------------------------
  // Rewriting the command line

  /** `b` is what the repro writes for the parsed argument `a`, given the
      final `inputFiles` registry: a reference, a descriptor, a link
      attributes file and a search directory point to the copy registered
      for their full path; a root assembly does too when it exists, and is
      otherwise reduced to its file name, keeping its mode; `-out` becomes
      `out`; everything else is kept as it is. */
  predicate RewrittenAs(host: Host, registry: map<string, string>, a: Argument, b: Argument)
  {
    match a
    case Reference(p) => host.getFullPath(p) in registry && b == Reference(registry[host.getFullPath(p)])
    case Root(p, m) =>
      if host.fileExists(p) then host.getFullPath(p) in registry && b == Root(registry[host.getFullPath(p)], m)
      else b == Root(GetFileName(p), m)
    case Out(_) => b == Out("out")
    case Descriptor(p) => host.getFullPath(p) in registry && b == Descriptor(registry[host.getFullPath(p)])
    case LinkAttributes(p) => host.getFullPath(p) in registry && b == LinkAttributes(registry[host.getFullPath(p)])
    case SearchDirectory(p) => host.getFullPath(p) in registry && b == SearchDirectory(registry[host.getFullPath(p)])
    case _ => b == a
  }

  /** A rewriting stays valid as the registry grows. */
  lemma RewrittenAsExtends(host: Host, older: map<string, string>, newer: map<string, string>, a: Argument, b: Argument)
    requires Extends(newer, older) && RewrittenAs(host, older, a, b)
    ensures RewrittenAs(host, newer, a, b)
  {
  }

  /** A path a copy is registered under: `input/<name>` for a non-empty
      name that is neither `.` nor `..` and holds no separator. */
  predicate IsInputPath(v: string)
  {
    |v| > |InputName| + 1 && v[..|InputName| + 1] == InputName + [Separator] &&
    v[|InputName| + 1..] !in SpecialNames && Separator !in v[|InputName| + 1..]
  }

  /** The registry maps each source to its own copy directly below `input`. */
  predicate WellFormedRegistry(registry: map<string, string>)
  {
    (forall p :: p in registry ==> IsInputPath(registry[p])) &&
    (forall p, q :: p in registry && q in registry && registry[p] == registry[q] ==> p == q)
  }

  /** The workspace invariant makes the registry well formed: different
      sources never share a copy. */
  lemma RegistryWellFormed(inputFiles: map<string, string>, names: map<string, string>,
                           files: set<string>, directories: set<string>)
    requires RegistryMatches(inputFiles, names) && EntriesMatch(files, directories, names)
    ensures WellFormedRegistry(inputFiles)
  {
    forall p | p in inputFiles
      ensures inputFiles[p] == InputName + [Separator] + names[p]
      ensures IsInputPath(inputFiles[p])
    {
      var name := names[p];
      assert name in files + directories;
      assert name != "";
      var v := InputName + [Separator] + name;
      assert v[..|InputName| + 1] == InputName + [Separator];
      assert v[|InputName| + 1..] == name;
    }
    forall p, q | p in inputFiles && q in inputFiles && inputFiles[p] == inputFiles[q]
      ensures p == q
    {
      var v := inputFiles[p];
      assert names[p] == v[|InputName| + 1..] == names[q];
    }
  }

  /** Each argument is rewritten as `RewrittenAs` says. */
  predicate AllRewrittenAs(host: Host, registry: map<string, string>, arguments: seq<Argument>, rewritten: seq<Argument>)
  {
    |rewritten| == |arguments| &&
    forall j :: 0 <= j < |arguments| ==> RewrittenAs(host, registry, arguments[j], rewritten[j])
  }

  lemma PrefixGrows<T>(s: seq<T>, i: nat)
    requires i < |s|
    ensures s[..i + 1] == s[..i] + [s[i]]
  {
  }

  /** Rewritten arguments stay rewritten as the registry grows, and one
      more can be appended. */
  lemma AllRewrittenAsGrows(host: Host, older: map<string, string>, newer: map<string, string>,
                            arguments: seq<Argument>, rewritten: seq<Argument>, a: Argument, b: Argument)
    requires Extends(newer, older) && AllRewrittenAs(host, older, arguments, rewritten)
    requires RewrittenAs(host, newer, a, b)
    ensures AllRewrittenAs(host, newer, arguments + [a], rewritten + [b])
  {
    forall j | 0 <= j < |arguments|
      ensures RewrittenAs(host, newer, arguments[j], rewritten[j])
    {
      RewrittenAsExtends(host, older, newer, arguments[j], rewritten[j]);
    }
  }

  /** The argument is copied into `input` when rewritten. */
  predicate IsCopied(host: Host, a: Argument)
  {
    a.Reference? || a.Descriptor? || a.LinkAttributes? || a.SearchDirectory? ||
    (a.Root? && host.fileExists(a.assemblyPath))
  }

  /** What the rewritten argument's line of `linker.rsp` holds: the same
      flag (and, for a root, the same mode); a copied argument's path is its
      copy below `input`, an output path is `out`, a missing root assembly
      keeps its bare file name; so no known argument points outside the
      repro. Other arguments are written as they were read. */
  lemma RewrittenLine(host: Host, registry: map<string, string>, a: Argument, b: Argument)
    requires WellFormedRegistry(registry) && RewrittenAs(host, registry, a, b)
    ensures FlagOf(b) == FlagOf(a)
    ensures a.Root? ==> b.Root? && b.mode == a.mode
    ensures IsCopied(host, a) ==> IsInputPath(PathOf(b))
    ensures a.Out? ==> b.ToString() == "-out out"
    ensures a.Root? && !host.fileExists(a.assemblyPath) ==> PathOf(b) == GetFileName(PathOf(a))
    ensures FlagOf(a) != "" ==> !IsPathRooted(PathOf(b))
    ensures FlagOf(a) == "" ==> b.ToString() == a.ToString()
  {
    if IsCopied(host, a) {
      CopiedLine(host, registry, a, b);
    } else if a.Root? {
      FileNameNotRooted(a.assemblyPath);
    }
  }

  /** A copied argument points to its registered copy below `input`, and
      that path is not rooted. */
  lemma CopiedLine(host: Host, registry: map<string, string>, a: Argument, b: Argument)
    requires WellFormedRegistry(registry) && RewrittenAs(host, registry, a, b) && IsCopied(host, a)
    ensures host.getFullPath(PathOf(a)) in registry && PathOf(b) == registry[host.getFullPath(PathOf(a))]
    ensures IsInputPath(PathOf(b)) && !IsPathRooted(PathOf(b))
  {
    var v := registry[host.getFullPath(PathOf(a))];
    assert v[0] == v[..|InputName| + 1][0] == 'i';
  }

  /** The lines of `linker.rsp`: one per argument, in order. */
  function ResponseLines(arguments: seq<Argument>): seq<string>
  {
    seq(|arguments|, j requires 0 <= j < |arguments| => arguments[j].ToString())
  }

  /** What follows a known argument's path on its line: for `-a`, a space
      and the mode (nothing after the space when there is none). */
  function ModeSuffix(a: Argument): string
  {
    if a.Root? then " " + (if a.mode.Some? then a.mode.value else "") else ""
  }

  /** Each line of `linker.rsp` is the original argument's flag, a space,
      the rewritten path (never rooted; below `input` for a copy) and the
      original mode; an unknown argument's line is its text as read. */
  lemma ResponseFileLines(host: Host, registry: map<string, string>, arguments: seq<Argument>, rewritten: seq<Argument>)
    requires WellFormedRegistry(registry) && AllRewrittenAs(host, registry, arguments, rewritten)
    ensures |ResponseLines(rewritten)| == |arguments|
    ensures forall j :: 0 <= j < |arguments| && FlagOf(arguments[j]) != "" ==>
              ResponseLines(rewritten)[j] == FlagOf(arguments[j]) + " " + PathOf(rewritten[j]) + ModeSuffix(arguments[j]) &&
              !IsPathRooted(PathOf(rewritten[j])) &&
              (IsCopied(host, arguments[j]) ==> IsInputPath(PathOf(rewritten[j])))
    ensures forall j :: 0 <= j < |arguments| && FlagOf(arguments[j]) == "" ==>
              ResponseLines(rewritten)[j] == arguments[j].ToString()
  {
    forall j | 0 <= j < |arguments|
      ensures FlagOf(arguments[j]) != "" ==>
                ResponseLines(rewritten)[j] == FlagOf(arguments[j]) + " " + PathOf(rewritten[j]) + ModeSuffix(arguments[j]) &&
                !IsPathRooted(PathOf(rewritten[j])) &&
                (IsCopied(host, arguments[j]) ==> IsInputPath(PathOf(rewritten[j])))
      ensures FlagOf(arguments[j]) == "" ==> ResponseLines(rewritten)[j] == arguments[j].ToString()
    {
      RewrittenLine(host, registry, arguments[j], rewritten[j]);
      Rendering(rewritten[j]);
    }
  }

  // ---------------------------------------------------------------------
  // Run

  /** An exception that ends `Run`. */
  datatype Crash =
    | TaskNotUnderTarget         // a task's parent is not a target, yet its target or project is read
    | Rejected(error: ParseError) // the `ILLink` constructor throws
    | CopyError(fault: Fault)    // copying a file or directory throws

  /** How `Run` ends. */
  datatype RunOutcome =
    | GaveUp                                                      // returns -1
    | Crashed(crash: Crash)                                       // throws
    | Created(arguments: seq<Argument>, responseLines: seq<string>) // writes `linker.rsp`, returns 0

  /** The part of `Run` after parsing (Create.cs, lines 131-176): copy what
      the arguments name into a fresh `input` and write the rewritten
      arguments one per line, or crash on the first failed copy. */
  method Materialize(host: Host, arguments: seq<Argument>) returns (outcome: RunOutcome)
    ensures outcome.Created? || (outcome.Crashed? && outcome.crash.CopyError?)
    ensures outcome.Created? ==>
              (exists registry :: WellFormedRegistry(registry) && AllRewrittenAs(host, registry, arguments, outcome.arguments)) &&
              outcome.responseLines == ResponseLines(outcome.arguments)
    ensures var rewritten := RewriteAllSpec(host, EmptyInput, arguments).0;
            outcome == if rewritten.Success? then Created(rewritten.value, ResponseLines(rewritten.value))
                       else Crashed(CopyError(rewritten.error))
  {
    var workspace := new Workspace(host);
    var reproArgs := workspace.RewriteArguments(arguments);
    if reproArgs.Failure? {
      return Crashed(CopyError(reproArgs.error));
    }
    RegistryWellFormed(workspace.inputFiles, workspace.names, workspace.files, workspace.directories);
    var lines := seq(|reproArgs.value|, j requires 0 <= j < |reproArgs.value| => reproArgs.value[j].ToString());
    return Created(reproArgs.value, lines);
  }

  /** `Run` after the build log is read (Create.cs, lines 54-176): select
      the task, parse its command line in its project's directory, copy
      what it names into a fresh `input` and write the rewritten arguments
      one per line. */
  method Run(host: Host, tasks: seq<IllinkTask>, project: string, target: string) returns (outcome: RunOutcome)
    ensures outcome.GaveUp? <==> ExitCode(SelectTask(tasks, project, target)) == Some(-1)
    ensures SelectTask(tasks, project, target) == NotUnderTarget ==> outcome == Crashed(TaskNotUnderTarget)
    ensures SelectTask(tasks, project, target).Chosen? ==>
              var task := SelectTask(tasks, project, target).task;
              var parsed := ParseSpec(host, task.parent.value.project.directory, task.commandLine);
              (parsed.Failure? ==> outcome == Crashed(Rejected(parsed.error))) &&
              (parsed.Success? ==> outcome.Created? || (outcome.Crashed? && outcome.crash.CopyError?))
    ensures outcome.Created? ==>
              SelectTask(tasks, project, target).Chosen? &&
              var task := SelectTask(tasks, project, target).task;
              var parsed := ParseSpec(host, task.parent.value.project.directory, task.commandLine);
              parsed.Success? &&
              (exists registry :: WellFormedRegistry(registry) &&
                 AllRewrittenAs(host, registry, parsed.value.arguments, outcome.arguments)) &&
              outcome.responseLines == ResponseLines(outcome.arguments)
    ensures SelectTask(tasks, project, target).Chosen? ==>
              var task := SelectTask(tasks, project, target).task;
              var parsed := ParseSpec(host, task.parent.value.project.directory, task.commandLine);
              parsed.Success? ==>
                var rewritten := RewriteAllSpec(host, EmptyInput, parsed.value.arguments).0;
                outcome == if rewritten.Success? then Created(rewritten.value, ResponseLines(rewritten.value))
                           else Crashed(CopyError(rewritten.error))
  {
    var selection := SelectTask(tasks, project, target);
    match selection {
      case NotUnderTarget =>
        return Crashed(TaskNotUnderTarget);
      case Chosen(task) =>
        var projectNode := task.parent.value.project;
        var ilLink := Parse(host, projectNode.directory, task.commandLine);
        if ilLink.Failure? {
          return Crashed(Rejected(ilLink.error));
        }
        outcome := Materialize(host, ilLink.value.arguments);
      case _ =>
        return GaveUp;
    }
  }
}
