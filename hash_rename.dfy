/**
 * hash-rename, in its three versions: every listed file is hashed and renamed, within its
 * own directory, to its hash plus its extension; a name already taken is avoided by
 * trying numbered variants until one is free. The hash algorithm is a parameter.
 */
module HashRenaming {

  import opened Wrappers
  import opened FileSystem
  import Text

  datatype Version =
    | Command   // src/tom/Commands/HashRenameCommand.cs: lowercased hash, then hash_DUPE-01, hash_DUPE-02, ...
    | Legacy    // src/tom/Commands/HashRename.cs: lowercased hash, then hash_01, hash_02, ...
    | Program   // tom.hash-rename/Program.cs: the hash as computed, then hash_DUP0, hash_DUP1, ...

  /** The hash the name is built from: the commands lowercase it, the standalone program does not. */
  function HashName(v: Version, computed: string): (h: string)
    ensures v == Program ==> h == computed
    ensures v != Program ==> h == Text.ToLower(computed)
  {
    if v == Program then computed else Text.ToLower(computed)
  }

  /**
   * Whether the file is left alone: the commands compare the whole name with hash + extension
   * ignoring case; the program compares the name without its extension with the hash, exactly.
   */
  predicate AlreadyNamed(v: Version, name: string, hash: string)
  {
    if v == Program then Stem(name) == hash else Text.EqualsIgnoreCase(name, hash + Extension(name))
  }

  /** What the k-th try puts between the hash and the extension; the 0th try puts nothing. */
  function Marker(v: Version, k: nat): (m: string)
    ensures m == [] <==> k == 0
  {
    if k == 0 then ""
    else match v
      case Command => "_DUPE-" + Text.TwoDigits(k)
      case Legacy => "_" + Text.TwoDigits(k)
      case Program => "_DUP" + Text.NatToString(k - 1)
  }

  /** The k-th name tried for a file with the given hash and extension. */
  function Candidate(v: Version, hash: string, ext: string, k: nat): string
  {
    hash + Marker(v, k) + ext
  }

  lemma MarkerInjective(v: Version, a: nat, b: nat)
    requires Marker(v, a) == Marker(v, b)
    ensures a == b
  {
    if a != 0 && b != 0 {
      var m := Marker(v, a);
      match v {
        case Command =>
          assert m[6..] == Text.TwoDigits(a) && Marker(v, b)[6..] == Text.TwoDigits(b);
          Text.TwoDigitsInjective(a, b);
        case Legacy =>
          assert m[1..] == Text.TwoDigits(a) && Marker(v, b)[1..] == Text.TwoDigits(b);
          Text.TwoDigitsInjective(a, b);
        case Program =>
          assert m[4..] == Text.NatToString(a - 1) && Marker(v, b)[4..] == Text.NatToString(b - 1);
          Text.NatToStringInjective(a - 1, b - 1);
      }
    }
  }

  /** The same prefix and suffix around two middles: equal strings have equal middles. */
  lemma Middle(prefix: string, x: string, y: string, suffix: string)
    requires prefix + x + suffix == prefix + y + suffix
    ensures x == y
  {
    var s := prefix + x + suffix;
    assert s[|prefix|..|prefix| + |x|] == x;
    assert (prefix + y + suffix)[|prefix|..|prefix| + |y|] == y;
  }

  /** No two tries propose the same name, so the collision loop ends. */
  lemma CandidateInjective(v: Version, hash: string, ext: string)
    ensures Injective((k: nat) => Candidate(v, hash, ext, k))
  {
    forall a: nat, b: nat | Candidate(v, hash, ext, a) == Candidate(v, hash, ext, b)
      ensures a == b
    {
      Middle(hash, Marker(v, a), Marker(v, b), ext);
      MarkerInjective(v, a, b);
    }
  }

  /** A file with no dot in its hash keeps its extension when renamed. */
  lemma CandidateKeepsExtension(v: Version, hash: string, name: string, k: nat)
    requires '.' !in hash
    ensures Extension(Candidate(v, hash, Extension(name), k)) == Extension(name)
  {
    var m := Marker(v, k);
    assert '.' !in m by {
      if k != 0 {
        match v {
          case Command =>
            assert m == "_DUPE-" + Text.TwoDigits(k);
            forall i | 6 <= i < |m| ensures m[i] != '.' {
              assert Text.IsDigit(Text.TwoDigits(k)[i - 6]);
            }
          case Legacy =>
            assert m == "_" + Text.TwoDigits(k);
            forall i | 1 <= i < |m| ensures m[i] != '.' {
              assert Text.IsDigit(Text.TwoDigits(k)[i - 1]);
            }
          case Program =>
            assert m == "_DUP" + Text.NatToString(k - 1);
            forall i | 4 <= i < |m| ensures m[i] != '.' {
              assert Text.IsDigit(Text.NatToString(k - 1)[i - 4]);
            }
        }
      }
    }
    ExtensionOfStemAndExtension(hash + m, Extension(name));
    assert hash + m + Extension(name) == Candidate(v, hash, Extension(name), k);
  }

  /** A file renamed on the first try is left alone by the next run over the same bytes. */
  lemma FirstTryIsKeptNextRun(v: Version, hash: string, name: string)
    requires '.' !in hash
    ensures AlreadyNamed(v, Candidate(v, hash, Extension(name), 0), hash)
  {
    var renamed := Candidate(v, hash, Extension(name), 0);
    CandidateKeepsExtension(v, hash, name, 0);
    assert renamed == hash + Extension(renamed);
    if v == Program {
      assert Stem(renamed) == renamed[..|hash|];
    }
  }

  /** A file renamed on a later try is not: the next run moves it again. */
  lemma LaterTryIsMovedNextRun(v: Version, hash: string, name: string, k: nat)
    requires '.' !in hash && k > 0
    ensures !AlreadyNamed(v, Candidate(v, hash, Extension(name), k), hash)
  {
    var renamed := Candidate(v, hash, Extension(name), k);
    CandidateKeepsExtension(v, hash, name, k);
    assert Stem(renamed) + Extension(name) == hash + Marker(v, k) + Extension(name);
    assert |Text.ToLower(renamed)| != |Text.ToLower(hash + Extension(name))|;
  }

  /** How a file's turn ended: left alone, or moved to `target` on try number `tries`. */
  datatype Rename = Kept | Moved(target: FilePath, tries: nat)

  /** One line of output: "target <- source", or "path: message" for a caught IOException. */
  datatype LogLine = MovedLine(target: FilePath, source: FilePath) | ErrorLine(path: FilePath, error: string)

  /** One file's turn: hash it, leave it if it already has its name, else move it to the first free try. */
  method RenameFile(vol: Volume, v: Version, path: FilePath, hashOf: seq<bv8> -> string) returns (r: Result<Rename, string>)
    modifies vol
    ensures r.Failure? <==> path !in old(vol.files)
    ensures r.Failure? ==> r.error == FileNotFound && vol.files == old(vol.files)
    ensures r == Success(Kept) ==> vol.files == old(vol.files)
    ensures r.Success? ==> (r.value.Kept? <==> AlreadyNamed(v, path.name, HashName(v, hashOf(old(vol.files)[path]))))
    ensures r.Success? && r.value.Moved? ==>
      var h, ext, target := HashName(v, hashOf(old(vol.files)[path])), Extension(path.name), r.value.target;
      && target == FilePath(path.dir, Candidate(v, h, ext, r.value.tries))
      && target !in old(vol.files)
      && (forall j :: 0 <= j < r.value.tries ==> FilePath(path.dir, Candidate(v, h, ext, j)) in old(vol.files))
      && vol.files == (old(vol.files) - {path})[target := old(vol.files)[path]]
    ensures forall p :: p in old(vol.files) && p != path ==> p in vol.files && vol.files[p] == old(vol.files)[p]
  {
    if path !in vol.files {
      return Failure(FileNotFound);
    }
    var hash := HashName(v, hashOf(vol.files[path]));
    if AlreadyNamed(v, path.name, hash) {
      return Success(Kept);
    }
    var ext := Extension(path.name);
    var candidate := (k: nat) => Candidate(v, hash, ext, k);
    CandidateInjective(v, hash, ext);
    var tries := FirstFree(vol.files, path.dir, candidate);
    forall j | 0 <= j < tries
      ensures FilePath(path.dir, Candidate(v, hash, ext, j)) in vol.files
    {
      assert candidate(j) == Candidate(v, hash, ext, j);
    }
    var target := FilePath(path.dir, candidate(tries));
    var moved := vol.MoveTo(path, target);
    return Success(Moved(target, tries));
  }

  /**
   * What a completed rename means: the file was left alone exactly when it already has its
   * name, and a moved file went, within its directory, to one of the tries for its hash.
   */
  predicate Fits(v: Version, path: FilePath, hash: string, rename: Rename)
  {
    match rename
    case Kept => AlreadyNamed(v, path.name, hash)
    case Moved(target, tries) =>
      !AlreadyNamed(v, path.name, hash) && target == FilePath(path.dir, Candidate(v, hash, Extension(path.name), tries))
  }

  /** Where a file is after its turn: at its target when moved, else where it was. */
  function Location(path: FilePath, rename: Option<Rename>): (at: FilePath)
    ensures rename.Some? && rename.value.Moved? ==> at == rename.value.target
    ensures !(rename.Some? && rename.value.Moved?) ==> at == path
  {
    if rename.Some? && rename.value.Moved? then rename.value.target else path
  }

  /**
   * What the rename of the file at `path` did to the volume's contents: nothing, when it did
   * not happen or the file was kept; else the file moved to its target, a name no file had,
   * and the rename fits the hash of the file's bytes.
   */
  ghost predicate Effect(before: Files, after: Files, path: FilePath, rename: Option<Rename>, v: Version,
                         hashOf: seq<bv8> -> string)
  {
    && (rename.None? ==> after == before)
    && (rename.Some? ==>
          && path in before
          && Fits(v, path, HashName(v, hashOf(before[path])), rename.value)
          && (rename.value.Kept? ==> after == before)
          && (rename.value.Moved? ==>
                && rename.value.target !in before
                && after == (before - {path})[rename.value.target := before[path]]))
  }

  /**
   * One turn of the loop over the listed files, whose listed length is `length`. The commands
   * hash, show progress, then rename; the program renames, catching IOException, then shows
   * progress. `stop` is the exception that ends the run. The rename happens unless a command
   * stopped first; `rename` is how it ended, None when the file was gone.
   */
  method Turn(vol: Volume, v: Version, path: FilePath, length: nat, hashOf: seq<bv8> -> string,
              showProgress: bool, seen: nat, total: nat)
    returns (line: Option<LogLine>, seen': nat, stop: Option<string>, ghost rename: Option<Rename>)
    modifies vol
    ensures stop.None? ==> seen' == seen + length
    ensures stop.Some? ==>
      || (stop.value == DivideByZero && showProgress && total == 0)
      || (stop.value == FileNotFound && v != Program)
    ensures forall p :: p in old(vol.files) && p != path ==> p in vol.files && vol.files[p] == old(vol.files)[p]
    ensures line.Some? && line.value.MovedLine? ==> line.value.target.dir == line.value.source.dir
    ensures line.Some? && line.value.ErrorLine? ==> v == Program && IsIOException(line.value.error)
    ensures stop.None? || v == Program ==> (rename.Some? <==> path in old(vol.files))
    ensures stop.Some? && v != Program ==> rename.None?
    ensures Effect(old(vol.files), vol.files, path, rename, v, hashOf)
  {
    line, seen', stop, rename := None, seen, None, None;
    if v != Program {
      if path !in vol.files {
        return None, seen, Some(FileNotFound), None;
      }
      seen' := seen + length;
      if showProgress && Percent(seen', total).Failure? {
        return None, seen', Some(DivideByZero), None;
      }
    }
    var step := RenameFile(vol, v, path, hashOf);
    if step.Success? {
      rename := Some(step.value);
    }
    if step.Success? && step.value.Moved? {
      line := Some(MovedLine(step.value.target, path));
    } else if step.Failure? {
      line := Some(ErrorLine(path, step.error));
    }
    if v == Program {
      seen' := seen + length;
      if showProgress && Percent(seen', total).Failure? {
        stop := Some(DivideByZero);
      }
    }
  }

  /**
   * The whole run over the files listed up front. Progress is `seenBytes * 100 / totalBytes`
   * with the lengths read when the list was made; `seenBytes` ends at `totalBytes`.
   * `renames[j]` is how the j-th listed file's rename ended; when no path is listed twice,
   * every one of them fits its listed bytes' hash and the file is at its Location.
   */
  method HashRenameAll(vol: Volume, v: Version, paths: seq<FilePath>, hashOf: seq<bv8> -> string, showProgress: bool)
    returns (log: seq<LogLine>, r: Result<nat, string>, ghost renames: seq<Option<Rename>>)
    requires forall p :: p in paths ==> p in vol.files
    modifies vol
    ensures r.Success? ==> r.value == TotalBytes(old(vol.files), paths)
    ensures r.Failure? ==>
      || (r.error == DivideByZero && showProgress && paths != [] && TotalBytes(old(vol.files), paths) == 0)
      || (r.error == FileNotFound && v != Program)
    ensures forall p :: p in old(vol.files) && p !in paths ==> p in vol.files && vol.files[p] == old(vol.files)[p]
    ensures forall i :: 0 <= i < |log| && log[i].MovedLine? ==> log[i].target.dir == log[i].source.dir
    ensures forall i :: 0 <= i < |log| && log[i].ErrorLine? ==> v == Program && IsIOException(log[i].error)
    ensures |renames| <= |paths| && (r.Success? ==> |renames| == |paths|)
    ensures Distinct(paths) ==> forall j :: 0 <= j < |renames| ==>
      && renames[j].Some?
      && Fits(v, paths[j], HashName(v, hashOf(old(vol.files)[paths[j]])), renames[j].value)
      && Location(paths[j], renames[j]) in vol.files
      && vol.files[Location(paths[j], renames[j])] == old(vol.files)[paths[j]]
  {
    var listed := vol.files;  // the lengths FileInfo read when the list was made
    log, r, renames := Visits(vol, v, paths, hashOf, showProgress, listed);
    UntouchedUnlisted(vol.files, listed, paths, |renames|);
    if Distinct(paths) {
      RenamesPlaced(vol.files, listed, paths, renames, v, hashOf);
    }
  }

  /** The loop of HashRenameAll over the listing taken when the volume held `listed`. */
  method Visits(vol: Volume, v: Version, paths: seq<FilePath>, hashOf: seq<bv8> -> string, showProgress: bool, listed: Files)
    returns (log: seq<LogLine>, r: Result<nat, string>, ghost renames: seq<Option<Rename>>)
    requires forall p :: p in paths ==> p in listed
    requires vol.files == listed
    modifies vol
    ensures r.Success? ==> r.value == TotalBytes(listed, paths) && |renames| == |paths|
    ensures r.Failure? ==>
      || (r.error == DivideByZero && showProgress && paths != [] && TotalBytes(listed, paths) == 0)
      || (r.error == FileNotFound && v != Program)
    ensures LogFits(log, v) && Renamed(vol.files, listed, paths, renames, v, hashOf)
  {
    var total := TotalBytes(listed, paths);
    var seen := 0;
    log, renames := [], [];
    var i := 0;
    while i < |paths|
      invariant i == |renames|
      invariant Renamed(vol.files, listed, paths, renames, v, hashOf)
      invariant seen == TotalBytes(listed, paths[..i])
      invariant LogFits(log, v)
    {
      TotalBytesStep(listed, paths, i);
      var stop;
      log, seen, stop, renames := Step(vol, v, listed, paths, hashOf, showProgress, total, log, seen, i, renames);
      if stop.Some? {
        return log, Failure(stop.value), renames;
      }
      i := i + 1;
    }
    assert paths[..|renames|] == paths;
    return log, Success(seen), renames;
  }

  /**
   * The turn of the next listed file, its line added to the log. The rename counts unless a
   * command stopped before it.
   */
  method Step(vol: Volume, v: Version, listed: Files, paths: seq<FilePath>, hashOf: seq<bv8> -> string,
              showProgress: bool, total: nat, log: seq<LogLine>, seen: nat, i: nat, ghost renames: seq<Option<Rename>>)
    returns (log': seq<LogLine>, seen': nat, stop: Option<string>, ghost renames': seq<Option<Rename>>)
    requires i == |renames| < |paths| && LogFits(log, v)
    requires Renamed(vol.files, listed, paths, renames, v, hashOf)
    modifies vol
    ensures stop.None? ==> seen' == seen + |listed[paths[|renames|]]|
    ensures stop.Some? ==>
      || (stop.value == DivideByZero && showProgress && total == 0)
      || (stop.value == FileNotFound && v != Program)
    ensures |log| <= |log'| <= |log| + 1 && log'[..|log|] == log && LogFits(log', v)
    ensures if stop.Some? && v != Program then renames' == renames
            else |renames'| == |renames| + 1 && renames'[..|renames|] == renames
    ensures Renamed(vol.files, listed, paths, renames', v, hashOf)
  {
    ghost var before := vol.files;
    var line; ghost var rename;
    line, seen', stop, rename := Turn(vol, v, paths[i], |listed[paths[i]]|, hashOf, showProgress, seen, total);
    log' := if line.Some? then log + [line.value] else log;
    if stop.Some? && v != Program {
      renames' := renames;
    } else {
      RenameStep(before, vol.files, listed, paths, renames, rename, v, hashOf);
      renames' := renames + [rename];
      assert renames'[..|renames|] == renames;
    }
  }

  /** Each moved line stays within a directory; only the program logs errors, and only IOExceptions. */
  ghost predicate LogFits(log: seq<LogLine>, v: Version)
  {
    forall k :: 0 <= k < |log| ==>
      && (log[k].MovedLine? ==> log[k].target.dir == log[k].source.dir)
      && (log[k].ErrorLine? ==> v == Program && IsIOException(log[k].error))
  }

  /** Where the first |renames| listed files are after their turns. */
  ghost function Locations(paths: seq<FilePath>, renames: seq<Option<Rename>>): (ats: seq<FilePath>)
    requires |renames| <= |paths|
    ensures |ats| == |renames|
  {
    seq(|renames|, j requires 0 <= j < |renames| => Location(paths[j], renames[j]))
  }

  /**
   * What the renames so far have done: files not yet visited are as listed; and, when no path
   * is listed twice, every visited file's rename completed, fits the hash of its listed bytes,
   * and left the file at its Location with those bytes.
   */
  ghost predicate Renamed(files: Files, listed: Files, paths: seq<FilePath>, renames: seq<Option<Rename>>,
                          v: Version, hashOf: seq<bv8> -> string)
  {
    && |renames| <= |paths|
    && (forall p :: p in paths ==> p in listed)
    && Untouched(files, listed, paths[..|renames|])
    && (Distinct(paths) ==>
          && AllFit(listed, paths, renames, v, hashOf)
          && PlacedAt(files, listed, paths[..|renames|], Locations(paths, renames), paths[|renames|..]))
  }

  /** Every rename so far completed and fits the hash of the file's listed bytes. */
  ghost predicate AllFit(listed: Files, paths: seq<FilePath>, renames: seq<Option<Rename>>, v: Version, hashOf: seq<bv8> -> string)
    decreases |renames|
  {
    && |renames| <= |paths|
    && (renames != [] ==>
          && AllFit(listed, paths, renames[..|renames| - 1], v, hashOf)
          && FitsAt(listed, paths, renames, v, hashOf, |renames| - 1))
  }

  lemma {:induction false} AllFitAt(listed: Files, paths: seq<FilePath>, renames: seq<Option<Rename>>, v: Version,
                                    hashOf: seq<bv8> -> string, j: int)
    requires AllFit(listed, paths, renames, v, hashOf) && 0 <= j < |renames|
    ensures FitsAt(listed, paths, renames, v, hashOf, j)
    decreases |renames|
  {
    var n := |renames| - 1;
    if j < n {
      AllFitAt(listed, paths, renames[..n], v, hashOf, j);
      assert renames[..n][j] == renames[j];
      FitsAtPrefix(listed, paths, renames, v, hashOf, j, n);
    } else {
      assert j == n;
    }
  }

  /** The j-th rename completed and fits the hash of the file's listed bytes. */
  ghost predicate FitsAt(listed: Files, paths: seq<FilePath>, renames: seq<Option<Rename>>, v: Version,
                         hashOf: seq<bv8> -> string, j: int)
  {
    && 0 <= j < |renames| && j < |paths|
    && paths[j] in listed && renames[j].Some?
    && Fits(v, paths[j], HashName(v, hashOf(listed[paths[j]])), renames[j].value)
  }

  lemma FitsAtPrefix(listed: Files, paths: seq<FilePath>, renames: seq<Option<Rename>>, v: Version,
                     hashOf: seq<bv8> -> string, j: int, n: int)
    requires 0 <= j < n <= |renames| && FitsAt(listed, paths, renames[..n], v, hashOf, j)
    ensures FitsAt(listed, paths, renames, v, hashOf, j)
  {
    assert renames[..n][j] == renames[j];
  }

  /** One rename, on the volume's contents before and after it, keeps Renamed. */
  lemma RenameStep(before: Files, after: Files, listed: Files, paths: seq<FilePath>, renames: seq<Option<Rename>>,
                   rename: Option<Rename>, v: Version, hashOf: seq<bv8> -> string)
    requires |renames| < |paths|
    requires Renamed(before, listed, paths, renames, v, hashOf)
    requires rename.None? ==> paths[|renames|] !in before
    requires Effect(before, after, paths[|renames|], rename, v, hashOf)
    ensures Renamed(after, listed, paths, renames + [rename], v, hashOf)
  {
    var i := |renames|;
    VisitKeeps(before, after, listed, paths, i);
    if Distinct(paths) {
      DistinctUnvisited(before, listed, paths, i);
      assert (renames + [rename])[..i] == renames;
      LocationsStep(before, after, listed, paths, renames, rename);
    }
  }

  lemma LocationsStep(before: Files, after: Files, listed: Files, paths: seq<FilePath>, renames: seq<Option<Rename>>,
                      rename: Option<Rename>)
    requires |renames| < |paths| && forall p :: p in paths ==> p in listed
    requires paths[|renames|] in before && before[paths[|renames|]] == listed[paths[|renames|]]
    requires paths[|renames|..] == [paths[|renames|]] + paths[|renames| + 1..] && paths[|renames|] !in paths[|renames| + 1..]
    requires forall p :: p in paths[|renames| + 1..] ==> p in before
    requires PlacedAt(before, listed, paths[..|renames|], Locations(paths, renames), paths[|renames|..])
    requires !(rename.Some? && rename.value.Moved?) ==> after == before
    requires rename.Some? && rename.value.Moved? ==>
      && rename.value.target !in before
      && after == (before - {paths[|renames|]})[rename.value.target := before[paths[|renames|]]]
    ensures PlacedAt(after, listed, paths[..|renames| + 1], Locations(paths, renames + [rename]), paths[|renames| + 1..])
  {
    var i := |renames|;
    assert Locations(paths, renames + [rename]) == Locations(paths, renames) + [Location(paths[i], rename)];
    PlacedStep(before, after, listed, paths[..i], Locations(paths, renames), paths[i], paths[i + 1..], Location(paths[i], rename));
    assert paths[..i + 1] == paths[..i] + [paths[i]];
  }

  /** Renamed's renames and placement, spelled out. */
  lemma RenamesPlaced(files: Files, listed: Files, paths: seq<FilePath>, renames: seq<Option<Rename>>,
                      v: Version, hashOf: seq<bv8> -> string)
    requires Renamed(files, listed, paths, renames, v, hashOf) && Distinct(paths)
    ensures forall j :: 0 <= j < |renames| ==>
      && renames[j].Some?
      && Fits(v, paths[j], HashName(v, hashOf(listed[paths[j]])), renames[j].value)
      && Location(paths[j], renames[j]) in files && files[Location(paths[j], renames[j])] == listed[paths[j]]
  {
    forall j | 0 <= j < |renames|
      ensures && renames[j].Some?
              && Fits(v, paths[j], HashName(v, hashOf(listed[paths[j]])), renames[j].value)
              && Location(paths[j], renames[j]) in files && files[Location(paths[j], renames[j])] == listed[paths[j]]
    {
      AllFitAt(listed, paths, renames, v, hashOf, j);
      assert Locations(paths, renames)[j] == Location(paths[j], renames[j]);
      assert paths[..|renames|][j] == paths[j];
    }
  }
}
