/**
 * The slice of the file system the renaming, deduplicating and filtering commands
 * touch: files addressed by (directory, name), each holding its bytes, and the
 * .NET rules for a file name's extension, for combining paths and for moving a file.
 */
module FileSystem {

  import opened Wrappers
  import Text

  const IOException := "IOException"
  const FileNotFound := "FileNotFoundException"
  const DivideByZero := "DivideByZeroException"

  /** Path.DirectorySeparatorChar on Windows, where these tools run. */
  const Separator := '\\'

  /** A file's location: its directory's full name and its own name. */
  datatype FilePath = FilePath(dir: string, name: string)

  type Files = map<FilePath, seq<bv8>>

  /** FileNotFoundException derives from IOException, so a handler for the one catches the other. */
  predicate IsIOException(e: string)
  {
    e == IOException || e == FileNotFound
  }

  /** Path.Combine(dir, name): a separator is put in unless dir already ends in one. */
  function Combine(dir: string, name: string): (r: string)
    ensures Text.StartsWith(r, dir)
  {
    if dir != [] && dir[|dir| - 1] == Separator then dir + name else dir + [Separator] + name
  }

  /** Combine keeps the name it appends at the end. */
  lemma CombineEndsWithName(dir: string, name: string)
    ensures |Combine(dir, name)| >= |name|
    ensures Combine(dir, name)[|Combine(dir, name)| - |name|..] == name
  {
  }

  /**
   * FileInfo.Extension: from the last '.' to the end, dot included; empty when the name
   * has no '.' or ends in one.
   */
  function Extension(name: string): (e: string)
    ensures |e| <= |name|
    ensures e == name[|name| - |e|..]
    ensures e == [] || (|e| >= 2 && e[0] == '.' && '.' !in e[1..])
  {
    var k := Text.LastIndexOf(name, '.');
    if k < 0 || k == |name| - 1 then "" else name[k..]
  }

  /** The name without its extension: Name.Substring(0, Name.Length - Extension.Length). */
  function Stem(name: string): (s: string)
    ensures s + Extension(name) == name
  {
    name[..|name| - |Extension(name)|]
  }

  /** A name for which the given extension is the extension, when the stem has no dot. */
  lemma {:induction false} ExtensionOfStemAndExtension(stem: string, ext: string)
    requires '.' !in stem
    requires ext == [] || (|ext| >= 2 && ext[0] == '.' && '.' !in ext[1..])
    ensures Extension(stem + ext) == ext
  {
    var name := stem + ext;
    if ext == [] {
      assert name == stem;
    } else {
      assert name[|stem| + 1..] == ext[1..];
      Text.LastIndexOfAt(name, '.', |stem|);
      assert name[|stem|..] == ext;
    }
  }

  /** The sum of the lengths of the listed files, counting a file once per listing. */
  function TotalBytes(files: Files, paths: seq<FilePath>): (n: nat)
    requires forall p :: p in paths ==> p in files
  {
    if paths == [] then 0 else TotalBytes(files, paths[..|paths| - 1]) + |files[paths[|paths| - 1]]|
  }

  /** Adding one more listed file adds its length. */
  lemma TotalBytesStep(files: Files, paths: seq<FilePath>, i: int)
    requires forall p :: p in paths ==> p in files
    requires 0 <= i < |paths|
    ensures TotalBytes(files, paths[..i + 1]) == TotalBytes(files, paths[..i]) + |files[paths[i]]|
  {
    assert paths[..i + 1][..i] == paths[..i];
  }

  /**
   * `seenBytes * 100 / totalBytes` on longs, as the progress display computes it: a zero total
   * throws DivideByZeroException (both counts are sums of lengths, so the quotient is Euclidean).
   */
  function Percent(seen: nat, total: nat): (r: Result<nat, string>)
    ensures r.Failure? <==> total == 0
    ensures r.Failure? ==> r.error == DivideByZero
  {
    if total == 0 then Failure(DivideByZero) else Success(seen * 100 / total)
  }

  // ------------------------------------------------------------------ choosing a free name

  /** A candidate-name scheme that never proposes the same name twice. */
  ghost predicate Injective(candidate: nat -> string)
  {
    forall a: nat, b: nat :: candidate(a) == candidate(b) ==> a == b
  }

  /** The files of `dir` whose names are candidates numbered k or later. */
  ghost function Taken(files: Files, dir: string, candidate: nat -> string, k: nat): set<FilePath>
  {
    set p | p in files && p.dir == dir && exists m: nat :: m >= k && p.name == candidate(m)
  }

  lemma TakenShrinks(files: Files, dir: string, candidate: nat -> string, k: nat)
    requires Injective(candidate)
    requires FilePath(dir, candidate(k)) in files
    ensures Taken(files, dir, candidate, k + 1) < Taken(files, dir, candidate, k)
  {
    var p := FilePath(dir, candidate(k));
    assert p in Taken(files, dir, candidate, k);
  }

  /**
   * The collision loop `while (File.Exists(Path.Combine(dir, name))) name = next`: it stops at
   * the first candidate that names no file in `dir`. It ends because the directory is finite
   * and the candidates are distinct.
   */
  method FirstFree(files: Files, dir: string, candidate: nat -> string) returns (k: nat)
    requires Injective(candidate)
    ensures FilePath(dir, candidate(k)) !in files
    ensures forall j :: 0 <= j < k ==> FilePath(dir, candidate(j)) in files
  {
    k := 0;
    while FilePath(dir, candidate(k)) in files
      invariant forall j :: 0 <= j < k ==> FilePath(dir, candidate(j)) in files
      decreases Taken(files, dir, candidate, k)
    {
      TakenShrinks(files, dir, candidate, k);
      k := k + 1;
    }
  }

  // ------------------------------------------------------------------ a run over a listing

  /** No file is listed twice, as in one directory's listing. */
  ghost predicate Distinct(paths: seq<FilePath>)
  {
    forall j :: 0 <= j < |paths| ==> paths[j] !in paths[..j]
  }

  /** The listed files not yet visited, those not in `seen`, still hold their listed bytes. */
  ghost predicate Untouched(files: Files, listed: Files, seen: seq<FilePath>)
  {
    && (forall p {:trigger p in files} :: p in listed && p !in seen ==> p in files)
    && (forall p {:trigger files[p]} :: p in listed && p !in seen && p in files ==> files[p] == listed[p])
  }

  /** A turn that changes only file i keeps the files after it untouched. */
  lemma VisitKeeps(before: Files, after: Files, listed: Files, paths: seq<FilePath>, i: int)
    requires 0 <= i < |paths| && forall p :: p in paths ==> p in listed
    requires Untouched(before, listed, paths[..i])
    requires forall p :: p in before && p != paths[i] ==> p in after && after[p] == before[p]
    ensures Untouched(after, listed, paths[..i + 1])
    ensures paths[i] !in paths[..i] ==> paths[i] in before && before[paths[i]] == listed[paths[i]]
  {
    assert paths[..i + 1] == paths[..i] + [paths[i]];
    forall p | p in listed && p !in paths[..i + 1] ensures p in after && after[p] == listed[p] {
      assert p !in paths[..i] && p != paths[i];
      assert p in before && before[p] == listed[p];
    }
    if paths[i] !in paths[..i] {
      assert paths[i] in before && before[paths[i]] == listed[paths[i]];
    }
  }

  /** Files never listed are untouched when the listed files so far are. */
  lemma UntouchedUnlisted(files: Files, listed: Files, paths: seq<FilePath>, i: int)
    requires 0 <= i <= |paths|
    requires Untouched(files, listed, paths[..i])
    ensures forall p :: p in listed && p !in paths ==> p in files && files[p] == listed[p]
  {
    forall p | p in listed && p !in paths ensures p in files && files[p] == listed[p] {
      assert p !in paths[..i];
      assert p in files && files[p] == listed[p];
    }
  }

  /**
   * Where visited files now are: the file listed at origins[j] is at locs[j] with its listed
   * bytes, and none of those places is a listed file still to come.
   */
  ghost predicate PlacedAt(files: Files, listed: Files, origins: seq<FilePath>, locs: seq<FilePath>, future: seq<FilePath>)
  {
    && |origins| == |locs|
    && forall j {:trigger locs[j]} :: 0 <= j < |locs| ==>
         origins[j] in listed && locs[j] in files && files[locs[j]] == listed[origins[j]] && locs[j] !in future
  }

  /** In a listing without repeats, the files still to come hold their listed bytes and are all different. */
  lemma DistinctUnvisited(files: Files, listed: Files, paths: seq<FilePath>, i: int)
    requires 0 <= i < |paths| && forall p :: p in paths ==> p in listed
    requires Distinct(paths) && Untouched(files, listed, paths[..i])
    ensures paths[i] in files && files[paths[i]] == listed[paths[i]]
    ensures paths[i..] == [paths[i]] + paths[i + 1..] && paths[i] !in paths[i + 1..]
    ensures forall p :: p in paths[i + 1..] ==> p in files
  {
    forall j | i <= j < |paths| ensures paths[j] in files && files[paths[j]] == listed[paths[j]] {
      forall k | 0 <= k < i ensures paths[k] != paths[j] {
        assert paths[k] == paths[..j][k];
      }
      assert paths[j] !in paths[..i];
      var bytes := listed[paths[j]];
      assert paths[j] in files && files[paths[j]] == bytes;
    }
    assert paths[i..] == [paths[i]] + paths[i + 1..];
    forall k | i + 1 <= k < |paths| ensures paths[k] != paths[i] {
      assert paths[i] == paths[..k][i];
    }
  }

  /**
   * The turn of the file at `path`, the next one listed: left where it is, or moved to a place
   * no file had. It is placed there, and the files placed before stay put.
   */
  lemma PlacedStep(before: Files, after: Files, listed: Files, origins: seq<FilePath>, locs: seq<FilePath>,
                   path: FilePath, future: seq<FilePath>, loc: FilePath)
    requires path in listed && forall p :: p in origins ==> p in listed
    requires PlacedAt(before, listed, origins, locs, [path] + future)
    requires path in before && before[path] == listed[path] && path !in future
    requires forall p :: p in future ==> p in before
    requires || (loc == path && after == before)
             || (loc !in before && after == (before - {path})[loc := before[path]])
    ensures PlacedAt(after, listed, origins + [path], locs + [loc], future)
  {
    forall j | 0 <= j < |locs| ensures locs[j] != path && locs[j] in before {
      assert locs[j] !in [path] + future;
    }
  }

  /**
   * The turn of the file at `path`, the next one listed, that places nothing new: the file is
   * left where it is or moved to a place no file had. The files placed before stay put.
   */
  lemma PlacedAside(before: Files, after: Files, listed: Files, origins: seq<FilePath>, locs: seq<FilePath>,
                    path: FilePath, future: seq<FilePath>, loc: FilePath)
    requires PlacedAt(before, listed, origins, locs, [path] + future)
    requires path in before && (loc == path || loc !in before)
    requires after == (before - {path})[loc := before[path]]
    ensures PlacedAt(after, listed, origins, locs, future)
  {
    forall j | 0 <= j < |locs| ensures locs[j] !in future && locs[j] != path {
      assert locs[j] !in [path] + future;
    }
  }

  /** The volume the commands work on. */
  class Volume {
    var files: Files

    constructor(files: Files)
      ensures this.files == files
    {
      this.files := files;
    }

    /**
     * FileInfo.MoveTo(destination): a missing source throws FileNotFoundException, an existing
     * destination (the source itself included) throws IOException; otherwise the bytes move.
     */
    method MoveTo(source: FilePath, destination: FilePath) returns (r: Result<(), string>)
      modifies this
      ensures source !in old(files) ==> r == Failure(FileNotFound)
      ensures source in old(files) && destination in old(files) ==> r == Failure(IOException)
      ensures r.Failure? ==> files == old(files)
      ensures r.Success? <==> source in old(files) && destination !in old(files)
      ensures r.Success? ==> files == (old(files) - {source})[destination := old(files)[source]]
    {
      if source !in files {
        return Failure(FileNotFound);
      }
      if destination in files {
        return Failure(IOException);
      }
      files := (files - {source})[destination := files[source]];
      return Success(());
    }

    /** FileInfo.Delete(). Deleting a missing file does nothing. */
    method Delete(path: FilePath)
      modifies this
      ensures files == old(files) - {path}
    {
      files := files - {path};
    }
  }
}
