/**
 * hash-hl: hash every listed file; the first file seen with a hash is kept and recorded,
 * and every later file with that hash is deleted and replaced, at its own path, by a hard
 * link to the recorded one. The hash algorithm and the Win32 link call are parameters.
 */
module HashHardlink {

  import opened Wrappers
  import opened FileSystem
  import Text

  /** Environment.Exit(1) after a failed CreateHardLink. */
  const ExitOnLinkFailure := "Environment.Exit(1)"

  // ------------------------------------------------------------------ the fold, as values

  /** The dictionary after visiting files with these keys: each key maps to the first file that had it. */
  function Firsts(keys: seq<string>, paths: seq<FilePath>): (m: map<string, FilePath>)
    requires |keys| == |paths|
    decreases |keys|
  {
    if keys == [] then map[]
    else
      var m := Firsts(keys[..|keys| - 1], paths[..|paths| - 1]);
      var k := keys[|keys| - 1];
      if k in m then m else m[k := paths[|paths| - 1]]
  }

  /** The number of files whose key an earlier file already had: the duplicates. */
  function Duplicates(keys: seq<string>): (n: nat)
    ensures n <= |keys|
    decreases |keys|
  {
    if keys == [] then 0
    else Duplicates(keys[..|keys| - 1]) + (if keys[|keys| - 1] in keys[..|keys| - 1] then 1 else 0)
  }

  /** The summed lengths of the duplicates. */
  function DuplicateBytes(keys: seq<string>, lengths: seq<nat>): nat
    requires |keys| == |lengths|
    decreases |keys|
  {
    if keys == [] then 0
    else
      DuplicateBytes(keys[..|keys| - 1], lengths[..|lengths| - 1])
      + (if keys[|keys| - 1] in keys[..|keys| - 1] then lengths[|lengths| - 1] else 0)
  }

  /** The dictionary holds exactly the keys seen. */
  lemma {:induction false} FirstsKeys(keys: seq<string>, paths: seq<FilePath>, k: string)
    requires |keys| == |paths|
    ensures k in Firsts(keys, paths) <==> k in keys
    decreases |keys|
  {
    if keys != [] {
      var n := |keys| - 1;
      FirstsKeys(keys[..n], paths[..n], k);
      assert keys == keys[..n] + [keys[n]];
    }
  }

  /** First wins: a key maps to the file at the first position that had it. */
  lemma {:induction false} FirstWins(keys: seq<string>, paths: seq<FilePath>, j: int)
    requires |keys| == |paths| && 0 <= j < |keys| && keys[j] !in keys[..j]
    ensures keys[j] in Firsts(keys, paths) && Firsts(keys, paths)[keys[j]] == paths[j]
    decreases |keys|
  {
    var n := |keys| - 1;
    if j < n {
      assert keys[..n][..j] == keys[..j];
      FirstWins(keys[..n], paths[..n], j);
    } else {
      FirstsKeys(keys[..n], paths[..n], keys[j]);
    }
  }

  /** A recorded mapping is never replaced by later files. */
  lemma {:induction false} FirstsNeverReplaced(keys: seq<string>, paths: seq<FilePath>, n: int, k: string)
    requires |keys| == |paths| && 0 <= n <= |keys|
    requires k in Firsts(keys[..n], paths[..n])
    ensures k in Firsts(keys, paths) && Firsts(keys, paths)[k] == Firsts(keys[..n], paths[..n])[k]
    decreases |keys| - n
  {
    if n == |keys| {
      assert keys[..n] == keys && paths[..n] == paths;
    } else {
      var m := |keys| - 1;
      assert keys[..m][..n] == keys[..n] && paths[..m][..n] == paths[..n];
      FirstsNeverReplaced(keys[..m], paths[..m], n, k);
    }
  }

  /** Every visited file is either recorded or counted as a duplicate. */
  lemma {:induction false} RecordedPlusDuplicates(keys: seq<string>, paths: seq<FilePath>)
    requires |keys| == |paths|
    ensures |Firsts(keys, paths)| + Duplicates(keys) == |keys|
    decreases |keys|
  {
    if keys != [] {
      var n := |keys| - 1;
      RecordedPlusDuplicates(keys[..n], paths[..n]);
      FirstsKeys(keys[..n], paths[..n], keys[n]);
    }
  }

  // ------------------------------------------------------------------ the run

  /** A line "existing  <==>  link": the duplicate at `link` now links to the file recorded for `key`. */
  datatype Link = Link(key: string, existing: FilePath, link: FilePath)

  /**
   * One duplicate: delete it, then CreateHardLink(link, existing). The link call succeeds when
   * the recorded file exists, the path is free and `linkSucceeds` says the system call works;
   * a failure exits the process, with the duplicate already deleted.
   */
  method Relink(vol: Volume, existing: FilePath, link: FilePath, linkSucceeds: (FilePath, FilePath) -> bool)
    returns (r: Result<(), string>)
    modifies vol
    ensures r.Success? <==> existing in old(vol.files) && existing != link && linkSucceeds(existing, link)
    ensures r.Failure? ==> r.error == ExitOnLinkFailure && vol.files == old(vol.files) - {link}
    ensures r.Success? ==> vol.files == old(vol.files)[link := old(vol.files)[existing]]
  {
    vol.Delete(link);
    if existing in vol.files && linkSucceeds(existing, link) {
      vol.files := vol.files[link := vol.files[existing]];
      return Success(());
    }
    return Failure(ExitOnLinkFailure);
  }

  /** The fold's values after the files with the given keys are visited, as Run keeps them. */
  ghost predicate Folded(listed: Files, paths: seq<FilePath>, keys: seq<string>, files: map<string, FilePath>,
                         saveCount: nat, saveBytes: nat, links: seq<Link>)
    requires forall p :: p in paths ==> p in listed
  {
    && |keys| <= |paths|
    && (forall j :: 0 <= j < |keys| ==> Text.ToLower(keys[j]) == keys[j])
    && files == Firsts(keys, paths[..|keys|])
    && saveCount == Duplicates(keys)
    && saveBytes == DuplicateBytes(keys, Lengths(listed, paths[..|keys|]))
    && (forall i :: 0 <= i < |links| ==> links[i].key in files && files[links[i].key] == links[i].existing)
  }

  /** The key of a file's bytes: its hash, lowercased. */
  function Key(hashOf: seq<bv8> -> string, bytes: seq<bv8>): (k: string)
    ensures Text.ToLower(k) == k
  {
    Text.ToLowerIdempotent(hashOf(bytes));
    Text.ToLower(hashOf(bytes))
  }

  /** Each file visited for the first time has its listed bytes' key. */
  ghost predicate Hashed(listed: Files, hashOf: seq<bv8> -> string, paths: seq<FilePath>, keys: seq<string>)
    requires forall p :: p in paths ==> p in listed
    requires |keys| <= |paths|
  {
    forall j {:trigger keys[j]} :: 0 <= j < |keys| && paths[j] !in paths[..j] ==> keys[j] == Key(hashOf, listed[paths[j]])
  }

  /** Files not yet visited still hold the bytes they were listed with. */
  ghost predicate Untouched(now: Files, listed: Files, seen: seq<FilePath>)
  {
    forall p {:trigger listed[p]} :: p in listed && p !in seen ==> p in now && now[p] == listed[p]
  }

  /**
   * What the links did to the volume: every recorded file still holds its listed bytes, whose
   * key it is recorded under; every link holds the bytes of the file it links to; and every
   * visited file still present holds the bytes of the file recorded for its key.
   */
  ghost predicate Linked(now: Files, listed: Files, hashOf: seq<bv8> -> string, seen: seq<FilePath>,
                         files: map<string, FilePath>, links: seq<Link>)
  {
    && (forall k {:trigger files[k]} :: k in files ==>
          files[k] in listed && files[k] in now && now[files[k]] == listed[files[k]] && Key(hashOf, listed[files[k]]) == k)
    && (forall i :: 0 <= i < |links| ==>
          links[i].existing in listed && links[i].link in now && now[links[i].link] == listed[links[i].existing])
    && (forall p {:trigger now[p]} :: p in seen && p in now ==>
          Key(hashOf, now[p]) in files && now[p] == listed[files[Key(hashOf, now[p])]])
  }

  /** The key recorded for file i is its listed bytes' key when i is its first visit. */
  lemma HashedStep(now: Files, listed: Files, hashOf: seq<bv8> -> string, paths: seq<FilePath>, keys: seq<string>)
    requires forall p :: p in paths ==> p in listed
    requires |keys| < |paths| && paths[|keys|] in now
    requires Hashed(listed, hashOf, paths, keys) && Untouched(now, listed, paths[..|keys|])
    ensures Hashed(listed, hashOf, paths, keys + [Key(hashOf, now[paths[|keys|]])])
  {
    var n, keys' := |keys|, keys + [Key(hashOf, now[paths[|keys|]])];
    forall j | 0 <= j < |keys'| && paths[j] !in paths[..j]
      ensures keys'[j] == Key(hashOf, listed[paths[j]])
    {
      if j == n {
        assert now[paths[n]] == listed[paths[n]];
      }
    }
  }

  /** A file with a new key is recorded: the volume does not change. */
  lemma VisitRecords(now: Files, listed: Files, hashOf: seq<bv8> -> string, paths: seq<FilePath>, keys: seq<string>,
                     files: map<string, FilePath>, links: seq<Link>)
    requires forall p :: p in paths ==> p in listed
    requires |keys| < |paths| && paths[|keys|] in now && Key(hashOf, now[paths[|keys|]]) !in files
    requires Hashed(listed, hashOf, paths, keys) && Untouched(now, listed, paths[..|keys|])
    requires Linked(now, listed, hashOf, paths[..|keys|], files, links)
    ensures var n, path := |keys|, paths[|keys|]; var key := Key(hashOf, now[path]);
      && Hashed(listed, hashOf, paths, keys + [key]) && Untouched(now, listed, paths[..n + 1])
      && Linked(now, listed, hashOf, paths[..n + 1], files[key := path], links)
  {
    var n, path := |keys|, paths[|keys|];
    var key := Key(hashOf, now[path]);
    assert path !in paths[..n];
    HashedStep(now, listed, hashOf, paths, keys);
    assert paths[..n + 1] == paths[..n] + [path];
  }

  /** A duplicate is never a recorded file: its key would lead back to itself. */
  lemma DuplicateNotRecorded(now: Files, listed: Files, hashOf: seq<bv8> -> string, path: FilePath,
                             seen: seq<FilePath>, files: map<string, FilePath>, links: seq<Link>, k: string)
    requires path in now && Key(hashOf, now[path]) in files && files[Key(hashOf, now[path])] != path
    requires Linked(now, listed, hashOf, seen, files, links)
    requires k in files
    ensures files[k] != path
  {
    assert Key(hashOf, now[files[k]]) == k;
  }

  /** After the link, every link, old or new, holds the bytes of the file it links to. */
  lemma LinksHoldBytes(now: Files, listed: Files, hashOf: seq<bv8> -> string, path: FilePath,
                       seen: seq<FilePath>, files: map<string, FilePath>, links: seq<Link>)
    requires path in now && Key(hashOf, now[path]) in files
    requires forall i :: 0 <= i < |links| ==> links[i].key in files && files[links[i].key] == links[i].existing
    requires Linked(now, listed, hashOf, seen, files, links)
    ensures var key := Key(hashOf, now[path]); var links' := links + [Link(key, files[key], path)];
      forall i :: 0 <= i < |links'| ==>
        links'[i].existing in listed && links'[i].link in now[path := now[files[key]]]
        && now[path := now[files[key]]][links'[i].link] == listed[links'[i].existing]
  {
    var key := Key(hashOf, now[path]);
    var now' := now[path := now[files[key]]];
    var links' := links + [Link(key, files[key], path)];
    forall i | 0 <= i < |links'|
      ensures links'[i].existing in listed && links'[i].link in now' && now'[links'[i].link] == listed[links'[i].existing]
    {
      if i < |links| {
        assert links'[i] == links[i];
        if links[i].link == path {
          assert Key(hashOf, listed[links[i].existing]) == links[i].key;
        }
      }
    }
  }

  /** A duplicate is replaced by a link to the recorded file. */
  lemma VisitLinks(now: Files, now': Files, listed: Files, hashOf: seq<bv8> -> string, paths: seq<FilePath>,
                   keys: seq<string>, files: map<string, FilePath>, saveCount: nat, saveBytes: nat, links: seq<Link>)
    requires forall p :: p in paths ==> p in listed
    requires |keys| < |paths| && paths[|keys|] in now
    requires Folded(listed, paths, keys, files, saveCount, saveBytes, links)
    requires Untouched(now, listed, paths[..|keys|])
    requires Linked(now, listed, hashOf, paths[..|keys|], files, links)
    requires var key := Key(hashOf, now[paths[|keys|]]);
      && key in files && files[key] != paths[|keys|] && now' == now[paths[|keys|] := now[files[key]]]
    ensures var n, path := |keys|, paths[|keys|]; var key := Key(hashOf, now[path]);
      && Untouched(now', listed, paths[..n + 1])
      && Linked(now', listed, hashOf, paths[..n + 1], files, links + [Link(key, files[key], path)])
  {
    var n, path := |keys|, paths[|keys|];
    var key := Key(hashOf, now[path]);
    assert paths[..n + 1] == paths[..n] + [path];
    forall k | k in files ensures files[k] != path {
      DuplicateNotRecorded(now, listed, hashOf, path, paths[..n], files, links, k);
    }
    LinksHoldBytes(now, listed, hashOf, path, paths[..n], files, links);
  }

  /** A failed link leaves the duplicate deleted. */
  lemma VisitFails(now: Files, listed: Files, hashOf: seq<bv8> -> string, paths: seq<FilePath>, keys: seq<string>)
    requires forall p :: p in paths ==> p in listed
    requires |keys| < |paths| && paths[|keys|] in now
    requires Hashed(listed, hashOf, paths, keys) && Untouched(now, listed, paths[..|keys|])
    ensures var n, path := |keys|, paths[|keys|];
      && Hashed(listed, hashOf, paths, keys + [Key(hashOf, now[path])])
      && Untouched(now - {path}, listed, paths[..n + 1])
  {
    HashedStep(now, listed, hashOf, paths, keys);
    assert paths[..|keys| + 1] == paths[..|keys|] + [paths[|keys|]];
  }

  /**
   * The duplicate at file i, whose key `key` is recorded: replace it by a link to the
   * recorded file. Only that path changes.
   */
  method LinkDuplicate(vol: Volume, listed: Files, paths: seq<FilePath>, hashOf: seq<bv8> -> string,
                       linkSucceeds: (FilePath, FilePath) -> bool,
                       keys: seq<string>, files: map<string, FilePath>, saveCount: nat, saveBytes: nat, links: seq<Link>,
                       key: string)
    returns (r: Result<(), string>)
    requires forall p :: p in paths ==> p in listed
    requires |keys| < |paths| && paths[|keys|] in vol.files
    requires key == Key(hashOf, vol.files[paths[|keys|]]) && key in files
    requires Folded(listed, paths, keys, files, saveCount, saveBytes, links)
    requires Hashed(listed, hashOf, paths, keys) && Untouched(vol.files, listed, paths[..|keys|])
    requires Linked(vol.files, listed, hashOf, paths[..|keys|], files, links)
    modifies vol
    ensures r.Failure? ==> r.error == ExitOnLinkFailure
    ensures vol.files - {paths[|keys|]} == old(vol.files) - {paths[|keys|]}
    ensures Hashed(listed, hashOf, paths, keys + [key]) && Untouched(vol.files, listed, paths[..|keys| + 1])
    ensures r.Success? ==> Linked(vol.files, listed, hashOf, paths[..|keys| + 1], files, links + [Link(key, files[key], paths[|keys|])])
  {
    ghost var now := vol.files;
    VisitFails(now, listed, hashOf, paths, keys);
    r := Relink(vol, files[key], paths[|keys|], linkSucceeds);
    if r.Success? {
      HashedStep(now, listed, hashOf, paths, keys);
      VisitLinks(now, vol.files, listed, hashOf, paths, keys, files, saveCount, saveBytes, links);
    }
  }

  /**
   * File i of the loop, already counted in seenBytes: hash it (lowercased), record it if its
   * key is new, else count it and replace it by a link to the recorded file.
   */
  method Visit(vol: Volume, listed: Files, paths: seq<FilePath>, hashOf: seq<bv8> -> string,
               linkSucceeds: (FilePath, FilePath) -> bool,
               keys: seq<string>, files: map<string, FilePath>, saveCount: nat, saveBytes: nat, links: seq<Link>)
    returns (keys': seq<string>, files': map<string, FilePath>, saveCount': nat, saveBytes': nat, links': seq<Link>,
             r: Result<(), string>)
    requires forall p :: p in paths ==> p in listed
    requires |keys| < |paths|
    requires Folded(listed, paths, keys, files, saveCount, saveBytes, links)
    requires Hashed(listed, hashOf, paths, keys) && Untouched(vol.files, listed, paths[..|keys|])
    requires Linked(vol.files, listed, hashOf, paths[..|keys|], files, links)
    modifies vol
    ensures r.Failure? ==> r.error == FileNotFound || r.error == ExitOnLinkFailure
    ensures r.Failure? && r.error == FileNotFound ==> keys' == keys && vol.files == old(vol.files)
    ensures r.Success? || r.error == ExitOnLinkFailure ==> |keys'| == |keys| + 1
    ensures Folded(listed, paths, keys', files', saveCount', saveBytes', links')
    ensures vol.files - {paths[|keys|]} == old(vol.files) - {paths[|keys|]}
    ensures Hashed(listed, hashOf, paths, keys') && Untouched(vol.files, listed, paths[..|keys'|])
    ensures r.Success? || r.error == FileNotFound ==> Linked(vol.files, listed, hashOf, paths[..|keys'|], files', links')
  {
    var i, path := |keys|, paths[|keys|];
    keys', files', saveCount', saveBytes', links', r := keys, files, saveCount, saveBytes, links, Success(());
    if path !in vol.files {
      r := Failure(FileNotFound);
      return;
    }
    var key := Key(hashOf, vol.files[path]);
    VisitStep(keys, paths, listed, i, key);
    if key !in files {
      VisitRecords(vol.files, listed, hashOf, paths, keys, files, links);
      files' := files[key := path];
    } else {
      saveCount' := saveCount + 1;
      saveBytes' := saveBytes + |listed[path]|;
      links' := links + [Link(key, files[key], path)];
      r := LinkDuplicate(vol, listed, paths, hashOf, linkSucceeds, keys, files, saveCount, saveBytes, links, key);
    }
    keys' := keys + [key];
  }

  /** Hashed and Untouched, spelled out. */
  lemma HashedUntouched(now: Files, listed: Files, hashOf: seq<bv8> -> string, paths: seq<FilePath>, keys: seq<string>)
    requires forall p :: p in paths ==> p in listed
    requires |keys| <= |paths|
    requires Hashed(listed, hashOf, paths, keys) && Untouched(now, listed, paths[..|keys|])
    ensures forall j :: 0 <= j < |keys| && paths[j] !in paths[..j] ==> keys[j] == Text.ToLower(hashOf(listed[paths[j]]))
    ensures forall p :: p in listed && p !in paths[..|keys|] ==> p in now && now[p] == listed[p]
  {
  }

  /** Linked, spelled out for the recorded files and the links. */
  lemma LinkedBytes(now: Files, listed: Files, hashOf: seq<bv8> -> string, seen: seq<FilePath>,
                    files: map<string, FilePath>, links: seq<Link>)
    requires Linked(now, listed, hashOf, seen, files, links)
    ensures forall k :: k in files ==> files[k] in listed && files[k] in now && now[files[k]] == listed[files[k]]
    ensures forall i :: 0 <= i < |links| ==>
      links[i].existing in listed && links[i].link in now && now[links[i].link] == listed[links[i].existing]
  {
  }

  /**
   * Run: the fold over the files listed up front. An unreadable file throws
   * FileNotFoundException; a failed link exits; with progress shown, an all-empty listing
   * divides by zero after the first file. Whatever the ending, `keys` are the lowercased
   * hashes of the files visited, and the dictionary, `saveCount` and `saveBytes` are the
   * first-wins fold of them; unvisited files are untouched, and, unless a link failed, every
   * recorded file keeps its bytes and every link holds the bytes of the file it links to.
   */
  method Run(vol: Volume, paths: seq<FilePath>, hashOf: seq<bv8> -> string,
             linkSucceeds: (FilePath, FilePath) -> bool, showProgress: bool)
    returns (keys: seq<string>, files: map<string, FilePath>, seenBytes: nat, saveCount: nat, saveBytes: nat,
             links: seq<Link>, r: Result<(), string>)
    requires forall p :: p in paths ==> p in vol.files
    modifies vol
    ensures |keys| <= |paths|
    ensures r.Success? ==> |keys| == |paths| && seenBytes == TotalBytes(old(vol.files), paths)
    ensures r.Failure? ==>
      || (r.error == FileNotFound && |keys| < |paths|)
      || (r.error == ExitOnLinkFailure && |keys| > 0)
      || (r.error == DivideByZero && showProgress && TotalBytes(old(vol.files), paths) == 0 && |keys| > 0)
    ensures forall j :: 0 <= j < |keys| ==> Text.ToLower(keys[j]) == keys[j]
    ensures forall j :: 0 <= j < |keys| && paths[j] !in paths[..j] ==>
      keys[j] == Text.ToLower(hashOf(old(vol.files)[paths[j]]))
    ensures files == Firsts(keys, paths[..|keys|])
    ensures saveCount == Duplicates(keys)
    ensures saveBytes == DuplicateBytes(keys, Lengths(old(vol.files), paths[..|keys|]))
    ensures forall i :: 0 <= i < |links| ==> links[i].key in files && files[links[i].key] == links[i].existing
    ensures forall p :: p in old(vol.files) && p !in paths[..|keys|] ==> p in vol.files && vol.files[p] == old(vol.files)[p]
    ensures r.Success? || r.error != ExitOnLinkFailure ==>
      && (forall k :: k in files ==>
            files[k] in old(vol.files) && files[k] in vol.files && vol.files[files[k]] == old(vol.files)[files[k]])
      && (forall i :: 0 <= i < |links| ==>
            links[i].existing in old(vol.files) && links[i].link in vol.files && vol.files[links[i].link] == old(vol.files)[links[i].existing])
  {
    var listed := vol.files;  // the lengths FileInfo read when the list was made
    var total := TotalBytes(listed, paths);
    keys, files, seenBytes, saveCount, saveBytes, links := [], map[], 0, 0, 0, [];
    while |keys| < |paths|
      invariant |keys| <= |paths|
      invariant seenBytes == TotalBytes(listed, paths[..|keys|])
      invariant Folded(listed, paths, keys, files, saveCount, saveBytes, links)
      invariant Hashed(listed, hashOf, paths, keys) && Untouched(vol.files, listed, paths[..|keys|])
      invariant Linked(vol.files, listed, hashOf, paths[..|keys|], files, links)
      decreases |paths| - |keys|
    {
      TotalBytesStep(listed, paths, |keys|);
      seenBytes := seenBytes + |listed[paths[|keys|]]|;
      keys, files, saveCount, saveBytes, links, r :=
        Visit(vol, listed, paths, hashOf, linkSucceeds, keys, files, saveCount, saveBytes, links);
      HashedUntouched(vol.files, listed, hashOf, paths, keys);
      if r.Success? || r.error == FileNotFound {
        LinkedBytes(vol.files, listed, hashOf, paths[..|keys|], files, links);
      }
      if r.Failure? {
        return;
      }
      if showProgress && Percent(seenBytes, total).Failure? {
        r := Failure(DivideByZero);
        return;
      }
    }
    assert paths[..|keys|] == paths;
    HashedUntouched(vol.files, listed, hashOf, paths, keys);
    LinkedBytes(vol.files, listed, hashOf, paths[..|keys|], files, links);
    r := Success(());
  }

  /** The listed lengths of the given files. */
  function Lengths(files: Files, paths: seq<FilePath>): (n: seq<nat>)
    requires forall p :: p in paths ==> p in files
    ensures |n| == |paths|
  {
    seq(|paths|, j requires 0 <= j < |paths| => |files[paths[j]]|)
  }

  /** How the fold's values grow when file i, with key `key`, is visited. */
  lemma {:induction false} VisitStep(keys: seq<string>, paths: seq<FilePath>, listed: Files, i: int, key: string)
    requires forall p :: p in paths ==> p in listed
    requires 0 <= i < |paths| && |keys| == i
    ensures var keys', prefix := keys + [key], paths[..i + 1];
      && keys'[..i] == keys && prefix[..i] == paths[..i]
      && Firsts(keys', prefix) == (var m := Firsts(keys, paths[..i]); if key in m then m else m[key := paths[i]])
      && Duplicates(keys') == Duplicates(keys) + (if key in Firsts(keys, paths[..i]) then 1 else 0)
      && DuplicateBytes(keys', Lengths(listed, prefix))
         == DuplicateBytes(keys, Lengths(listed, paths[..i])) + (if key in Firsts(keys, paths[..i]) then |listed[paths[i]]| else 0)
  {
    var keys', prefix := keys + [key], paths[..i + 1];
    assert keys'[..i] == keys && prefix[..i] == paths[..i];
    FirstsKeys(keys, paths[..i], key);
    FirstsStep(keys', prefix);
    DuplicatesStep(keys');
    LengthsStep(listed, paths, i);
    DuplicateBytesStep(keys', Lengths(listed, prefix));
  }

  lemma {:induction false} FirstsStep(keys: seq<string>, paths: seq<FilePath>)
    requires |keys| == |paths| > 0
    ensures var n := |keys| - 1; var m := Firsts(keys[..n], paths[..n]);
      Firsts(keys, paths) == if keys[n] in m then m else m[keys[n] := paths[n]]
  {
  }

  lemma {:induction false} DuplicatesStep(keys: seq<string>)
    requires |keys| > 0
    ensures var n := |keys| - 1;
      Duplicates(keys) == Duplicates(keys[..n]) + (if keys[n] in keys[..n] then 1 else 0)
  {
  }

  lemma {:induction false} DuplicateBytesStep(keys: seq<string>, lengths: seq<nat>)
    requires |keys| == |lengths| > 0
    ensures var n := |keys| - 1;
      DuplicateBytes(keys, lengths)
      == DuplicateBytes(keys[..n], lengths[..n]) + (if keys[n] in keys[..n] then lengths[n] else 0)
  {
  }

  lemma {:induction false} LengthsStep(listed: Files, paths: seq<FilePath>, i: int)
    requires forall p :: p in paths ==> p in listed
    requires 0 <= i < |paths|
    ensures Lengths(listed, paths[..i + 1])[..i] == Lengths(listed, paths[..i])
    ensures Lengths(listed, paths[..i + 1])[i] == |listed[paths[i]]|
  {
  }
}
